/** The board: the `categories` array of the game, each category a title and
    a list of clues, each clue a question, an answer and the `showing` state
    that clicks on its cell advance. */
module Board {
  import opened Options

  const NUM_CATEGORIES: nat := 6
  const NUM_QUESTIONS_PER_CAT: nat := 5

  /** The placeholder every cell shows before its clue is revealed. */
  const PLACEHOLDER: string := "?"

  /** A clue's `showing` field: `null`, `"question"` or `"answer"`. */
  datatype Showing = Hidden | Question | Answer

  datatype Clue = Clue(question: string, answer: string, showing: Showing)

  datatype Category = Category(title: string, clues: seq<Clue>)

  /** How far a clue has been revealed: 0, 1 or 2. */
  function Rank(s: Showing): nat {
    match s
    case Hidden => 0
    case Question => 1
    case Answer => 2
  }

  /** The text a clue's cell shows in each state. */
  function CellText(clue: Clue): string {
    match clue.showing
    case Hidden => PLACEHOLDER
    case Question => clue.question
    case Answer => clue.answer
  }

  /** One click on a clue: the clue afterwards and the text written into its
      cell, `None` when the click is ignored. */
  datatype Reveal = Reveal(clue: Clue, shown: Option<string>)

  /** The reveal transition of `handleClick`: a clue showing nothing shows its
      question, one showing its question shows its answer, and a click on a
      clue showing its answer is ignored. Only `showing` changes, it moves one
      step forward unless it is already at the end, and whatever is written
      into the cell is what the clue now shows. */
  function RevealClue(clue: Clue): (r: Reveal)
    ensures r.clue.question == clue.question && r.clue.answer == clue.answer
    ensures clue.showing == Hidden ==> r.clue.showing == Question && r.shown == Some(clue.question)
    ensures clue.showing == Question ==> r.clue.showing == Answer && r.shown == Some(clue.answer)
    ensures clue.showing == Answer ==> r.clue == clue && r.shown == None
    ensures Rank(r.clue.showing) == if clue.showing == Answer then 2 else Rank(clue.showing) + 1
    ensures r.shown.Some? ==> r.shown.value == CellText(r.clue)
    ensures r.shown.None? ==> r.clue == clue
  {
    if clue.showing == Question then Reveal(clue.(showing := Answer), Some(clue.answer))
    else if clue.showing == Hidden then Reveal(clue.(showing := Question), Some(clue.question))
    else Reveal(clue, None)
  }

  /** The clue at `categories[catIdx].clues[clueIdx]` exists. */
  predicate InRange(board: seq<Category>, catIdx: int, clueIdx: int) {
    0 <= catIdx < |board| && 0 <= clueIdx < |board[catIdx].clues|
  }

  /** The board as the game builds it: at most `NUM_CATEGORIES` categories of
      at most `NUM_QUESTIONS_PER_CAT` clues each. */
  predicate WithinLayout(board: seq<Category>) {
    |board| <= NUM_CATEGORIES && forall c :: 0 <= c < |board| ==> |board[c].clues| <= NUM_QUESTIONS_PER_CAT
  }

  predicate AllHidden(board: seq<Category>) {
    forall c, q :: 0 <= c < |board| && 0 <= q < |board[c].clues| ==> board[c].clues[q].showing == Hidden
  }

  /** `categories[catIdx].clues[clueIdx].showing = showing`: the addressed
      clue gets the new state, keeping its question and answer, and every
      other clue, every title and the board's shape are unchanged. */
  function SetShowing(board: seq<Category>, catIdx: nat, clueIdx: nat, showing: Showing): (b: seq<Category>)
    requires InRange(board, catIdx, clueIdx)
    ensures |b| == |board|
    ensures forall c :: 0 <= c < |board| ==>
      b[c].title == board[c].title && |b[c].clues| == |board[c].clues|
    ensures forall c, q :: InRange(board, c, q) && (c != catIdx || q != clueIdx) ==>
      b[c].clues[q] == board[c].clues[q]
    ensures b[catIdx].clues[clueIdx].showing == showing
    ensures b[catIdx].clues[clueIdx].question == board[catIdx].clues[clueIdx].question
    ensures b[catIdx].clues[clueIdx].answer == board[catIdx].clues[clueIdx].answer
    ensures showing == board[catIdx].clues[clueIdx].showing ==> b == board
  {
    var category := board[catIdx];
    var clue := category.clues[clueIdx].(showing := showing);
    assert showing == category.clues[clueIdx].showing ==>
      category.clues[clueIdx := clue] == category.clues && board[catIdx := category] == board;
    board[catIdx := category.(clues := category.clues[clueIdx := clue])]
  }

  datatype ClickOutcome = ClickOutcome(board: seq<Category>, shown: Option<string>)

  /** A click on the cell of `categories[catIdx].clues[clueIdx]`: that clue
      takes its reveal step and nothing else on the board changes. */
  function Click(board: seq<Category>, catIdx: nat, clueIdx: nat): (o: ClickOutcome)
    requires InRange(board, catIdx, clueIdx)
    ensures |o.board| == |board|
    ensures forall c :: 0 <= c < |board| ==>
      o.board[c].title == board[c].title && |o.board[c].clues| == |board[c].clues|
    ensures forall c, q :: InRange(board, c, q) && (c != catIdx || q != clueIdx) ==>
      o.board[c].clues[q] == board[c].clues[q]
    ensures o.board[catIdx].clues[clueIdx] == RevealClue(board[catIdx].clues[clueIdx]).clue
    ensures o.shown == RevealClue(board[catIdx].clues[clueIdx]).shown
  {
    var r := RevealClue(board[catIdx].clues[clueIdx]);
    ClickOutcome(SetShowing(board, catIdx, clueIdx, r.clue.showing), r.shown)
  }

  /** A click changes no title, question or answer, and keeps the board's shape. */
  lemma ClickKeepsContent(board: seq<Category>, catIdx: nat, clueIdx: nat)
    requires InRange(board, catIdx, clueIdx)
    ensures var b := Click(board, catIdx, clueIdx).board;
      forall c, q :: InRange(board, c, q) ==>
        InRange(b, c, q) && b[c].clues[q].question == board[c].clues[q].question
        && b[c].clues[q].answer == board[c].clues[q].answer
    ensures WithinLayout(board) ==> WithinLayout(Click(board, catIdx, clueIdx).board)
  {
  }

  /** The board after `n` clicks on the same cell. */
  function Clicks(board: seq<Category>, catIdx: nat, clueIdx: nat, n: nat): (b: seq<Category>)
    requires InRange(board, catIdx, clueIdx)
    ensures InRange(b, catIdx, clueIdx)
    decreases n
  {
    if n == 0 then board else Clicks(Click(board, catIdx, clueIdx).board, catIdx, clueIdx, n - 1)
  }

  /** A clue showing its answer stays so: further clicks change nothing. */
  lemma {:induction false} AnswerIsFinal(board: seq<Category>, catIdx: nat, clueIdx: nat, n: nat)
    requires InRange(board, catIdx, clueIdx)
    requires board[catIdx].clues[clueIdx].showing == Answer
    ensures Clicks(board, catIdx, clueIdx, n) == board
  {
    if n > 0 {
      var o := Click(board, catIdx, clueIdx);
      assert o.board == board by {
        assert o.board[catIdx] == board[catIdx];
      }
      AnswerIsFinal(board, catIdx, clueIdx, n - 1);
    }
  }

  /** Whatever the clue showed before, two clicks or more leave it showing
      its answer. */
  lemma {:induction false} TwoClicksReachAnswer(board: seq<Category>, catIdx: nat, clueIdx: nat, n: nat)
    requires InRange(board, catIdx, clueIdx)
    requires n >= 2
    ensures Clicks(board, catIdx, clueIdx, n)[catIdx].clues[clueIdx].showing == Answer
  {
    var b1 := Click(board, catIdx, clueIdx).board;
    var b2 := Click(b1, catIdx, clueIdx).board;
    assert b2[catIdx].clues[clueIdx].showing == Answer;
    assert Clicks(board, catIdx, clueIdx, n) == Clicks(b1, catIdx, clueIdx, n - 1);
    assert Clicks(b1, catIdx, clueIdx, n - 1) == Clicks(b2, catIdx, clueIdx, n - 2);
    AnswerIsFinal(b2, catIdx, clueIdx, n - 2);
  }

  /** The board after a sequence of clicks, each on the cell of a clue of the board. */
  function Play(board: seq<Category>, cells: seq<(nat, nat)>): (b: seq<Category>)
    requires forall i :: 0 <= i < |cells| ==> InRange(board, cells[i].0, cells[i].1)
    ensures |b| == |board| && forall c :: 0 <= c < |board| ==> |b[c].clues| == |board[c].clues|
    decreases cells
  {
    if cells == [] then board else Play(Click(board, cells[0].0, cells[0].1).board, cells[1..])
  }

  /** The showing state never goes back: after any clicks on any cells, every
      clue is at least as far revealed as before, and a clue nobody clicked
      is exactly as it was. */
  lemma {:induction false} PlayNeverRegresses(board: seq<Category>, cells: seq<(nat, nat)>)
    requires forall i :: 0 <= i < |cells| ==> InRange(board, cells[i].0, cells[i].1)
    ensures var b := Play(board, cells);
      forall c, q :: InRange(board, c, q) ==>
        && Rank(b[c].clues[q].showing) >= Rank(board[c].clues[q].showing)
        && ((c, q) !in cells ==> b[c].clues[q] == board[c].clues[q])
    decreases cells
  {
    if cells != [] {
      var b1 := Click(board, cells[0].0, cells[0].1).board;
      PlayNeverRegresses(b1, cells[1..]);
      forall c, q | InRange(board, c, q) && (c, q) !in cells
        ensures (c, q) !in cells[1..] && (c != cells[0].0 || q != cells[0].1)
      {
        assert cells == [cells[0]] + cells[1..];
      }
    }
  }

  /** From a hidden clue, the first click shows the question, the second the
      answer, and every later click shows nothing new. */
  lemma RevealSequence(board: seq<Category>, catIdx: nat, clueIdx: nat)
    requires InRange(board, catIdx, clueIdx)
    requires board[catIdx].clues[clueIdx].showing == Hidden
    ensures var clue := board[catIdx].clues[clueIdx];
      var o1 := Click(board, catIdx, clueIdx);
      var o2 := Click(o1.board, catIdx, clueIdx);
      var o3 := Click(o2.board, catIdx, clueIdx);
      o1.shown == Some(clue.question) && o2.shown == Some(clue.answer) && o3.shown == None
      && o3.board == o2.board && o2.board[catIdx].clues[clueIdx].showing == Answer
  {
    var o1 := Click(board, catIdx, clueIdx);
    var o2 := Click(o1.board, catIdx, clueIdx);
    assert o2.board[catIdx].clues[clueIdx].showing == Answer;
    AnswerIsFinal(o2.board, catIdx, clueIdx, 1);
    assert Clicks(o2.board, catIdx, clueIdx, 1) == Click(o2.board, catIdx, clueIdx).board;
  }
}
