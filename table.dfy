/** The HTML table `fillTable` builds and `handleClick` writes into: a header
    row of category titles and a body of `NUM_QUESTIONS_PER_CAT` rows of
    `NUM_CATEGORIES` cells, the cell of category `c` and clue `q` sitting in
    row `q`, column `c`, with id `CellId(c, q)`. */
module Table {
  import opened Options
  import opened Board
  import opened CellIds

  /** A `<td>` of the table body: its `id` attribute and its text. */
  datatype Cell = Cell(id: string, text: string)

  /** The header row of `fillTable`: one cell per category holding its
      title, in board order. */
  method BuildHeader(categories: seq<Category>) returns (header: seq<string>)
    ensures |header| == |categories|
    ensures forall i :: 0 <= i < |categories| ==> header[i] == categories[i].title
  {
    header := [];
    var i := 0;
    while i < |categories|
      invariant 0 <= i <= |categories|
      invariant |header| == i
      invariant forall k :: 0 <= k < i ==> header[k] == categories[k].title
    {
      header := header + [categories[i].title];
      i := i + 1;
    }
  }

  /** The body rows of `fillTable`: `NUM_QUESTIONS_PER_CAT` rows of
      `NUM_CATEGORIES` cells, each named after its column and row and
      showing the placeholder. */
  method BuildBody() returns (rows: seq<seq<Cell>>)
    ensures |rows| == NUM_QUESTIONS_PER_CAT
    ensures forall r :: 0 <= r < |rows| ==> |rows[r]| == NUM_CATEGORIES
    ensures forall r, c :: 0 <= r < |rows| && 0 <= c < |rows[r]| ==> rows[r][c] == Cell(CellId(c, r), PLACEHOLDER)
  {
    rows := [];
    var clueIdx := 0;
    while clueIdx < NUM_QUESTIONS_PER_CAT
      invariant 0 <= clueIdx <= NUM_QUESTIONS_PER_CAT
      invariant |rows| == clueIdx
      invariant forall r :: 0 <= r < clueIdx ==> |rows[r]| == NUM_CATEGORIES
      invariant forall r, c :: 0 <= r < clueIdx && 0 <= c < |rows[r]| ==> rows[r][c] == Cell(CellId(c, r), PLACEHOLDER)
    {
      var tr: seq<Cell> := [];
      var catIdx := 0;
      while catIdx < NUM_CATEGORIES
        invariant 0 <= catIdx <= NUM_CATEGORIES
        invariant |tr| == catIdx
        invariant forall c :: 0 <= c < catIdx ==> tr[c] == Cell(CellId(c, clueIdx), PLACEHOLDER)
      {
        tr := tr + [Cell(CellId(catIdx, clueIdx), PLACEHOLDER)];
        catIdx := catIdx + 1;
      }
      rows := rows + [tr];
      clueIdx := clueIdx + 1;
    }
  }

  predicate HeaderShows(header: seq<string>, categories: seq<Category>) {
    |header| == |categories| && forall i :: 0 <= i < |categories| ==> header[i] == categories[i].title
  }

  /** The body has the layout of `fillTable`: every cell carries the id of
      its position. */
  predicate GridShaped(rows: seq<seq<Cell>>) {
    && |rows| == NUM_QUESTIONS_PER_CAT
    && (forall r :: 0 <= r < |rows| ==> |rows[r]| == NUM_CATEGORIES)
    && forall r, c :: 0 <= r < |rows| && 0 <= c < |rows[r]| ==> rows[r][c].id == CellId(c, r)
  }

  /** No two cells of a body laid out by `fillTable` share an id. */
  lemma GridIdsDistinct(rows: seq<seq<Cell>>, r1: nat, c1: nat, r2: nat, c2: nat)
    requires GridShaped(rows)
    requires r1 < |rows| && c1 < |rows[r1]| && r2 < |rows| && c2 < |rows[r2]|
    requires r1 != r2 || c1 != c2
    ensures rows[r1][c1].id != rows[r2][c2].id
  {
    if rows[r1][c1].id == rows[r2][c2].id {
      CellIdInjective(c1, r1, c2, r2);
    }
  }

  /** `$("#" + id).text(text)`: the cell with that id shows the new text;
      no id changes, and every other cell keeps its text. */
  function SetTextById(rows: seq<seq<Cell>>, id: string, text: string): (rows': seq<seq<Cell>>)
    ensures |rows'| == |rows|
    ensures forall r :: 0 <= r < |rows| ==> |rows'[r]| == |rows[r]|
    ensures forall r, c :: 0 <= r < |rows| && 0 <= c < |rows[r]| ==> rows'[r][c].id == rows[r][c].id
    ensures forall r, c :: 0 <= r < |rows| && 0 <= c < |rows[r]| && rows[r][c].id == id ==> rows'[r][c].text == text
    ensures forall r, c :: 0 <= r < |rows| && 0 <= c < |rows[r]| && rows[r][c].id != id ==> rows'[r][c] == rows[r][c]
  {
    seq(|rows|, r requires 0 <= r < |rows| =>
      seq(|rows[r]|, c requires 0 <= c < |rows[r]| =>
        if rows[r][c].id == id then Cell(id, text) else rows[r][c]))
  }

  /** On a body laid out by `fillTable`, writing into the cell with id
      `CellId(catIdx, clueIdx)` changes exactly the cell in row `clueIdx`,
      column `catIdx`, and only its text. */
  lemma SetTextOnGrid(rows: seq<seq<Cell>>, catIdx: nat, clueIdx: nat, text: string)
    requires GridShaped(rows)
    requires catIdx < NUM_CATEGORIES && clueIdx < NUM_QUESTIONS_PER_CAT
    ensures SetTextById(rows, CellId(catIdx, clueIdx), text)
      == rows[clueIdx := rows[clueIdx][catIdx := rows[clueIdx][catIdx].(text := text)]]
  {
    var rows' := SetTextById(rows, CellId(catIdx, clueIdx), text);
    var expected := rows[clueIdx := rows[clueIdx][catIdx := rows[clueIdx][catIdx].(text := text)]];
    forall r, c | 0 <= r < |rows| && 0 <= c < |rows[r]|
      ensures rows'[r][c] == expected[r][c]
    {
      if r != clueIdx || c != catIdx {
        GridIdsDistinct(rows, r, c, clueIdx, catIdx);
      }
    }
    assert forall r :: 0 <= r < |rows| ==> rows'[r] == expected[r];
  }

  /** The text a cell should show: its clue's state, or the placeholder
      where the board has no clue. */
  function ExpectedText(board: seq<Category>, catIdx: nat, clueIdx: nat): string {
    if InRange(board, catIdx, clueIdx) then CellText(board[catIdx].clues[clueIdx]) else PLACEHOLDER
  }

  /** Every cell of the body shows what its clue's state says it shows. */
  predicate Displayed(board: seq<Category>, rows: seq<seq<Cell>>) {
    forall r, c :: 0 <= r < |rows| && 0 <= c < |rows[r]| ==> rows[r][c].text == ExpectedText(board, c, r)
  }

  /** A click keeps the table in step with the board: the text `handleClick`
      writes into the clicked cell is what its clue now shows, and every
      other cell still shows its own clue. */
  lemma ClickKeepsDisplay(board: seq<Category>, rows: seq<seq<Cell>>, catIdx: nat, clueIdx: nat)
    requires WithinLayout(board) && GridShaped(rows) && Displayed(board, rows)
    requires InRange(board, catIdx, clueIdx)
    ensures var o := Click(board, catIdx, clueIdx);
      var rows': seq<seq<Cell>> := if o.shown.Some? then SetTextById(rows, CellId(catIdx, clueIdx), o.shown.value) else rows;
      GridShaped(rows') && Displayed(o.board, rows')
  {
    var o := Click(board, catIdx, clueIdx);
    var rows': seq<seq<Cell>> := if o.shown.Some? then SetTextById(rows, CellId(catIdx, clueIdx), o.shown.value) else rows;
    if o.shown.Some? {
      SetTextOnGrid(rows, catIdx, clueIdx, o.shown.value);
    }
    forall r, c | 0 <= r < |rows'| && 0 <= c < |rows'[r]|
      ensures rows'[r][c].text == ExpectedText(o.board, c, r)
    {
      if c == catIdx && r == clueIdx {
        assert o.board[catIdx].clues[clueIdx] == RevealClue(board[catIdx].clues[clueIdx]).clue;
      } else {
        assert InRange(board, c, r) ==> o.board[c].clues[r] == board[c].clues[r];
      }
    }
  }

  /** A freshly filled table shows a freshly assembled board: every clue is
      hidden and every cell shows the placeholder. */
  lemma FreshTableDisplayed(board: seq<Category>, rows: seq<seq<Cell>>)
    requires AllHidden(board)
    requires forall r, c :: 0 <= r < |rows| && 0 <= c < |rows[r]| ==> rows[r][c].text == PLACEHOLDER
    ensures Displayed(board, rows)
  {
  }
}
