/** The page's state: the global `categories` board and the table on
    screen, with the three operations that change them. */
module Jeopardy {
  import opened Options
  import opened Board
  import opened CellIds
  import opened Assembly
  import opened Table

  /** The page is consistent: before the first game the board and the table
      are empty; afterwards the table has the layout of `fillTable`, its
      header shows the titles and every body cell shows what its clue's
      state says. */
  predicate PageValid(categories: seq<Category>, header: seq<string>, body: seq<seq<Cell>>) {
    && WithinLayout(categories)
    && ((categories == [] && header == [] && body == [])
        || (HeaderShows(header, categories) && GridShaped(body) && Displayed(categories, body)))
  }

  /** A click keeps the page consistent. */
  lemma ClickKeepsPage(categories: seq<Category>, header: seq<string>, body: seq<seq<Cell>>, catIdx: nat, clueIdx: nat)
    requires PageValid(categories, header, body) && InRange(categories, catIdx, clueIdx)
    ensures var o := Click(categories, catIdx, clueIdx);
      PageValid(o.board, header,
                if o.shown.Some? then SetTextById(body, CellId(catIdx, clueIdx), o.shown.value) else body)
  {
    ClickKeepsDisplay(categories, body, catIdx, clueIdx);
    ClickKeepsContent(categories, catIdx, clueIdx);
  }

  class Game {
    /** The global `categories`. */
    var categories: seq<Category>
    /** The text of the `<thead>` cells. */
    var header: seq<string>
    /** The `<tbody>` rows. */
    var body: seq<seq<Cell>>

    ghost predicate Valid()
      reads this
    {
      PageValid(categories, header, body)
    }

    /** The page as loaded: `let categories = []` and an empty table. */
    constructor ()
      ensures Valid()
      ensures categories == [] && header == [] && body == []
    {
      categories := [];
      header := [];
      body := [];
    }

    /** `fillTable`: the header row gets the titles of the board, the body is
        laid out afresh with every cell showing the placeholder; the board
        itself is not touched. */
    method FillTable()
      modifies this
      ensures categories == old(categories)
      ensures HeaderShows(header, categories)
      ensures GridShaped(body)
      ensures forall r, c :: 0 <= r < |body| && 0 <= c < |body[r]| ==> body[r][c].text == PLACEHOLDER
      ensures WithinLayout(categories) && AllHidden(categories) ==> Valid()
    {
      header := BuildHeader(categories);
      body := BuildBody();
      if AllHidden(categories) {
        FreshTableDisplayed(categories, body);
        assert HeaderShows(header, categories);
      }
    }

    /** `handleClick` on the cell in row `row`, column `col` of the body: the
        cell's id is parsed back into coordinates, the clue there takes its
        reveal step, and the new text is written into the cell with that id.
        The cell's id parses back to `(col, row)` (`CellIdRoundTrip`); the
        source checks no bounds, so that clue must exist on the board. */
    method HandleClick(row: nat, col: nat) returns (shown: Option<string>)
      requires Valid()
      requires row < |body| && col < |body[row]|
      requires InRange(categories, col, row)
      modifies this
      ensures Valid()
      ensures var o := Click(old(categories), col, row); categories == o.board && shown == o.shown
      ensures header == old(header)
      ensures body == if shown.Some? then SetTextById(old(body), CellId(col, row), shown.value) else old(body)
    {
      var id := ParseCellId(body[row][col].id);
      CellIdRoundTrip(col, row);
      var catIdx: nat, clueIdx: nat := id.value.0, id.value.1;
      ghost var o := Click(categories, catIdx, clueIdx);
      ghost var body' := if o.shown.Some? then SetTextById(body, CellId(catIdx, clueIdx), o.shown.value) else body;
      ClickKeepsPage(categories, header, body, catIdx, clueIdx);
      var clue := categories[catIdx].clues[clueIdx];
      if clue.showing == Question {
        body := SetTextById(body, CellId(catIdx, clueIdx), clue.answer);
        categories := SetShowing(categories, catIdx, clueIdx, Answer);
        shown := Some(clue.answer);
        assert categories == o.board && body == body';
      } else if clue.showing == Hidden {
        body := SetTextById(body, CellId(catIdx, clueIdx), clue.question);
        categories := SetShowing(categories, catIdx, clueIdx, Question);
        shown := Some(clue.question);
        assert categories == o.board && body == body';
      } else {
        shown := None;
      }
    }

    /** `setupAndStart`: a new board is assembled and replaces the old one
        wholesale, then the table is filled. If the catalog request fails
        (`getCategoryIds` returns `undefined` and `.map` on it throws) or any
        category request fails (`Promise.all` rejects), nothing changes. */
    method SetupAndStart(response: Option<seq<CatalogEntry>>, idPicks: seq<nat>,
                         fetch: CategoryId -> Option<RawCategory>, cluePicks: seq<seq<nat>>)
      returns (ok: bool)
      requires Valid()
      requires AssemblyInputs(response, idPicks, fetch, cluePicks)
      modifies this
      ensures Valid()
      ensures ok <==> AssembleBoard(response, idPicks, fetch, cluePicks).Some?
      ensures ok ==> categories == AssembleBoard(response, idPicks, fetch, cluePicks).value
      ensures ok ==> HeaderShows(header, categories) && GridShaped(body)
      ensures ok ==> forall r, c :: 0 <= r < |body| && 0 <= c < |body[r]| ==> body[r][c].text == PLACEHOLDER
      ensures !ok ==> categories == old(categories) && header == old(header) && body == old(body)
    {
      var categoryIds := GetCategoryIds(response, idPicks);
      if categoryIds.None? {
        return false;
      }
      var board := FetchAll(categoryIds.value, fetch, cluePicks);
      if board.None? {
        return false;
      }
      categories := board.value;
      FillTable();
      ok := true;
    }
  }
}
