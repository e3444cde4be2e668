# Jeopardy board — a Dafny model

This project models the core of a browser Jeopardy board (`Jeopardy/jeopardy/jeopardy.js`):

- **The board.** The global `categories` is a list of categories. Each category has a title and a list of clues. Each clue has a question, an answer and a `showing` state: `null`, `"question"` or `"answer"` (`Board.Showing`: `Hidden`, `Question`, `Answer`).
- **The reveal machine.** A click on a cell moves its clue from `null` to `"question"` to `"answer"` and writes the question or the answer into the cell. A click on a clue already showing its answer is ignored. `Board.RevealClue` is the transition on one clue, and `Board.Click` is the click on a whole board.
- **The cell ids.** `fillTable` names each cell `` `${catIdx}-${clueIdx}` ``. `handleClick` reads the coordinates back with `split("-")` and `parseInt`. Module `CellIds` models decimal rendering, `split` on one character and `parseInt` with no radix: white space, sign, `0x` prefix, longest digit run, and `NaN` as `None`. It proves the round trip.
- **The table.** `fillTable` builds a header cell per category and `NUM_QUESTIONS_PER_CAT` rows of `NUM_CATEGORIES` cells showing `"?"`, in nested counter loops (`Table.BuildHeader`, `Table.BuildBody`). `Table.Displayed` says every cell shows what its clue's state says, and every click keeps it true.
- **Board assembly.** `getCategoryIds`, `getCategory` and the `Promise.all` map in `setupAndStart` are pure functions of the HTTP responses and of the positions `_.sampleSize` picked (module `Assembly`).
- **The page.** Class `Jeopardy.Game` holds the board and the table. It has `FillTable`, `HandleClick` and `SetupAndStart`, which update them in place and keep `Valid()`.

Some behaviours of the code are easy to misread; the model follows the code:

- `_.sampleSize` returns fewer items when the pool is smaller; it does not fail. So a board can have fewer than 6 categories, or fewer than 5 clues in a category. `fillTable` still lays out 6 × 5 cells, derived from the constants.
- A click on a cell with no clue behind it is not ignored: `categories[catIdx].clues[clueIdx]` is `undefined` and the handler throws. The model makes the clue's existence a precondition.
- A click on a clue showing its answer writes nothing. The answer is not shown again.
- When the catalog request fails, `getCategoryIds` alerts and returns `undefined`, and `setupAndStart` then throws at `.map`. When a category request fails, `Promise.all` rejects. In both cases the board and the table stay as they were.

## Model

| member | source | states |
|---|---|---|
| CellIds.CellId | Jeopardy/jeopardy/jeopardy.js:91 | the id `${catIdx}-${clueIdx}` splits on `-` into exactly two parts, the decimal renderings of the two coordinates |
| CellIds.ParseCellId | Jeopardy/jeopardy/jeopardy.js:107-109 | an id with no `-` has no second part, so its clue index is `NaN`; an id without any digit gives `NaN` |
| CellIds.ParseInt | Jeopardy/jeopardy/jeopardy.js:108-109 | `parseInt` of a blank string, or of a string without any decimal digit, is `NaN` |
| CellIds.NatToDecimal | Jeopardy/jeopardy/jeopardy.js:91 | `${n}` of an index is a non-empty string of decimal digits |
| CellIds.DecimalValue | Jeopardy/jeopardy/jeopardy.js:91 | reading the decimal digits of `n` back gives `n` |
| CellIds.Split | Jeopardy/jeopardy/jeopardy.js:107 | `id.split("-")` gives at least one part, no part holds `-`, and joining the parts with `-` gives back the id |
| CellIds.SplitJoin | Jeopardy/jeopardy/jeopardy.js:107 | splitting undoes joining when no part holds the separator |
| CellIds.ParseIntOfDigits | Jeopardy/jeopardy/jeopardy.js:108-109 | `parseInt` of a non-empty digit string is its decimal value |
| CellIds.ParseIntOfNat | Jeopardy/jeopardy/jeopardy.js:108-109 | `parseInt` of `${n}` is `n` |
| CellIds.CellIdRoundTrip | Jeopardy/jeopardy/jeopardy.js:91 | splitting the cell id `${catIdx}-${clueIdx}` on `-` and parsing both parts gives back exactly `(catIdx, clueIdx)` (cited with lines 107-109) |
| CellIds.CellIdInjective | Jeopardy/jeopardy/jeopardy.js:91 | two coordinates get the same id only if they are equal |
| Board.RevealClue | Jeopardy/jeopardy/jeopardy.js:98-118 | `null` → `"question"` showing the question; `"question"` → `"answer"` showing the answer; `"answer"` is ignored with nothing shown; question and answer are kept; the state moves exactly one step unless it is final; the text written is what the clue now shows |
| Board.SetShowing | Jeopardy/jeopardy/jeopardy.js:114 | `clue.showing = s` sets only that clue's state, keeps its question and answer, leaves every other clue, every title and the shape unchanged, and changes nothing when the state is already `s` (also line 117) |
| Board.Click | Jeopardy/jeopardy/jeopardy.js:110-118 | a click takes the reveal step on `categories[catIdx].clues[clueIdx]` only; every other clue, every title and the board's shape are unchanged |
| Board.ClickKeepsContent | Jeopardy/jeopardy/jeopardy.js:110-118 | no click changes a question or an answer, and the board stays within 6 categories of 5 clues |
| Board.AnswerIsFinal | Jeopardy/jeopardy/jeopardy.js:103 | any number of clicks on a clue showing its answer leaves the board unchanged |
| Board.TwoClicksReachAnswer | Jeopardy/jeopardy/jeopardy.js:98-119 | from any state, two or more clicks leave the clue showing its answer |
| Board.PlayNeverRegresses | Jeopardy/jeopardy/jeopardy.js:98-119 | after any sequence of clicks on any cells no clue is less revealed than before, and a clue never clicked is unchanged |
| Board.RevealSequence | Jeopardy/jeopardy/jeopardy.js:98-104 | from a hidden clue: the first click shows the question, the second the answer, and the third shows nothing and changes nothing |
| Assembly.PickWithoutReplacement | Jeopardy/jeopardy/jeopardy.js:35 | items taken at distinct positions form a sub-multiset of the pool |
| Assembly.SampleSize | Jeopardy/jeopardy/jeopardy.js:61 | `_.sampleSize(pool, n)` gives `min(n, |pool|)` items drawn without replacement from the pool |
| Assembly.GetCategoryIds | Jeopardy/jeopardy/jeopardy.js:31-40 | fails exactly when the request fails; otherwise `min(6, |catalog|)` catalog ids, drawn without replacement, pairwise distinct when the catalog's ids are |
| Assembly.GetCategory | Jeopardy/jeopardy/jeopardy.js:57-68 | title copied verbatim; `min(5, |clues|)` clues, at most 5; every clue hidden; their questions and answers are drawn without replacement from the category's clues |
| Assembly.FetchAll | Jeopardy/jeopardy/jeopardy.js:145 | `Promise.all` over the ids succeeds exactly when every request succeeds, and then gives the category of the i-th id in position i |
| Assembly.AssembleBoard | Jeopardy/jeopardy/jeopardy.js:142-145 | the new board exists exactly when the catalog request and every category request succeed; its i-th category is `getCategory` of the i-th sampled id's response (so it has that response's title); at most 6 × 5; every clue hidden |
| Table.BuildHeader | Jeopardy/jeopardy/jeopardy.js:82-86 | one header cell per category holding its title, in board order |
| Table.BuildBody | Jeopardy/jeopardy/jeopardy.js:88-94 | exactly 5 rows of 6 cells; the cell in row `q`, column `c` has id `${c}-${q}` and shows `"?"` |
| Table.GridIdsDistinct | Jeopardy/jeopardy/jeopardy.js:88-91 | no two body cells share an id |
| Table.SetTextById | Jeopardy/jeopardy/jeopardy.js:113 | `$("#id").text(t)`: cells with that id show `t`, no id changes, every other cell is unchanged (also line 116) |
| Table.SetTextOnGrid | Jeopardy/jeopardy/jeopardy.js:113 | `$("#catIdx-clueIdx").text(t)` changes the text of exactly the cell in row `clueIdx`, column `catIdx`, and nothing else (also line 116) |
| Table.ClickKeepsDisplay | Jeopardy/jeopardy/jeopardy.js:106-119 | after a click every cell still shows what its clue's state says: the placeholder, the question or the answer |
| Table.FreshTableDisplayed | Jeopardy/jeopardy/jeopardy.js:75 | a table of `"?"` cells shows a board whose clues are all hidden |
| Jeopardy.ClickKeepsPage | Jeopardy/jeopardy/jeopardy.js:106-119 | a click keeps the page consistent: the board stays within 6 × 5, the header still shows the titles, the body keeps its layout and every cell still shows its clue's state |
| Jeopardy.Game.constructor | Jeopardy/jeopardy/jeopardy.js:21 | the page starts with an empty board and an empty table |
| Jeopardy.Game.FillTable | Jeopardy/jeopardy/jeopardy.js:78-95 | header shows the titles, body is the 5 × 6 layout of `"?"` cells, board untouched; on a fresh board the page is consistent |
| Jeopardy.Game.HandleClick | Jeopardy/jeopardy/jeopardy.js:106-119 | the clicked cell's id is parsed back to its own coordinates; the board becomes `Board.Click` of the old board; the cell with that id gets the shown text; the header and the other cells are unchanged; `Valid()` is kept |
| Jeopardy.Game.SetupAndStart | Jeopardy/jeopardy/jeopardy.js:142-148 | on success the board is replaced wholesale by the assembled board and the table is refilled; on any failure board and table are unchanged; `Valid()` is kept |

## Left out

- HTTP requests (`axios.get`) are inputs. The catalog response is an `Option` sequence of entries, and `fetch` gives each id's detail response or `None`. Responses with missing fields are not modelled.
- Randomness of `_.sampleSize` is an input: the positions it picked, `min(n, |pool|)` distinct positions. The lodash code is not part of this model.
- `showLoadingView` / `hideLoadingView` (button label and `disabled`) are not modelled. So the model does not show that the button stays at "Loading..." after `setupAndStart` throws.
- Event binding (`$(...).on`) and the unfinished page-load handlers are not modelled. `Jeopardy.Game.HandleClick` takes the clicked cell's position instead of a DOM event.
- `console.error` and `alert` in `getCategoryIds` are not modelled; that failure is `None`.
- Async interleaving is not modelled: each operation is atomic. A click that lands while a new board is loading is not modelled.
- Jeopardy.Game.HandleClick: requires the clicked cell's clue to exist, because the source throws a `TypeError` there. The model does not describe the exception.
- Table.SetTextOnGrid: `Table.SetTextById` rewrites every cell with the given id, while jQuery's `#id` selector finds the first one. This is the same on a `fillTable` body, whose ids are distinct (`Table.GridIdsDistinct`).
- CellIds.NatToDecimal: JavaScript writes numbers of 10^21 and above in exponent form, and `parseInt` results are doubles. The model uses exact naturals; indices here are below 6.
- `split` works on UTF-16 code units and the model on Unicode scalar values. The two agree for the separator `-`.
- Answers that the API gives as numbers are modelled as the strings jQuery's `.text` writes.
