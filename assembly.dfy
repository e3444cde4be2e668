/** Building a fresh board: `getCategoryIds` samples category ids from the
    fetched catalog, `getCategory` turns one fetched category into a titled
    list of fresh clue records, and `setupAndStart` maps `getCategory` over
    the sampled ids with `Promise.all`.

    The two HTTP requests are inputs: the catalog response (`None` when the
    request fails) and a `fetch` function giving each id's response (`None`
    when that request fails). Lodash's `_.sampleSize(pool, n)` is an input
    too: the positions it picked, which are `min(n, |pool|)` distinct
    positions of the pool in the order it returns them. */
module Assembly {
  import opened Options
  import opened Board

  type CategoryId = int

  /** One entry of the catalog response; only its `id` is read. */
  datatype CatalogEntry = CatalogEntry(id: CategoryId)

  datatype RawClue = RawClue(question: string, answer: string)

  /** The category detail response: a title and all of its clues. */
  datatype RawCategory = RawCategory(title: string, clues: seq<RawClue>)

  function Min(a: nat, b: nat): nat {
    if a <= b then a else b
  }

  /** `picks` is a possible choice of `_.sampleSize` on a pool of `poolSize`
      elements with count `n`: `min(n, poolSize)` distinct positions. */
  predicate IsSample(picks: seq<nat>, poolSize: nat, n: nat) {
    && |picks| == Min(n, poolSize)
    && (forall i :: 0 <= i < |picks| ==> picks[i] < poolSize)
    && (forall i, j :: 0 <= i < j < |picks| ==> picks[i] != picks[j])
  }

  function Pick<T>(pool: seq<T>, picks: seq<nat>): (s: seq<T>)
    requires forall i :: 0 <= i < |picks| ==> picks[i] < |pool|
    ensures |s| == |picks| && forall i :: 0 <= i < |picks| ==> s[i] == pool[picks[i]]
  {
    seq(|picks|, i requires 0 <= i < |picks| => pool[picks[i]])
  }

  /** The pool without its element at position `p`. */
  function RemoveAt<T>(pool: seq<T>, p: nat): (pool': seq<T>)
    requires p < |pool|
    ensures |pool'| == |pool| - 1
    ensures multiset(pool) == multiset(pool') + multiset{pool[p]}
  {
    assert pool == pool[..p] + [pool[p]] + pool[p + 1..];
    pool[..p] + pool[p + 1..]
  }

  /** Positions of the pool renumbered for `RemoveAt(pool, p)`; none of them is `p`. */
  function Renumber(picks: seq<nat>, p: nat): (picks': seq<nat>)
    requires forall i :: 0 <= i < |picks| ==> picks[i] != p
    ensures |picks'| == |picks|
  {
    seq(|picks|, i requires 0 <= i < |picks| => if picks[i] < p then picks[i] else picks[i] - 1)
  }

  lemma RenumberPick<T>(pool: seq<T>, p: nat, picks: seq<nat>)
    requires p < |pool|
    requires forall i :: 0 <= i < |picks| ==> picks[i] < |pool| && picks[i] != p
    requires forall i, j :: 0 <= i < j < |picks| ==> picks[i] != picks[j]
    ensures forall i :: 0 <= i < |picks| ==> Renumber(picks, p)[i] < |pool| - 1
    ensures forall i, j :: 0 <= i < j < |picks| ==> Renumber(picks, p)[i] != Renumber(picks, p)[j]
    ensures Pick(RemoveAt(pool, p), Renumber(picks, p)) == Pick(pool, picks)
  {
  }

  /** Elements taken at distinct positions are drawn without replacement:
      together they form a sub-multiset of the pool. */
  lemma {:induction false} PickWithoutReplacement<T>(pool: seq<T>, picks: seq<nat>)
    requires forall i :: 0 <= i < |picks| ==> picks[i] < |pool|
    requires forall i, j :: 0 <= i < j < |picks| ==> picks[i] != picks[j]
    ensures multiset(Pick(pool, picks)) <= multiset(pool)
    decreases |picks|
  {
    if picks != [] {
      var p, rest := picks[0], picks[1..];
      assert forall i :: 0 <= i < |rest| ==> rest[i] == picks[i + 1];
      RenumberPick(pool, p, rest);
      PickWithoutReplacement(RemoveAt(pool, p), Renumber(rest, p));
      assert Pick(pool, picks) == [pool[p]] + Pick(pool, rest);
    }
  }

  /** `_.sampleSize(pool, n)`: `min(n, |pool|)` elements of the pool, drawn
      without replacement. */
  function SampleSize<T>(pool: seq<T>, picks: seq<nat>, n: nat): (s: seq<T>)
    requires IsSample(picks, |pool|, n)
    ensures |s| == Min(n, |pool|)
    ensures multiset(s) <= multiset(pool)
  {
    PickWithoutReplacement(pool, picks);
    Pick(pool, picks)
  }

  /** `response.data.map(cat => cat.id)`. */
  function Ids(catalog: seq<CatalogEntry>): seq<CategoryId> {
    seq(|catalog|, i requires 0 <= i < |catalog| => catalog[i].id)
  }

  predicate Distinct<T(==)>(s: seq<T>) {
    forall i, j :: 0 <= i < j < |s| ==> s[i] != s[j]
  }

  /** `getCategoryIds`: `NUM_CATEGORIES` ids sampled from the catalog, or
      fewer when the catalog is smaller; when the request fails the error is
      reported and nothing (`undefined`) is returned. */
  function GetCategoryIds(response: Option<seq<CatalogEntry>>, picks: seq<nat>): (r: Option<seq<CategoryId>>)
    requires response.Some? ==> IsSample(picks, |response.value|, NUM_CATEGORIES)
    ensures r.Some? <==> response.Some?
    ensures r.Some? ==> |r.value| == Min(NUM_CATEGORIES, |response.value|) <= NUM_CATEGORIES
    ensures r.Some? ==> multiset(r.value) <= multiset(Ids(response.value))
    ensures r.Some? && Distinct(Ids(response.value)) ==> Distinct(r.value)
  {
    match response
    case None => None
    case Some(catalog) =>
      var ids := SampleSize(Ids(catalog), picks, NUM_CATEGORIES);
      assert ids == Pick(Ids(catalog), picks);
      Some(ids)
  }

  /** The category fields of a list of clues, without their reveal state. */
  function Stripped(clues: seq<Clue>): (raw: seq<RawClue>)
    ensures |raw| == |clues|
  {
    seq(|clues|, i requires 0 <= i < |clues| => RawClue(clues[i].question, clues[i].answer))
  }

  /** `getCategory`: the title copied verbatim, and up to
      `NUM_QUESTIONS_PER_CAT` of the category's clues, drawn without
      replacement, each a fresh record with the same question and answer
      that shows nothing yet. */
  function GetCategory(detail: RawCategory, picks: seq<nat>): (c: Category)
    requires IsSample(picks, |detail.clues|, NUM_QUESTIONS_PER_CAT)
    ensures c.title == detail.title
    ensures |c.clues| == Min(NUM_QUESTIONS_PER_CAT, |detail.clues|) <= NUM_QUESTIONS_PER_CAT
    ensures forall q :: 0 <= q < |c.clues| ==> c.clues[q].showing == Hidden
    ensures multiset(Stripped(c.clues)) <= multiset(detail.clues)
  {
    var sample := SampleSize(detail.clues, picks, NUM_QUESTIONS_PER_CAT);
    var clues := seq(|sample|, i requires 0 <= i < |sample| => Clue(sample[i].question, sample[i].answer, Hidden));
    assert Stripped(clues) == sample;
    Category(detail.title, clues)
  }

  /** The clue samples fit the responses: one per id, and a valid sample of
      that id's clues whenever its request succeeds. */
  predicate SamplesFit(ids: seq<CategoryId>, fetch: CategoryId -> Option<RawCategory>, cluePicks: seq<seq<nat>>) {
    && |cluePicks| == |ids|
    && forall i :: 0 <= i < |ids| && fetch(ids[i]).Some? ==>
         IsSample(cluePicks[i], |fetch(ids[i]).value.clues|, NUM_QUESTIONS_PER_CAT)
  }

  /** `Promise.all(categoryIds.map(id => getCategory(id)))`: the categories
      in the order of their ids, or a failure as soon as any request fails. */
  function FetchAll(ids: seq<CategoryId>, fetch: CategoryId -> Option<RawCategory>, cluePicks: seq<seq<nat>>): (r: Option<seq<Category>>)
    requires SamplesFit(ids, fetch, cluePicks)
    ensures r.Some? <==> forall i :: 0 <= i < |ids| ==> fetch(ids[i]).Some?
    ensures r.Some? ==> |r.value| == |ids|
    ensures r.Some? ==> forall i :: 0 <= i < |ids| ==> r.value[i] == GetCategory(fetch(ids[i]).value, cluePicks[i])
    decreases |ids|
  {
    if ids == [] then Some([])
    else
      match fetch(ids[0])
      case None => None
      case Some(detail) =>
        match FetchAll(ids[1..], fetch, cluePicks[1..])
        case None =>
          assert exists i :: 1 <= i < |ids| && fetch(ids[i]).None? by {
            var k :| 0 <= k < |ids[1..]| && fetch(ids[1..][k]).None?;
            assert fetch(ids[k + 1]).None?;
          }
          None
        case Some(rest) => Some([GetCategory(detail, cluePicks[0])] + rest)
  }

  /** The precondition of board assembly: the samples fit the responses. */
  predicate AssemblyInputs(response: Option<seq<CatalogEntry>>, idPicks: seq<nat>,
                           fetch: CategoryId -> Option<RawCategory>, cluePicks: seq<seq<nat>>) {
    response.Some? ==>
      && IsSample(idPicks, |response.value|, NUM_CATEGORIES)
      && SamplesFit(GetCategoryIds(response, idPicks).value, fetch, cluePicks)
  }

  /** The board `setupAndStart` assembles: the category of each sampled id,
      in the order of the ids, each with every clue hidden. It fails when the
      catalog request fails or any category request fails. */
  function AssembleBoard(response: Option<seq<CatalogEntry>>, idPicks: seq<nat>,
                         fetch: CategoryId -> Option<RawCategory>, cluePicks: seq<seq<nat>>): (r: Option<seq<Category>>)
    requires AssemblyInputs(response, idPicks, fetch, cluePicks)
    ensures r.Some? <==>
      && response.Some?
      && forall i :: 0 <= i < |GetCategoryIds(response, idPicks).value| ==>
           fetch(GetCategoryIds(response, idPicks).value[i]).Some?
    ensures r.Some? ==>
      var ids := GetCategoryIds(response, idPicks).value;
      && |r.value| == |ids|
      && (forall i :: 0 <= i < |ids| ==> r.value[i] == GetCategory(fetch(ids[i]).value, cluePicks[i]))
      && (forall i :: 0 <= i < |ids| ==> r.value[i].title == fetch(ids[i]).value.title)
      && WithinLayout(r.value)
      && AllHidden(r.value)
  {
    match GetCategoryIds(response, idPicks)
    case None => None
    case Some(ids) => FetchAll(ids, fetch, cluePicks)
  }
}
