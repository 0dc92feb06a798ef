/** The catalog as the API holds it (api.py): the prepared table with a
    `search_title` column added, and the title search over that column. */
module Catalog {
  import opened TextClean
  import opened Selection
  import Preprocessing

  /** A catalog row; its id is its position in the catalog. */
  datatype Movie = Movie(title: string, genreText: string, searchTitle: string)

  /** One search result: `{"id": ..., "title": ...}`. */
  datatype Hit = Hit(id: nat, title: string)

  /** Every row's `searchTitle` is the cleaned form of its title. */
  ghost predicate WellFormed(catalog: seq<Movie>) {
    forall i :: 0 <= i < |catalog| ==> catalog[i].searchTitle == CleanText(catalog[i].title)
  }

  /** The table read back at start-up, with `search_title` derived from
      `title`; rows keep their order, so ids are 0, 1, ... as written. */
  function LoadCatalog(rows: seq<Preprocessing.ApiRow>): (catalog: seq<Movie>)
    ensures |catalog| == |rows|
    ensures WellFormed(catalog)
    ensures forall i :: 0 <= i < |rows| ==>
      catalog[i].title == rows[i].title && catalog[i].genreText == rows[i].genreText
  {
    seq(|rows|, i requires 0 <= i < |rows| =>
      Movie(rows[i].title, rows[i].genreText, CleanText(rows[i].title)))
  }

  // ---------------------------------------------------------------------
  // Literal substring test

  /** `needle` occurs in `hay` as a contiguous block starting at `i`. */
  ghost predicate OccursAt(needle: string, hay: string, i: int) {
    0 <= i && i + |needle| <= |hay| && hay[i..i + |needle|] == needle
  }

  /** `needle` occurs in `hay` as a contiguous block. */
  ghost predicate Occurs(needle: string, hay: string) {
    exists i :: OccursAt(needle, hay, i)
  }

  /** Dropping the first character of `hay` loses no occurrence other than
      one at position 0. */
  lemma OccursStep(hay: string, needle: string)
    requires |needle| <= |hay| && !(needle <= hay)
    ensures Occurs(needle, hay) <==> Occurs(needle, hay[1..])
  {
    assert hay[..|needle|] != needle;
    if Occurs(needle, hay) {
      var i :| OccursAt(needle, hay, i);
      assert hay[1..][i - 1..i - 1 + |needle|] == needle;
      assert OccursAt(needle, hay[1..], i - 1);
    }
    if Occurs(needle, hay[1..]) {
      var i :| OccursAt(needle, hay[1..], i);
      assert hay[i + 1..i + 1 + |needle|] == needle;
      assert OccursAt(needle, hay, i + 1);
    }
  }

  /** The substring test the filter applies to each `search_title`. */
  function Contains(hay: string, needle: string): (b: bool)
    ensures b <==> Occurs(needle, hay)
    decreases |hay|
  {
    if |needle| > |hay| then false
    else if needle <= hay then
      assert OccursAt(needle, hay, 0);
      true
    else
      OccursStep(hay, needle);
      Contains(hay[1..], needle)
  }

  // ---------------------------------------------------------------------
  // Search

  /** The ids of the rows whose `searchTitle` contains `key`, ascending:
      the boolean mask of the filter, read as row labels. */
  function MatchingIds(catalog: seq<Movie>, key: string): (ids: seq<nat>)
    ensures forall k :: 0 <= k < |ids| ==> ids[k] < |catalog| && Occurs(key, catalog[ids[k]].searchTitle)
    ensures forall i :: 0 <= i < |catalog| && Occurs(key, catalog[i].searchTitle) ==> i in ids
    ensures forall a, b :: 0 <= a < b < |ids| ==> ids[a] < ids[b]
  {
    Positions(catalog, (m: Movie) => Contains(m.searchTitle, key))
  }

  /** `search_movies`: every row whose `searchTitle` contains the cleaned
      query, in catalog order, as (id, title); no match gives `[]`.
      The query length bound is enforced before the call. */
  function SearchMovies(catalog: seq<Movie>, query: string): (r: seq<Hit>)
    requires |query| >= 2
    ensures forall k :: 0 <= k < |r| ==>
      r[k].id < |catalog| && r[k].title == catalog[r[k].id].title &&
      Occurs(CleanText(query), catalog[r[k].id].searchTitle)
    ensures forall a, b :: 0 <= a < b < |r| ==> r[a].id < r[b].id
  {
    var ids := MatchingIds(catalog, CleanText(query));
    seq(|ids|, k requires 0 <= k < |ids| => Hit(ids[k], catalog[ids[k]].title))
  }

  /** The search misses no row whose `searchTitle` contains the cleaned
      query. */
  lemma SearchComplete(catalog: seq<Movie>, query: string, i: nat)
    requires |query| >= 2
    requires i < |catalog| && Occurs(CleanText(query), catalog[i].searchTitle)
    ensures Hit(i, catalog[i].title) in SearchMovies(catalog, query)
  {
    var ids := MatchingIds(catalog, CleanText(query));
    var r := SearchMovies(catalog, query);
    var k :| 0 <= k < |ids| && ids[k] == i;
    assert r[k] == Hit(i, catalog[i].title);
  }

  /** A query matching no title yields the empty list, not an error. */
  lemma {:induction false} SearchNoMatchIsEmpty(catalog: seq<Movie>, query: string)
    requires |query| >= 2
    requires forall i :: 0 <= i < |catalog| ==> !Occurs(CleanText(query), catalog[i].searchTitle)
    ensures SearchMovies(catalog, query) == []
  {
    var q := CleanText(query);
    PositionsNone(catalog, (m: Movie) => Contains(m.searchTitle, q));
  }

  /** A query made only of hyphens and spaces cleans to "" and returns the
      whole catalog in order. */
  lemma {:induction false} SearchEmptyKeyMatchesAll(catalog: seq<Movie>, query: string)
    requires |query| >= 2 && CleanText(query) == ""
    ensures |SearchMovies(catalog, query)| == |catalog|
    ensures forall i :: 0 <= i < |catalog| ==> SearchMovies(catalog, query)[i] == Hit(i, catalog[i].title)
  {
    var keep := (m: Movie) => Contains(m.searchTitle, "");
    forall i | 0 <= i < |catalog| ensures keep(catalog[i]) {
      assert OccursAt("", catalog[i].searchTitle, 0);
    }
    PositionsAll(catalog, keep);
  }

  /** Searching with a row's own title (of length at least 2) finds that row. */
  lemma {:induction false} SearchFindsOwnTitle(catalog: seq<Movie>, i: nat)
    requires WellFormed(catalog) && i < |catalog| && |catalog[i].title| >= 2
    ensures Hit(i, catalog[i].title) in SearchMovies(catalog, catalog[i].title)
  {
    var key := CleanText(catalog[i].title);
    assert OccursAt(key, catalog[i].searchTitle, 0);
    SearchComplete(catalog, catalog[i].title, i);
  }

  /** Queries that differ only by case, hyphens and spaces return the same
      rows: "SPIDER MAN", "spider-man" and "SpiderMan" all search for the
      key "spiderman". */
  lemma {:induction false} SearchSpiderManForms(catalog: seq<Movie>)
    ensures SearchMovies(catalog, "Spider-Man") == SearchMovies(catalog, "spider man")
    ensures SearchMovies(catalog, "spider man") == SearchMovies(catalog, "SpiderMan")
  {
    SpiderManHyphen();
    SpiderManSpace();
    SpiderManCase();
  }
}
