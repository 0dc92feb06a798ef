/** The offline preparation of the catalog (preprocessing.py): drop the
    movies without an overview, turn each decoded `genres` list into a
    space-joined genre text, build the text that is embedded, and keep the
    (title, genre_text) table that the API later loads. */
module Preprocessing {
  import opened Selection

  datatype Option<T> = None | Some(value: T)

  /** One element of a decoded `genres` list: its `name` entry, or `None` when
      the element has no string under `name` (a missing key, another type, or
      an element that is not an object). */
  datatype GenreItem = GenreItem(name: Option<string>)

  /** A row of the source table, restricted to the three columns kept.
      `genres` is the outcome of decoding the JSON text of the column:
      `None` when decoding fails or yields something other than a list. */
  datatype RawMovie = RawMovie(title: string, overview: Option<string>, genres: Option<seq<GenreItem>>)

  /** A row once `overview` is known to be present and renamed `description`. */
  datatype Film = Film(title: string, description: string, genres: Option<seq<GenreItem>>)

  /** A row of the table handed to the API. */
  datatype ApiRow = ApiRow(title: string, genreText: string)

  /** What the preparation produces: the API table and, row by row, the
      text whose embedding becomes that row's vector. */
  datatype Prepared = Prepared(table: seq<ApiRow>, features: seq<string>)

  // ---------------------------------------------------------------------
  // Genre text

  /** `" ".join(names)`. */
  function Join(names: seq<string>): string {
    if |names| == 0 then ""
    else if |names| == 1 then names[0]
    else names[0] + " " + Join(names[1..])
  }

  /** Total number of characters in `names`. */
  function TotalLength(names: seq<string>): nat {
    if names == [] then 0 else |names[0]| + TotalLength(names[1..])
  }

  /** Where the `k`-th name starts in the joined text: every earlier name
      followed by one separator. */
  function Offset(names: seq<string>, k: nat): nat
    requires k <= |names|
  {
    if k == 0 then 0 else |names[0]| + 1 + Offset(names[1..], k - 1)
  }

  lemma {:induction false} JoinLength(names: seq<string>)
    requires names != []
    ensures |Join(names)| == TotalLength(names) + |names| - 1
  {
    if |names| > 1 {
      JoinLength(names[1..]);
    }
  }

  /** Name `k` sits at `Offset(names, k)` in the joined text. */
  lemma {:induction false} JoinSegment(names: seq<string>, k: nat)
    requires k < |names|
    ensures Offset(names, k) + |names[k]| <= |Join(names)|
    ensures Join(names)[Offset(names, k)..Offset(names, k) + |names[k]|] == names[k]
  {
    var r := Join(names);
    if |names| > 1 {
      var tail := names[1..];
      var w := |names[0]| + 1;
      assert r == names[0] + " " + Join(tail);
      if k > 0 {
        JoinSegment(tail, k - 1);
        assert r[w..] == Join(tail);
        assert names[k] == tail[k - 1];
      }
    }
  }

  /** A single space follows every name but the last. */
  lemma {:induction false} JoinSeparator(names: seq<string>, k: nat)
    requires k + 1 < |names|
    ensures Offset(names, k) + |names[k]| < |Join(names)|
    ensures Join(names)[Offset(names, k) + |names[k]|] == ' '
  {
    var r := Join(names);
    var tail := names[1..];
    var w := |names[0]| + 1;
    assert r == names[0] + " " + Join(tail);
    if k > 0 {
      JoinSeparator(tail, k - 1);
      assert r[w..] == Join(tail);
      assert names[k] == tail[k - 1];
    }
  }

  /** The joined text is the names in list order with exactly one space
      between consecutive names and nothing else. */
  lemma {:induction false} JoinLayout(names: seq<string>)
    requires names != []
    ensures |Join(names)| == TotalLength(names) + |names| - 1
    ensures forall k :: 0 <= k < |names| ==>
      Offset(names, k) + |names[k]| <= |Join(names)| &&
      Join(names)[Offset(names, k)..Offset(names, k) + |names[k]|] == names[k]
    ensures forall k :: 0 <= k < |names| - 1 ==>
      Offset(names, k) + |names[k]| < |Join(names)| &&
      Join(names)[Offset(names, k) + |names[k]|] == ' '
  {
    JoinLength(names);
    forall k | 0 <= k < |names|
      ensures Offset(names, k) + |names[k]| <= |Join(names)|
      ensures Join(names)[Offset(names, k)..Offset(names, k) + |names[k]|] == names[k]
    {
      JoinSegment(names, k);
    }
    forall k | 0 <= k < |names| - 1
      ensures Offset(names, k) + |names[k]| < |Join(names)|
      ensures Join(names)[Offset(names, k) + |names[k]|] == ' '
    {
      JoinSeparator(names, k);
    }
  }

  /** Every element of the list carries a name. */
  predicate AllNamed(items: seq<GenreItem>) {
    forall i :: 0 <= i < |items| ==> items[i].name.Some?
  }

  /** `[item['name'] for item in genres_list]`. */
  function Names(items: seq<GenreItem>): (names: seq<string>)
    requires AllNamed(items)
  {
    seq(|items|, i requires 0 <= i < |items| => items[i].name.value)
  }

  /** `get_genre_names`: the names joined by spaces; the empty text for an
      empty list, and also whenever decoding failed or an element had no
      name, since the bare `except` turns every such failure into "". */
  function GetGenreNames(parsed: Option<seq<GenreItem>>): (r: string)
    ensures parsed.None? ==> r == ""
    ensures parsed == Some([]) ==> r == ""
    ensures parsed.Some? && !AllNamed(parsed.value) ==> r == ""
  {
    match parsed
    case None => ""
    case Some(items) =>
      if items == [] then ""
      else if AllNamed(items) then Join(Names(items))
      else ""
  }

  /** On a decoded list whose elements all carry a name, the genre text holds
      those names in list order, separated by single spaces. */
  lemma {:induction false} GenreTextLayout(items: seq<GenreItem>)
    requires items != [] && AllNamed(items)
    ensures var r, names := GetGenreNames(Some(items)), Names(items);
      && |r| == TotalLength(names) + |items| - 1
      && (forall k :: 0 <= k < |items| ==>
            Offset(names, k) + |names[k]| <= |r| &&
            r[Offset(names, k)..Offset(names, k) + |names[k]|] == items[k].name.value)
      && (forall k :: 0 <= k < |items| - 1 ==>
            Offset(names, k) + |names[k]| < |r| && r[Offset(names, k) + |names[k]|] == ' ')
  {
    JoinLayout(Names(items));
  }

  // ---------------------------------------------------------------------
  // Row filter

  predicate HasOverview(m: RawMovie) {
    m.overview.Some?
  }

  /** The row with `overview` renamed `description`. */
  function ToFilm(m: RawMovie): Film
    requires HasOverview(m)
  {
    Film(m.title, m.overview.value, m.genres)
  }

  /** `dropna(subset=["overview"]).reset_index(drop=True)`: the rows with an
      overview, in their original order, numbered again from 0. */
  function DropMissingOverview(raw: seq<RawMovie>): (films: seq<Film>)
    ensures |films| <= |raw|
    decreases |raw|
  {
    if raw == [] then []
    else
      var last := |raw| - 1;
      DropMissingOverview(raw[..last]) + (if HasOverview(raw[last]) then [ToFilm(raw[last])] else [])
  }

  /** Row `k` after the filter is the `k`-th raw row that has an overview:
      relative order is kept, nothing else is dropped, and the new numbering
      is contiguous from 0. */
  lemma {:induction false} DropMissingOverviewKeepsOrder(raw: seq<RawMovie>)
    ensures var films, kept := DropMissingOverview(raw), Positions(raw, HasOverview);
      && |films| == |kept|
      && forall k :: 0 <= k < |films| ==> films[k] == ToFilm(raw[kept[k]])
    decreases |raw|
  {
    if raw != [] {
      var last := |raw| - 1;
      var init := raw[..last];
      DropMissingOverviewKeepsOrder(init);
      var films0, kept0 := DropMissingOverview(init), Positions(init, HasOverview);
      var films, kept := DropMissingOverview(raw), Positions(raw, HasOverview);
      if HasOverview(raw[last]) {
        assert films == films0 + [ToFilm(raw[last])];
        assert kept == kept0 + [last];
      } else {
        assert films == films0;
        assert kept == kept0;
      }
      forall k | 0 <= k < |films0| ensures films[k] == ToFilm(raw[kept[k]]) {
        assert films[k] == films0[k] && kept[k] == kept0[k];
        assert init[kept0[k]] == raw[kept0[k]];
      }
    }
  }

  // ---------------------------------------------------------------------
  // Embedded text

  /** `s * n` on strings. */
  function Repeat(s: string, n: nat): string {
    if n == 0 then "" else s + Repeat(s, n - 1)
  }

  /** The `combined_features` text: the description followed by three
      copies of a space and the genre text. */
  function CombinedFeatures(description: string, genreText: string): (r: string)
    ensures |r| == |description| + 3 * (1 + |genreText|)
    ensures r[..|description|] == description
    ensures var d, w := |description|, 1 + |genreText|;
      && r[d..d + w] == " " + genreText
      && r[d + w..d + 2 * w] == " " + genreText
      && r[d + 2 * w..] == " " + genreText
  {
    var unit := " " + genreText;
    assert Repeat(unit, 1) == unit;
    assert Repeat(unit, 3) == unit + unit + unit;
    var r := description + Repeat(unit, 3);
    assert r == description + unit + unit + unit;
    r
  }

  // ---------------------------------------------------------------------
  // The whole preparation

  /** Filter the rows, derive the genre text, and project: the API table and
      the embedded texts have one entry per raw row with an overview, in the
      original order. */
  function Preprocess(raw: seq<RawMovie>): (p: Prepared)
    ensures var kept := Positions(raw, HasOverview);
      && |p.table| == |p.features| == |kept|
      && forall k :: 0 <= k < |kept| ==>
           var m := raw[kept[k]];
           && p.table[k] == ApiRow(m.title, GetGenreNames(m.genres))
           && p.features[k] == CombinedFeatures(m.overview.value, GetGenreNames(m.genres))
  {
    DropMissingOverviewKeepsOrder(raw);
    var films := DropMissingOverview(raw);
    var genreText := seq(|films|, k requires 0 <= k < |films| => GetGenreNames(films[k].genres));
    Prepared(
      seq(|films|, k requires 0 <= k < |films| => ApiRow(films[k].title, genreText[k])),
      seq(|films|, k requires 0 <= k < |films| => CombinedFeatures(films[k].description, genreText[k])))
  }
}
