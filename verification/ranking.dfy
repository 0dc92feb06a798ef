/** The recommendation endpoint (api.py, get_recommendations): score every
    other movie against the query movie, sort by score, highest first, with
    a stable sort, and return the first `topN` entries.

    The embedding vectors have an abstract type `V` and the cosine
    similarity is the parameter `sim`; the ranking does not depend on how a
    score is computed, only on scores being totally ordered. */
module Ranking {
  import opened Catalog

  /** One recommendation: `{"id": ..., "title": ..., "score": ...}`. */
  datatype Entry = Entry(id: nat, title: string, score: real)

  /** The response body: the query movie's title and the recommendations. */
  datatype Recommendations = Recommendations(queryMovie: string, items: seq<Entry>)

  /** 404 (the id is not a catalog row) and 500 (any exception raised while
      scoring, here an index outside the embedding matrix or the catalog). */
  datatype Error = NotFound | InternalError

  datatype Result<T> = Ok(value: T) | Err(error: Error)

  /** Where the slice `s[:n]` ends on a list of length `len`: at `n`, or at
      the end when `n` is larger; a negative `n` counts from the end, so
      `s[:-2]` drops the last two entries. */
  function SliceEnd(n: int, len: nat): (e: nat)
    ensures e <= len
    ensures n >= len ==> e == len
  {
    if n >= len then len
    else if n >= 0 then n
    else if len + n >= 0 then len + n
    else 0
  }

  // ---------------------------------------------------------------------
  // Orderings

  /** Scores never increase along `s`. */
  ghost predicate ScoresNonIncreasing(s: seq<Entry>) {
    forall i, j :: 0 <= i < j < |s| ==> s[i].score >= s[j].score
  }

  /** `a` comes before `b` in the ranking: higher score, or equal score and
      smaller id. */
  ghost predicate Precedes(a: Entry, b: Entry) {
    a.score > b.score || (a.score == b.score && a.id < b.id)
  }

  /** Every earlier entry precedes every later one. */
  ghost predicate Ranked(s: seq<Entry>) {
    forall i, j :: 0 <= i < j < |s| ==> Precedes(s[i], s[j])
  }

  /** Ids strictly increase along `s`. */
  ghost predicate IdsIncreasing(s: seq<Entry>) {
    forall i, j :: 0 <= i < j < |s| ==> s[i].id < s[j].id
  }

  // ---------------------------------------------------------------------
  // Stable descending sort

  /** Inserts `x` into `s` after every entry with a higher score and before
      the first one whose score is not higher, so that `x` stays ahead of
      the entries of equal score that followed it in the input. */
  function InsertDesc(x: Entry, s: seq<Entry>): (r: seq<Entry>)
    ensures multiset(r) == multiset(s) + multiset{x}
  {
    if s == [] || s[0].score <= x.score then [x] + s
    else
      assert s == [s[0]] + s[1..];
      [s[0]] + InsertDesc(x, s[1..])
  }

  /** Every entry of the insertion is `x` or an entry of `s`. */
  lemma {:induction false} InsertDescMembers(x: Entry, s: seq<Entry>)
    ensures forall e :: e in InsertDesc(x, s) ==> e == x || e in s
  {
    var r := InsertDesc(x, s);
    forall e | e in r ensures e == x || e in s {
      assert e in multiset(r);
    }
  }

  /** Inserting into a list whose scores never increase keeps that so. */
  lemma {:induction false} InsertDescSorted(x: Entry, s: seq<Entry>)
    requires ScoresNonIncreasing(s)
    ensures ScoresNonIncreasing(InsertDesc(x, s))
  {
    var r := InsertDesc(x, s);
    if s == [] || s[0].score <= x.score {
      assert r == [x] + s;
      forall i, j | 0 <= i < j < |r| ensures r[i].score >= r[j].score {
        assert r[j] == s[j - 1];
        if i > 0 {
          assert r[i] == s[i - 1];
        } else if j > 1 {
          assert s[0].score >= s[j - 1].score;
        }
      }
    } else {
      var tail := s[1..];
      var t := InsertDesc(x, tail);
      assert r == [s[0]] + t;
      InsertDescSorted(x, tail);
      InsertDescMembers(x, tail);
      forall i, j | 0 <= i < j < |r| ensures r[i].score >= r[j].score {
        assert r[j] == t[j - 1];
        if i > 0 {
          assert r[i] == t[i - 1];
        } else if r[j] != x {
          assert t[j - 1] in t;
          var m :| 0 <= m < |tail| && tail[m] == r[j];
          assert r[j] == s[m + 1];
        }
      }
    }
  }

  /** `sorted(s, key=score, reverse=True)`: a stable sort, highest score
      first. */
  function SortDesc(s: seq<Entry>): (r: seq<Entry>)
    ensures multiset(r) == multiset(s)
    ensures |r| == |s|
  {
    if s == [] then []
    else
      assert s == [s[0]] + s[1..];
      var r := InsertDesc(s[0], SortDesc(s[1..]));
      assert |r| == |multiset(r)|;
      r
  }

  /** The sort's output has scores that never increase. */
  lemma {:induction false} SortDescSorted(s: seq<Entry>)
    ensures ScoresNonIncreasing(SortDesc(s))
  {
    if s != [] {
      SortDescSorted(s[1..]);
      InsertDescSorted(s[0], SortDesc(s[1..]));
    }
  }

  /** Every entry of the sorted list comes from the input and every input
      entry is in the sorted list. */
  lemma {:induction false} SortDescMembers(s: seq<Entry>)
    ensures forall e :: e in SortDesc(s) <==> e in s
  {
    var r := SortDesc(s);
    forall e ensures e in r <==> e in s {
      assert e in r <==> e in multiset(r);
      assert e in s <==> e in multiset(s);
    }
  }

  /** Inserting an entry whose id is below every id of a ranked list keeps
      it ranked. */
  lemma {:induction false} InsertDescRanked(x: Entry, s: seq<Entry>)
    requires Ranked(s)
    requires forall e :: e in s ==> x.id < e.id
    ensures Ranked(InsertDesc(x, s))
  {
    var r := InsertDesc(x, s);
    if s == [] || s[0].score <= x.score {
      assert r == [x] + s;
      forall i, j | 0 <= i < j < |r| ensures Precedes(r[i], r[j]) {
        assert r[j] == s[j - 1];
        if i > 0 {
          assert r[i] == s[i - 1];
        } else if j > 1 {
          assert Precedes(s[0], s[j - 1]);
        }
      }
    } else {
      var tail := s[1..];
      var t := InsertDesc(x, tail);
      assert r == [s[0]] + t;
      forall e | e in tail ensures x.id < e.id {
        assert e in s;
      }
      InsertDescRanked(x, tail);
      InsertDescMembers(x, tail);
      forall i, j | 0 <= i < j < |r| ensures Precedes(r[i], r[j]) {
        assert r[j] == t[j - 1];
        if i > 0 {
          assert r[i] == t[i - 1];
        } else if r[j] != x {
          assert t[j - 1] in t;
          var m :| 0 <= m < |tail| && tail[m] == r[j];
          assert r[j] == s[m + 1];
        }
      }
    }
  }

  /** Sorting a list whose ids increase yields a ranked list: scores go down
      and equal scores keep ascending ids, because the sort is stable. */
  lemma {:induction false} SortDescRanked(s: seq<Entry>)
    requires IdsIncreasing(s)
    ensures Ranked(SortDesc(s))
  {
    if s != [] {
      var tail := s[1..];
      var t := SortDesc(tail);
      SortDescRanked(tail);
      SortDescMembers(tail);
      forall e | e in t ensures s[0].id < e.id {
        var m :| 0 <= m < |tail| && tail[m] == e;
        assert e == s[m + 1];
      }
      InsertDescRanked(s[0], t);
    }
  }

  // ---------------------------------------------------------------------
  // The scan

  /** The triple collected for row `j` when `q` is the query row. */
  function Candidate<V>(movies: seq<Movie>, emb: seq<V>, q: nat, sim: (V, V) -> real, j: nat): Entry
    requires q < |emb| && j < |emb| && j < |movies|
  {
    Entry(j, movies[j].title, sim(emb[q], emb[j]))
  }

  /** The `similarities` list after the scan has visited rows 0 .. k-1:
      one candidate per visited row other than the query row. */
  function Scan<V>(movies: seq<Movie>, emb: seq<V>, q: nat, sim: (V, V) -> real, k: nat): (s: seq<Entry>)
    requires q < |emb| && k <= |emb| && k <= |movies|
    ensures |s| == (if q < k then k - 1 else k)
  {
    if k == 0 then []
    else
      Scan(movies, emb, q, sim, k - 1) +
        (if k - 1 != q then [Candidate(movies, emb, q, sim, k - 1)] else [])
  }

  /** The scan holds only candidates of visited rows other than the query
      row. */
  lemma {:induction false} ScanMembers<V>(movies: seq<Movie>, emb: seq<V>, q: nat, sim: (V, V) -> real, k: nat)
    requires q < |emb| && k <= |emb| && k <= |movies|
    ensures forall e :: e in Scan(movies, emb, q, sim, k) ==>
      e.id < k && e.id != q && e == Candidate(movies, emb, q, sim, e.id)
  {
    if k > 0 {
      var prev := Scan(movies, emb, q, sim, k - 1);
      var s := Scan(movies, emb, q, sim, k);
      ScanMembers(movies, emb, q, sim, k - 1);
      if k - 1 != q {
        var c := Candidate(movies, emb, q, sim, k - 1);
        assert s == prev + [c];
        forall e | e in s ensures e.id < k && e.id != q && e == Candidate(movies, emb, q, sim, e.id) {
          assert e in prev || e == c;
        }
      } else {
        assert s == prev;
      }
    }
  }

  /** The scan lists rows in ascending id order. */
  lemma {:induction false} ScanIdsIncreasing<V>(movies: seq<Movie>, emb: seq<V>, q: nat, sim: (V, V) -> real, k: nat)
    requires q < |emb| && k <= |emb| && k <= |movies|
    ensures IdsIncreasing(Scan(movies, emb, q, sim, k))
  {
    if k > 0 && k - 1 != q {
      var prev := Scan(movies, emb, q, sim, k - 1);
      var s := Scan(movies, emb, q, sim, k);
      ScanIdsIncreasing(movies, emb, q, sim, k - 1);
      ScanMembers(movies, emb, q, sim, k - 1);
      assert s == prev + [Candidate(movies, emb, q, sim, k - 1)];
      forall i, j | 0 <= i < j < |s| ensures s[i].id < s[j].id {
        assert s[i] == prev[i] && prev[i] in prev;
        if j < |prev| {
          assert s[j] == prev[j];
        }
      }
    } else if k > 0 {
      ScanIdsIncreasing(movies, emb, q, sim, k - 1);
    }
  }

  /** The scan misses no visited row other than the query row. */
  lemma {:induction false} ScanComplete<V>(movies: seq<Movie>, emb: seq<V>, q: nat, sim: (V, V) -> real, k: nat)
    requires q < |emb| && k <= |emb| && k <= |movies|
    ensures forall j :: 0 <= j < k && j != q ==> Candidate(movies, emb, q, sim, j) in Scan(movies, emb, q, sim, k)
  {
    if k > 0 {
      var prev := Scan(movies, emb, q, sim, k - 1);
      var s := Scan(movies, emb, q, sim, k);
      ScanComplete(movies, emb, q, sim, k - 1);
      forall j | 0 <= j < k && j != q ensures Candidate(movies, emb, q, sim, j) in s {
        if k - 1 != q {
          assert s == prev + [Candidate(movies, emb, q, sim, k - 1)];
        } else {
          assert s == prev;
        }
      }
    }
  }

  /** The full ranking for query row `q`: the scan, sorted. */
  function Ranking<V>(movies: seq<Movie>, emb: seq<V>, q: nat, sim: (V, V) -> real): (r: seq<Entry>)
    requires q < |emb| <= |movies|
    ensures |r| == |emb| - 1
  {
    SortDesc(Scan(movies, emb, q, sim, |emb|))
  }

  /** Scores go down along the ranking and equal scores are listed in
      ascending id order. */
  lemma RankingRanked<V>(movies: seq<Movie>, emb: seq<V>, q: nat, sim: (V, V) -> real)
    requires q < |emb| <= |movies|
    ensures Ranked(Ranking(movies, emb, q, sim))
  {
    ScanIdsIncreasing(movies, emb, q, sim, |emb|);
    SortDescRanked(Scan(movies, emb, q, sim, |emb|));
  }

  /** The ranking lists exactly the candidates of the rows other than `q`. */
  lemma RankingMembers<V>(movies: seq<Movie>, emb: seq<V>, q: nat, sim: (V, V) -> real)
    requires q < |emb| <= |movies|
    ensures forall e :: e in Ranking(movies, emb, q, sim) ==>
      e.id < |emb| && e.id != q && e == Candidate(movies, emb, q, sim, e.id)
    ensures forall j :: 0 <= j < |emb| && j != q ==> Candidate(movies, emb, q, sim, j) in Ranking(movies, emb, q, sim)
  {
    ScanMembers(movies, emb, q, sim, |emb|);
    ScanComplete(movies, emb, q, sim, |emb|);
    SortDescMembers(Scan(movies, emb, q, sim, |emb|));
  }

  /** The ranking holds one entry for every row other than `q`, each with its
      own title and score, with scores going down and ties in ascending id
      order; no id occurs twice. */
  lemma RankingFacts<V>(movies: seq<Movie>, emb: seq<V>, q: nat, sim: (V, V) -> real)
    requires q < |emb| <= |movies|
    ensures var r := Ranking(movies, emb, q, sim);
      && |r| == |emb| - 1
      && Ranked(r)
      && (forall e :: e in r ==> e.id < |emb| && e.id != q && e == Candidate(movies, emb, q, sim, e.id))
      && (forall j :: 0 <= j < |emb| && j != q ==> Candidate(movies, emb, q, sim, j) in r)
      && (forall a, b :: 0 <= a < b < |r| ==> r[a].id != r[b].id)
  {
    var r := Ranking(movies, emb, q, sim);
    RankingRanked(movies, emb, q, sim);
    RankingMembers(movies, emb, q, sim);
    forall a, b | 0 <= a < b < |r| ensures r[a].id != r[b].id {
      assert r[a] in r && r[b] in r;
      assert Precedes(r[a], r[b]);
    }
  }

  /** In a ranked list, every entry of a prefix precedes every entry that is
      not in that prefix. */
  lemma {:induction false} RankedPrefixFirst(r: seq<Entry>, n: nat)
    requires Ranked(r) && n <= |r|
    ensures forall e, c :: e in r[..n] && c in r && c !in r[..n] ==> Precedes(e, c)
  {
  }

  /** Nothing left out of the first `n` entries beats an entry kept:
      every candidate outside the prefix has a lower score than each kept
      entry, or an equal score and a larger id. */
  lemma TopNAreMostSimilar<V>(movies: seq<Movie>, emb: seq<V>, q: nat, sim: (V, V) -> real, n: int)
    requires q < |emb| <= |movies|
    ensures var top := Ranking(movies, emb, q, sim)[..SliceEnd(n, |emb| - 1)];
      forall j :: 0 <= j < |emb| && j != q && Candidate(movies, emb, q, sim, j) !in top ==>
        forall e :: e in top ==> Precedes(e, Candidate(movies, emb, q, sim, j))
  {
    RankingRanked(movies, emb, q, sim);
    RankingMembers(movies, emb, q, sim);
    RankedPrefixFirst(Ranking(movies, emb, q, sim), SliceEnd(n, |emb| - 1));
  }

  /** The first `n` entries of the ranking (all but the last `-n` when `n`
      is negative): still ranked, each a distinct row other than `q` with
      its own title and score, and every other row once `n` reaches
      `|emb| - 1`. */
  lemma {:induction false} TopNFacts<V>(movies: seq<Movie>, emb: seq<V>, q: nat, sim: (V, V) -> real, n: int)
    requires q < |emb| <= |movies|
    ensures var items := Ranking(movies, emb, q, sim)[..SliceEnd(n, |emb| - 1)];
      && (0 <= n <= |emb| - 1 ==> |items| == n)
      && (n >= |emb| - 1 ==> |items| == |emb| - 1)
      && (n < 0 ==> |items| == if |emb| - 1 + n >= 0 then |emb| - 1 + n else 0)
      && Ranked(items)
      && (forall k :: 0 <= k < |items| ==>
            items[k].id < |emb| && items[k].id != q && items[k] == Candidate(movies, emb, q, sim, items[k].id))
      && (forall a, b :: 0 <= a < b < |items| ==> items[a].id != items[b].id)
      && (n >= |emb| - 1 ==> forall j :: 0 <= j < |emb| && j != q ==> Candidate(movies, emb, q, sim, j) in items)
  {
    var r := Ranking(movies, emb, q, sim);
    RankingFacts(movies, emb, q, sim);
    var items := r[..SliceEnd(n, |emb| - 1)];
    forall k | 0 <= k < |items|
      ensures items[k].id < |emb| && items[k].id != q && items[k] == Candidate(movies, emb, q, sim, items[k].id)
    {
      assert items[k] == r[k] && r[k] in r;
    }
    if n >= |emb| - 1 {
      assert items == r;
    }
  }

  // ---------------------------------------------------------------------
  // The endpoint

  /** The scoring loop of `get_recommendations`: one (id, title, score)
      triple per embedding row other than `q`, in row order; reading a
      catalog row past the end raises, which the endpoint reports as 500. */
  method ScoreOthers<V>(movies: seq<Movie>, emb: seq<V>, q: nat, sim: (V, V) -> real)
    returns (r: Result<seq<Entry>>)
    requires q < |emb| && q < |movies|
    ensures r.Err? <==> |emb| > |movies|
    ensures r.Err? ==> r.error == InternalError
    ensures r.Ok? ==> |emb| <= |movies| && r.value == Scan(movies, emb, q, sim, |emb|)
  {
    var similarities: seq<Entry> := [];
    var i := 0;
    while i < |emb|
      invariant 0 <= i <= |emb| && i <= |movies|
      invariant similarities == Scan(movies, emb, q, sim, i)
    {
      if i != q {
        if i >= |movies| {
          return Err(InternalError);
        }
        similarities := similarities + [Entry(i, movies[i].title, sim(emb[q], emb[i]))];
      }
      i := i + 1;
    }
    return Ok(similarities);
  }

  /** `get_recommendations(movie_id, top_n)` over the catalog `movies` and
      the embedding rows `emb`; `top_n` defaults to 5. */
  method GetRecommendations<V>(movies: seq<Movie>, emb: seq<V>, movieId: int, sim: (V, V) -> real, topN: int := 5)
    returns (r: Result<Recommendations>)
    ensures r == Err(NotFound) <==> !(0 <= movieId < |movies|)
    ensures r == Err(InternalError) <==> 0 <= movieId < |movies| && (movieId >= |emb| || |emb| > |movies|)
    ensures r.Ok? ==>
      && 0 <= movieId < |emb| <= |movies|
      && r.value.queryMovie == movies[movieId].title
      && r.value.items == Ranking(movies, emb, movieId, sim)[..SliceEnd(topN, |emb| - 1)]
  {
    if !(0 <= movieId < |movies|) {
      return Err(NotFound);
    }
    if movieId >= |emb| {
      return Err(InternalError);
    }
    var q: nat := movieId;
    var queryTitle := movies[q].title;

    var scored := ScoreOthers(movies, emb, q, sim);
    if scored.Err? {
      return Err(InternalError);
    }
    var similarities := SortDesc(scored.value);
    assert similarities == Ranking(movies, emb, q, sim);
    assert |similarities| == |emb| - 1;

    var top := similarities[..SliceEnd(topN, |similarities|)];
    var recommendations: seq<Entry> := [];
    var k := 0;
    while k < |top|
      invariant 0 <= k <= |top|
      invariant |recommendations| == k
      invariant forall j :: 0 <= j < k ==> recommendations[j] == top[j]
    {
      var e := top[k];
      recommendations := recommendations + [Entry(e.id, e.title, e.score)];
      k := k + 1;
    }
    assert recommendations == top;
    assert top == Ranking(movies, emb, movieId, sim)[..SliceEnd(topN, |emb| - 1)];
    return Ok(Recommendations(queryTitle, recommendations));
  }
}
