# Film recommendation backend: a verified model of its query core

The system is a small movie recommendation backend. An offline preparation
step (`preprocessing.py`) reads a movie table and does four things:

- it drops the movies without an overview;
- it turns each movie's JSON `genres` column into a space-separated genre
  text;
- it builds the text that is embedded, the overview followed by three
  copies of the genre text;
- it keeps a (title, genre text) table for the API.

The API (`api.py`) loads that table and the embedding matrix. It answers
two queries:

- **Title search.** Every movie whose normalised title contains the
  normalised query. Normalising means lower-casing, then deleting hyphens
  and spaces.
- **Recommendations.** Every other movie scored against the chosen one,
  sorted by score with the highest first, cut to the first `top_n`
  entries.

The model has five modules:

- `TextClean` (`text_clean.dfy`): `clean_text`. It is lower-casing
  followed by two deletions. The lemmas cover idempotence, insensitivity
  to case, hyphens and spaces, and distribution over concatenation.
- `Selection` (`selection.dfy`): the order-preserving positions of the
  rows a boolean mask keeps. This one shape serves two places: the
  search filter over `search_title` and `dropna` in the preparation.
- `Preprocessing` (`preprocessing.py`'s logic, in `preprocessing.dfy`):
  - `get_genre_names`, over the result of JSON decoding;
  - the overview filter with renumbering;
  - `combined_features`;
  - the projected API table.
- `Catalog` (`catalog.dfy`): the catalog as the API holds it, with the
  derived `search_title` column. It also holds a literal substring test,
  proved equal to a ghost definition of "occurs as a contiguous block",
  and `search_movies`.
- `Ranking` (`ranking.dfy`): `get_recommendations`. It is a method with
  the scoring loop (split out as `ScoreOthers`), the stable descending
  sort, and the copying loop over the `top_n` prefix.
  - The method is proved to return exactly the prefix of a reference
    ranking: `Ranking`, the sorted scan.
  - The lemmas show that this ranking holds every other row exactly once,
    with its own title and score. Scores never increase along it, and
    ties keep ascending id order, because Python's `sorted` is stable and
    the scan visits rows in increasing order.

The embedding vectors have an abstract type `V`. The cosine similarity is
the parameter `sim: (V, V) -> real`; none of the ranking properties depend
on how a score is computed.

These behaviours of the code are kept as they are:

- A negative `top_n` counts from the end, as a Python slice does:
  `top_n = -k` drops the last `k` entries, and gives an empty list only
  once `k` reaches the number of ranked entries.
- `top_n` defaults to 5.
- The minimum query length applies to the raw query, not to the
  normalised one. A query such as `"--"` is accepted and matches every row.
- An empty table is not rejected at load time.
- Zero-norm vectors get no special score.
- More embedding rows than catalog rows, or an id past the last embedding
  row, give an internal error, as the code's `except Exception` does.
  Fewer embedding rows than catalog rows silently shrink the ranking to
  the rows that have an embedding.

## Model

| member | source | states |
|---|---|---|
| TextClean.LowerChar | api.py:9 | an ASCII capital becomes its small letter (code point plus 32), every other character is unchanged, and no result is a capital |
| TextClean.Lower | api.py:9 | `lower()`; what it does to each character is stated by LowerChar, and LowerAppend and CleanTextIgnoresCase state it on texts |
| TextClean.Remove | api.py:9 | `replace(c, '')`; its contract is stated by RemoveFacts, RemoveAbsent and RemoveAppend |
| TextClean.RemoveFacts | api.py:9 | `replace(c, '')` leaves no `c`, never lengthens the text and introduces no character |
| TextClean.RemoveAbsent | api.py:9 | deleting a character that does not occur changes nothing |
| TextClean.RemoveAppend | api.py:9 | deletion distributes over concatenation |
| TextClean.CleanText | api.py:7-9 | the key holds no hyphen, no space and no capital, and is no longer than the input |
| TextClean.CleanTextFixed | api.py:9 | a text with no capital, hyphen or space is its own key |
| TextClean.CleanTextIdempotent | api.py:9 | cleaning a key gives the same key |
| TextClean.CleanTextAppend | api.py:9 | the key of a concatenation is the concatenation of the keys |
| TextClean.CleanSeparator | api.py:9 | a lone hyphen or space cleans to the empty text |
| TextClean.CleanTextIgnoresSeparator | api.py:9 | inserting a hyphen or a space anywhere leaves the key unchanged |
| TextClean.CleanTextIgnoresCase | api.py:9 | texts equal up to letter case have the same key |
| TextClean.SpiderManKey | api.py:9 | "spiderman" is its own key |
| TextClean.SpiderManCase | api.py:9 | "SpiderMan" cleans to "spiderman" |
| TextClean.SpiderManHyphen | api.py:9 | "Spider-Man" cleans to "spiderman" |
| TextClean.SpiderManSpace | api.py:9 | "spider man" cleans to "spiderman" |
| Selection.Positions | api.py:57 | a mask filter keeps exactly the rows it accepts: every kept label is a row the mask accepts, every accepted row is kept, and labels ascend |
| Selection.PositionsAll | api.py:57 | when the mask accepts every row, the labels are 0, 1, ..., n-1 |
| Selection.PositionsNone | api.py:59-61 | when the mask accepts no row, nothing is kept |
| Catalog.LoadCatalog | api.py:27 | one catalog row per table row, in order, with title and genre text kept and `search_title` the cleaned title |
| Catalog.OccursStep | api.py:57 | when the needle is not a prefix, dropping the first character of the text loses no occurrence |
| Catalog.Contains | api.py:57 | the substring test holds iff the needle occurs as a contiguous block of the text |
| Catalog.MatchingIds | api.py:57 | the filtered row labels are exactly the rows whose `search_title` contains the key, ascending |
| Catalog.SearchMovies | api.py:46-67 | every hit is a catalog row with its own title whose `search_title` contains the cleaned query; hits are in ascending id order |
| Catalog.SearchComplete | api.py:54-57 | every row whose `search_title` contains the cleaned query is among the hits |
| Catalog.SearchNoMatchIsEmpty | api.py:59-61 | a query that matches no row gives the empty list, not an error |
| Catalog.SearchEmptyKeyMatchesAll | api.py:57-66 | a query that cleans to the empty text returns every row, in order, as (id, title) |
| Catalog.SearchFindsOwnTitle | api.py:27 | searching for a row's own title finds that row |
| Catalog.SearchSpiderManForms | api.py:54-57 | "Spider-Man", "spider man" and "SpiderMan" return the same hits |
| Preprocessing.Join | preprocessing.py:15 | `" ".join(names)`; its layout is stated by JoinLength, JoinSegment, JoinSeparator and JoinLayout |
| Preprocessing.Names | preprocessing.py:14 | the list of names, one per element in list order; GenreTextLayout states the genre text in terms of it |
| Preprocessing.JoinLength | preprocessing.py:15 | the joined text is the names' total length plus one separator between each pair |
| Preprocessing.JoinSegment | preprocessing.py:15 | name `k` sits in the joined text at the offset of all earlier names plus their separators |
| Preprocessing.JoinSeparator | preprocessing.py:15 | a single space follows every name but the last |
| Preprocessing.JoinLayout | preprocessing.py:15 | the joined text is the names in order with exactly one space between neighbours and nothing else |
| Preprocessing.GetGenreNames | preprocessing.py:10-17 | the empty text when decoding fails, when the list is empty, and when some element has no name |
| Preprocessing.GenreTextLayout | preprocessing.py:14-15 | on a non-empty list whose elements all have names, the genre text is those names in list order separated by single spaces |
| Preprocessing.ToFilm | preprocessing.py:26 | the row with `overview` renamed `description`; DropMissingOverviewKeepsOrder states the filter through it |
| Preprocessing.DropMissingOverview | preprocessing.py:25 | the filter never adds rows |
| Preprocessing.DropMissingOverviewKeepsOrder | preprocessing.py:25-26 | row `k` after the filter is the `k`-th raw row with an overview, with `overview` renamed `description`: order is kept and numbering restarts at 0 |
| Preprocessing.Repeat | preprocessing.py:31 | `s * n` on strings; CombinedFeatures states the layout of its use with `n = 3` |
| Preprocessing.CombinedFeatures | preprocessing.py:31 | the description, then three copies of a space and the genre text; length `|d| + 3 * (1 + |g|)` |
| Preprocessing.Preprocess | preprocessing.py:24-35 | the API table and the embedded texts hold one entry per raw row with an overview, in order, projected to title and genre text |
| Ranking.SliceEnd | api.py:91 | a slice never runs past the list, and an end at or beyond the length takes the whole list |
| Ranking.InsertDesc | api.py:88 | insertion adds exactly the one entry (multiset) |
| Ranking.InsertDescMembers | api.py:88 | insertion introduces no entry other than the inserted one |
| Ranking.InsertDescSorted | api.py:88 | insertion into a list with non-increasing scores keeps the scores non-increasing |
| Ranking.SortDesc | api.py:88 | the sorted list is a permutation of the input |
| Ranking.SortDescSorted | api.py:88 | scores never increase along the sorted list |
| Ranking.SortDescMembers | api.py:88 | the sorted list has the same entries as the input |
| Ranking.InsertDescRanked | api.py:88 | inserting an entry whose id is below every other keeps the list in ranking order |
| Ranking.SortDescRanked | api.py:83-88 | stable sorting of a list built in ascending id order gives score descending, ties by ascending id |
| Ranking.Scan | api.py:82-86 | the scan has one entry per visited row except the query row |
| Ranking.ScanMembers | api.py:83-86 | the scan holds only triples (row, its title, its score) for visited rows other than the query row |
| Ranking.ScanIdsIncreasing | api.py:83-86 | the scan lists rows in ascending id order |
| Ranking.ScanComplete | api.py:83-86 | the scan misses no visited row other than the query row |
| Ranking.Ranking | api.py:82-88 | the full ranking has one entry fewer than there are embedding rows |
| Ranking.RankingRanked | api.py:83-88 | scores never increase along the ranking; equal scores are in ascending id order |
| Ranking.RankingMembers | api.py:83-88 | the ranking holds exactly the triples of the rows other than the query row |
| Ranking.RankingFacts | api.py:83-88 | length, order, members and completeness together, and no id occurs twice |
| Ranking.RankedPrefixFirst | api.py:91 | in a ranked list every entry of a prefix precedes every entry left out |
| Ranking.TopNAreMostSimilar | api.py:88-91 | no row left out of the top `n` beats a kept one: lower score, or equal score and larger id |
| Ranking.TopNFacts | api.py:83-96 | with `m = |emb| - 1` ranked entries, the top-`n` list has `n` entries when `0 <= n <= m`, all `m` when `n >= m`, and `max(0, m + n)` when `n` is negative; it is ranked, has distinct ids none of them the query, carries each row's own title and score, and holds every other row once `n >= m` |
| Ranking.ScoreOthers | api.py:82-86 | the scan loop fails iff there are more embedding rows than catalog rows (reported as internal error), and otherwise yields the reference scan |
| Ranking.GetRecommendations | api.py:70-101 | not-found iff the id is not a catalog row; internal error iff the id is a row but outside the embeddings or the embeddings outnumber the rows; otherwise the query title and exactly the first `top_n` entries (default 5) of the reference ranking |

## Left out

- FastAPI plumbing is not modelled: the app object, the routes, the root
  greeting, `HTTPException` and `uvicorn.run`. The two failure statuses
  appear as the `NotFound` and `InternalError` variants.
- File I/O is left out: reading the table and the matrix at start-up, the
  `exit()` on a missing file, and the writes of the preparation step. The
  table and the matrix are parameters.
- The cosine formula is left out. It is floating-point `numpy` arithmetic,
  and a zero norm yields NaN. The score is an abstract function into the
  reals.
- NaN scores are left out. They would break the sort's ordering and could
  be the source of other exceptions turned into `InternalError`.
- `str.contains` treats its pattern as a regular expression. The model
  uses a literal substring test, which agrees with it only for queries
  without regex metacharacters.
- Lower-casing is restricted to ASCII capitals. Full Unicode `str.lower`
  is not modelled.
- `str(text)` on a missing (NaN) title is left out: titles are strings.
- The `min_length=2` validation happens in the web framework before the
  handler runs. It is a precondition of `SearchMovies`.
- `json.loads` is left out: `GetGenreNames` takes the decoding outcome as
  an `Option` of a list of elements, each with an optional name. The
  model does not check how non-list values and non-string names reach the
  `except`.
- Loading the embedding model, encoding the texts, and timing are a
  foreign model and a clock. They are not modelled.
- The in-place `rename` of `overview` to `description` is not modelled as
  a mutation. The filtered row simply carries the field under its new
  name.
