# Genre analysis service: a verified model of its aggregation logic

The genre analysis service (`service_c.py`) answers four read-only requests
over a movie catalog and a per-user watch history:

- `/genres`: every genre with its number of movies, sorted by name;
- `/genres/popular`: the five most common genres with their share of the catalog;
- `/genres/analysis`: the genre list plus, for each decade of release in ascending order, its three most common genres;
- `/genres/user/<id>`: a ranked breakdown of the genres a user watched, their top three, and up to three catalog genres they have not watched.

This project models what those handlers compute. The catalog and the history
object are parameters. When a data file is missing or is not valid JSON, the
loader returns `{}`: the catalog is then the empty sequence and the history
the empty map. Every outcome the handler reports as an error becomes `Err` of
a `Result`:

- `MoviesUnavailable` is "Could not read movies data".
- `MissingKey(k)` is the KeyError a record without key `k` raises. Its message is `'k'`.

Modules:

- `Counting` models `collections.Counter`: a sequence of (key, count) entries in first-insertion order. `Add` is `c[x] += 1` and `Tally` is `Counter(xs)`.
- `Ranking` models `most_common`: a stable sort by count, descending, so ties keep counter order, which is first-occurrence order.
- `NameOrder` models `sorted(counter.items())`, by code-point order of the names.
- `Decimal` models `str(n)`, and `int(...)` applied to the year before the first `-` of a release date.
- `Catalog` models `list_genres` and `popular_genres`.
- `Decades` models `genre_analysis`. The decade dictionary is filled by an imperative loop (`CountByDecade`), and the reports are emitted by a second loop (`FormatDecades`). The whole handler (`GenreAnalysis`) is proved equal to the specification function `AnalyzeGenres`.
- `Viewer` models `user_genre_analysis`. It is a method, because `list(set)[:3]` may pick any three elements.

Percentages are kept as the exact ratio `100 * count / total`. Inputs are values, so no operation can change the catalog or the history. The decade dictionary and the report list are local variables built from empty.

Behaviour worth knowing:

- An empty catalog is an error.
- A catalog movie without `genre` makes every request an error (KeyError). The exception is `/genres/user/<id>` for a user without history, which answers before it reads the catalog's genres.
- A movie without `release_date` makes `/genres/analysis` an error, since `except (ValueError, IndexError)` does not catch the KeyError. The other requests never read that key. In `/genres/analysis`, only a date whose year part is not an integer is skipped.
- A user without history gets `{user_id, message, genres: [], recommendations: []}`. This is the `NoHistory` answer, which carries the message.

## Model

| member | source | states |
|---|---|---|
| Decimal.Show | service_c.py:166 | `str(n)` of a non-negative integer is a non-empty digit string without a leading zero |
| Decimal.ParseNat | service_c.py:150 | yields a value exactly when the text is a non-empty run of decimal digits |
| Decimal.ShowParses | service_c.py:150 | parsing `str(n)` gives back n |
| Decimal.ShowInjective | service_c.py:205 | distinct user ids give distinct lookup keys `str(user_id)` |
| Decimal.BeforeDash | service_c.py:150 | `split('-')[0]` is a prefix of the date containing no '-', followed by '-' when shorter than the date |
| Decimal.YearOfDate | service_c.py:150 | a date `<year>-<rest>` yields exactly that year |
| Decimal.NonNumericYear | service_c.py:150 | "abcd-01-01", "" and "-1999" yield no year, so those movies are skipped |
| Decimal.Decade | service_c.py:151 | `(year // 10) * 10` is a multiple of 10 with decade <= year < decade + 10 |
| Decimal.LabelReadsBack | service_c.py:166 | the label `f"{decade}s"` ends in 's' and its digits read back as the decade |
| Counting.AddSpec | service_c.py:156 | `c[x] += 1` raises x's count by one and leaves every other count alone, appends x as a new key only when absent, keeps keys distinct and raises the total by one |
| Counting.Tally | service_c.py:79 | the counts of `Counter(xs)` add up to the length of xs |
| Counting.TallyCounts | service_c.py:79 | `Counter(xs)` has each distinct element of xs as a key exactly once, counted by its number of occurrences, in first-occurrence order |
| Counting.CountsSize | service_c.py:79 | a counter of xs has as many keys as xs has distinct elements |
| Ranking.Rank | service_c.py:219 | `most_common()` is a permutation of the counter's items with the same total |
| Ranking.RankOrders | service_c.py:219 | ranking a counter in first-occurrence order sorts by count descending, ties by first occurrence |
| Ranking.RankOfTally | service_c.py:219 | `Counter(xs).most_common()` holds each item of the counter once and is ranked by count with first-occurrence tie-break |
| Ranking.MostCommonSpec | service_c.py:113 | `Counter(xs).most_common(n)` has min(n, distinct elements) items, each an element of xs with its exact count, ranked |
| Ranking.MostCommonOmitted | service_c.py:113 | an element left out of `most_common(n)` never outranks a kept one |
| NameOrder.BelowIrreflexive | service_c.py:84 | string order is irreflexive |
| NameOrder.BelowTransitive | service_c.py:84 | string order is transitive |
| NameOrder.BelowTotal | service_c.py:84 | any two distinct strings are ordered one way or the other |
| NameOrder.SortByName | service_c.py:84 | sorting is a permutation and keeps the total |
| NameOrder.SortByNameSpec | service_c.py:84 | sorting distinct keys yields strictly ascending names, with the same items |
| Catalog.MessageIdentifies | service_c.py:75-96 | the error text determines the error: "Could not read movies data" (empty catalog) and `str(e)` of a KeyError, the quoted key name, that the `except Exception` handler reports each belong to one cause only |
| Catalog.GenreCount | service_c.py:79 | the number of movies of a genre never exceeds the catalog size |
| Catalog.GenresCount | service_c.py:79 | the occurrences of g in the genre column equal the movies of genre g |
| Catalog.SortedTally | service_c.py:84 | the sorted genre items are ascending, hold every genre and nothing else, with exact counts adding up to the catalog size |
| Catalog.ListGenresSpec | service_c.py:75-90 | an empty catalog or a movie without genre is an error; otherwise each catalog genre is listed once, ascending, with its number of movies; counts sum to `total_movies` = catalog size |
| Catalog.PopularSharesCount | service_c.py:113-119 | the top shares are min(5, distinct genres), each with its exact count and its percentage of the total |
| Catalog.PopularSharesRanked | service_c.py:113-119 | the top shares are ordered by count descending, ties by first occurrence |
| Catalog.PopularSharesOmitted | service_c.py:113 | a genre left out of the top five has a smaller count than each listed one, or an equal count and a later first occurrence |
| Catalog.PopularGenresOutcome | service_c.py:105-113 | `popular_genres` fails on an empty catalog and on a movie without genre, and otherwise reports the catalog size |
| Catalog.PopularGenresCounts | service_c.py:110-119 | `popular_genres` lists min(5, distinct genres) genres, each with its exact movie count; percentage = 100·count/catalog size, with a non-zero denominator, in (0, 100] |
| Catalog.PopularGenresRanked | service_c.py:110-119 | `popular_genres` is ranked by count descending, equal counts in order of each genre's first movie |
| Catalog.PopularGenresOmitted | service_c.py:110-119 | no catalog genre left out of `popular_genres` has a larger count than a listed one, nor an equal count with an earlier first movie |
| Decades.DatedCount | service_c.py:148-159 | the movies whose date yields a year are at most the catalog |
| Decades.DecadeTableStep | service_c.py:153-156 | one movie adds its genre to its decade's counter, creating the counter at first use, or changes nothing when its date has no year |
| Decades.CountedOneMore | service_c.py:148-159 | one pass of the decade loop extends the dictionary for movies[..i] to the one for movies[..i+1] |
| Decades.CountByDecade | service_c.py:147-159 | the loop builds exactly the decade dictionary of the catalog, or fails with KeyError `'release_date'` when a movie lacks that key |
| Decades.SortedSeqSpec | service_c.py:163 | `sorted(decades.items())` visits each decade once, strictly ascending |
| Decades.FormatStep | service_c.py:163-172 | emitting the least remaining decade next keeps the reports in ascending decade order |
| Decades.FormatDecades | service_c.py:162-172 | the formatting loop emits one report per decade in ascending order: label, `most_common(3)`, sum of counts |
| Decades.GenreAnalysis | service_c.py:139-186 | the handler equals the specification `AnalyzeGenres`: the error precedence, then the genre list, the decade reports and the catalog size |
| Decades.DecadeBuckets | service_c.py:147-159 | a decade appears exactly when some movie's year falls in it, and its counter is the counter of that decade's movies alone |
| Decades.AnalyzeGenresOutcome | service_c.py:139-183 | empty catalog, then missing genre, then missing release date are errors; otherwise the genre list equals the `/genres` list and `total_movies` is the catalog size |
| Decades.ReportsAt | service_c.py:163-172 | the i-th report is the report of the i-th decade |
| Decades.AnalyzeGenresDecades | service_c.py:162-172 | decades are reported strictly ascending, exactly those holding a movie, labelled `"<d>s"`, with `most_common(3)` of that decade's genres and that decade's movie count |
| Decades.DecadeTopGenres | service_c.py:164-170 | each decade's top genres are min(3, distinct genres there), at least one, with exact counts, ranked by count with first-occurrence tie-break within the decade |
| Decades.BucketsPartition | service_c.py:148-159 | the decade buckets together hold every movie with a year exactly once |
| Decades.ReportTotals | service_c.py:171 | the reported decade totals add up to the sizes of their buckets |
| Decades.DecadeTotalsSum | service_c.py:171 | the decade totals add up to the number of movies with a year, at most the catalog size |
| Decades.DecadePlacement | service_c.py:150-159 | a movie whose date has no integer year still counts for its genre but enters no decade; one with year y enters the decade d with d <= y < d + 10 and leaves every other decade's movies unchanged |
| Decades.DecadeTieExample | service_c.py:153-164 | for Action (1999), Drama (2001), Action (2001) the dictionary is {1990: Action 1, 2000: Drama 1, Action 1}, and `most_common(3)` of the 2000s keeps Drama first, the genre seen first in that decade |
| Viewer.Pick | service_c.py:234 | `list(s)[:3]` gives min(3, \|s\|) distinct elements of s |
| Viewer.UserGenreAnalysis | service_c.py:199-236 | empty catalog is an error; absent or empty history is the no-history answer with its message; otherwise a catalog movie without genre is an error, else the profile has `watched_movies` = history length, the breakdown, the top genres and suggestions picked from the unwatched catalog genres |
| Viewer.TaggedGenresMembers | service_c.py:216 | only records with a genre are counted; a genre is counted exactly when a record carries it, and every record is counted exactly when all carry a genre |
| Viewer.BreakdownCounts | service_c.py:229-232 | one breakdown item per watched genre, count = records carrying it, percentage = 100·count/history length |
| Viewer.RankedItemCounted | service_c.py:231 | an item of the ranked counter of xs names an element of xs with its exact count |
| Viewer.BreakdownNames | service_c.py:216-232 | a genre is in the breakdown exactly when it is counted from the history |
| Viewer.BreakdownRanked | service_c.py:231 | the breakdown is ranked by count descending, ties by first record |
| Viewer.TopGenresPrefix | service_c.py:219-233 | `top_genres` is the first min(3, breakdown length) breakdown names |
| Viewer.SharesSums | service_c.py:230 | shares' counts add up to the counter total and their percentage numerators to 100 times it |
| Viewer.BreakdownTotals | service_c.py:228-232 | breakdown counts add up to the genre-carrying records, at most `watched_movies`; every denominator is the history length; percentages sum to 100 exactly when every record has a genre |
| Viewer.UnwatchedGenre | service_c.py:222-223 | an unwatched genre is a catalog genre no history record carries, absent from the breakdown |
| Viewer.SuggestionsUnwatched | service_c.py:222-234 | suggestions are min(3, unwatched) catalog genres that no record carries and the breakdown does not list |

## Left out

- HTTP routing, `jsonify`, status codes, the `home` and `health_check` endpoints, logging and the Flask banner patch: plumbing around the computation.
- `read_json_file`: file reading and JSON decoding. Its results are the parameters. A missing file or invalid JSON is the empty catalog or the empty history.
- Other load errors make the request an error with that exception's text, and the model does not capture them. Examples are a file that cannot be opened (permission, directory) and a file that is not UTF-8. So does a history file whose JSON is not an object (a list or `null`), because `history.get` raises AttributeError.
- A catalog whose JSON is a non-empty object rather than a list makes the request an error (TypeError at `movie['genre']`), and the model does not capture it. So do catalog records that are not objects.
- The `timestamp` field of each response: a clock read.
- Float rounding in `round((count / n) * 100, 1)`. Percentages are the exact ratio `100 * count / n`, as `Ratio`.
- Viewer.Pick: the order of `list(unwatched_genres)` depends on string hashing. The model allows any choice of distinct elements.
- Decimal.ParseNat: Python's `int()` also accepts surrounding whitespace, a sign and digit separators such as `_`, and non-ASCII digits. The model accepts only a non-empty run of ASCII digits. A date with such a year is skipped here but counted by the service. On Python versions with the integer-string limit (4300 digits by default), a longer year makes `int()` raise ValueError and the service skips the movie, while the model parses it.
- Records whose `genre` or `release_date` is present but not a string (e.g. `null`) are not modelled. Nor is the TypeError that sorting mixed-type genres would raise, or the AttributeError of `.split` on a non-string date.
- History records that are not objects, and a history value that is not a list, are not modelled.
- Viewer.UserGenreAnalysis: `user_id` is a non-negative integer, as the `<int:...>` route converter only matches those.
- The no-history answer's empty `genres` and `recommendations` lists are implied by the `NoHistory` variant, not stored.
