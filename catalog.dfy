/**
 * The catalog side of the genre analysis service: the records it reads, the
 * error outcomes of its handlers, and the `/genres` and `/genres/popular`
 * handlers (`list_genres`, `popular_genres`) with the loading and the HTTP
 * response taken out: the catalog is a parameter, and a catalog that could
 * not be loaded is the empty sequence.
 */
module Catalog {
  import opened Optional
  import opened Counting
  import opened Ranking
  import opened NameOrder

  /** A catalog record; a key the JSON object lacks is None. */
  datatype Movie = Movie(genre: Option<string>, releaseDate: Option<string>)

  /** Why a handler answers with an error instead of a result. */
  datatype Error =
    | MoviesUnavailable       // the catalog is empty or could not be read
    | MissingKey(key: string) // a record lacked a key the handler indexes

  /** The `error` text of the response; `str()` of a KeyError is the key in quotes. */
  function Message(e: Error): string
  {
    match e
    case MoviesUnavailable => "Could not read movies data"
    case MissingKey(k) => "'" + k + "'"
  }

  /** The error text tells the causes apart: distinct errors have distinct messages. */
  lemma MessageIdentifies(e1: Error, e2: Error)
    requires Message(e1) == Message(e2)
    ensures e1 == e2
  {
    match e1
    case MoviesUnavailable =>
      assert Message(e1)[0] == 'C';
    case MissingKey(a) =>
      assert Message(e1)[0] == '\'';
      if e2.MissingKey? {
        var b := e2.key;
        assert a == Message(e1)[1..|Message(e1)| - 1];
        assert b == Message(e2)[1..|Message(e2)| - 1];
      }
  }

  datatype Result<T> = Ok(value: T) | Err(error: Error)

  /** The exact value numerator / denominator of a percentage, before the service rounds it to one decimal. */
  datatype Ratio = Ratio(numerator: nat, denominator: nat)

  /** `(count / total) * 100` as an exact ratio. */
  function Percentage(count: nat, total: nat): Ratio
  {
    Ratio(100 * count, total)
  }

  /** A ranked genre with its share of a total: `{"name", "count", "percentage"}`. */
  datatype Share = Share(name: string, count: nat, percentage: Ratio)

  function Shares(items: seq<Entry>, total: nat): seq<Share>
  {
    seq(|items|, i requires 0 <= i < |items| => Share(items[i].name, items[i].count, Percentage(items[i].count, total)))
  }

  /** Response of `/genres`. */
  datatype GenreList = GenreList(genres: seq<Entry>, totalMovies: nat)

  /** Response of `/genres/popular`. */
  datatype PopularList = PopularList(popular: seq<Share>, totalMovies: nat)

  /** Every movie has a genre, so `movie['genre']` raises no KeyError. */
  predicate HasGenres(movies: seq<Movie>)
  {
    forall i :: 0 <= i < |movies| ==> movies[i].genre.Some?
  }

  /** `[movie['genre'] for movie in movies]`. */
  function Genres(movies: seq<Movie>): seq<string>
    requires HasGenres(movies)
  {
    seq(|movies|, i requires 0 <= i < |movies| => movies[i].genre.value)
  }

  /** Number of catalog movies whose genre is g. */
  function GenreCount(movies: seq<Movie>, g: string): (n: nat)
    ensures n <= |movies|
  {
    if movies == [] then 0
    else GenreCount(movies[..|movies| - 1], g) + (if movies[|movies| - 1].genre == Some(g) then 1 else 0)
  }

  lemma {:induction false} GenresCount(movies: seq<Movie>, g: string)
    requires HasGenres(movies)
    ensures multiset(Genres(movies))[g] == GenreCount(movies, g)
  {
    if movies != [] {
      var p := movies[..|movies| - 1];
      GenresCount(p, g);
      assert Genres(movies) == Genres(p) + [movies[|movies| - 1].genre.value];
    }
  }

  /** The genres of a catalog, each once. */
  function GenreSet(movies: seq<Movie>): set<string>
    requires HasGenres(movies)
  {
    set g | g in Genres(movies)
  }

  /** `list_genres`: genre counts sorted by name, and the catalog size. */
  function ListGenres(movies: seq<Movie>): Result<GenreList>
  {
    if movies == [] then Err(MoviesUnavailable)
    else if !HasGenres(movies) then Err(MissingKey("genre"))
    else Ok(GenreList(SortByName(Tally(Genres(movies))), |movies|))
  }

  /** `popular_genres`: the five most common genres with their share of the catalog. */
  function PopularGenres(movies: seq<Movie>): Result<PopularList>
  {
    if movies == [] then Err(MoviesUnavailable)
    else if !HasGenres(movies) then Err(MissingKey("genre"))
    else Ok(PopularList(Shares(MostCommon(Tally(Genres(movies)), 5), |movies|), |movies|))
  }

  /** Sorting the counter of gs by key keeps exactly its items, with totals intact. */
  lemma SortedTally(gs: seq<string>)
    ensures var sorted := SortByName(Tally(gs));
      && Ascending(sorted)
      && Total(sorted) == |gs|
      && (forall g :: g in Names(sorted) <==> g in gs)
      && (forall i :: 0 <= i < |sorted| ==> sorted[i].count == multiset(gs)[sorted[i].name])
  {
    var c := Tally(gs);
    var sorted := SortByName(c);
    TallyCounts(gs);
    SortByNameSpec(c);
    SameItemsSameNames(sorted, c);
    forall i | 0 <= i < |sorted| ensures sorted[i].count == multiset(gs)[sorted[i].name] {
      assert sorted[i] in c;
    }
  }

  /**
   * `list_genres` lists each genre of the catalog exactly once, in strictly
   * ascending name order, with the number of movies of that genre; the counts
   * add up to `total_movies`, which is the catalog size. An empty catalog and
   * a movie without a genre are errors.
   */
  lemma ListGenresSpec(movies: seq<Movie>)
    ensures movies == [] ==> ListGenres(movies) == Err(MoviesUnavailable)
    ensures movies != [] && !HasGenres(movies) ==> ListGenres(movies) == Err(MissingKey("genre"))
    ensures movies != [] && HasGenres(movies) ==>
      && ListGenres(movies).Ok?
      && var list := ListGenres(movies).value;
      && list.totalMovies == |movies|
      && Ascending(list.genres)
      && (forall g :: g in Names(list.genres) <==> GenreCount(movies, g) > 0)
      && (forall i :: 0 <= i < |list.genres| ==> list.genres[i].count == GenreCount(movies, list.genres[i].name))
      && Total(list.genres) == |movies|
  {
    if movies != [] && HasGenres(movies) {
      var gs := Genres(movies);
      var sorted := SortByName(Tally(gs));
      assert ListGenres(movies) == Ok(GenreList(sorted, |movies|));
      SortedTally(gs);
      forall g ensures g in Names(sorted) <==> GenreCount(movies, g) > 0 {
        GenresCount(movies, g);
        assert g in gs <==> g in multiset(gs);
      }
      forall i | 0 <= i < |sorted| ensures sorted[i].count == GenreCount(movies, sorted[i].name) {
        GenresCount(movies, sorted[i].name);
      }
    }
  }

  /** The shares of `most_common(5)` name genres of gs with their exact counts and their percentage of total. */
  lemma PopularSharesCount(gs: seq<string>, total: nat)
    ensures var top := Shares(MostCommon(Tally(gs), 5), total);
      && |top| == Min(5, |set g | g in gs|)
      && forall i :: 0 <= i < |top| ==>
           top[i].name in gs && top[i].count == multiset(gs)[top[i].name] && top[i].percentage == Percentage(top[i].count, total)
  {
    MostCommonSpec(gs, 5);
  }

  /** The shares of `most_common(5)` are ranked by count descending, ties by first occurrence in gs. */
  lemma PopularSharesRanked(gs: seq<string>, total: nat)
    ensures var top := Shares(MostCommon(Tally(gs), 5), total);
      forall i, j :: 0 <= i < j < |top| ==>
        top[i].count > top[j].count
        || (top[i].count == top[j].count && FirstIndex(gs, top[i].name) < FirstIndex(gs, top[j].name))
  {
    var best := MostCommon(Tally(gs), 5);
    MostCommonSpec(gs, 5);
    forall i, j | 0 <= i < j < |best| ensures Outranks(best[i], best[j], gs) {
    }
  }

  /** No genre of gs left out of `most_common(5)` outranks one kept. */
  lemma PopularSharesOmitted(gs: seq<string>, total: nat, g: string, i: nat)
    requires g in gs
    requires var top := Shares(MostCommon(Tally(gs), 5), total);
      i < |top| && forall k :: 0 <= k < |top| ==> top[k].name != g
    ensures var top := Shares(MostCommon(Tally(gs), 5), total);
      multiset(gs)[g] < top[i].count
      || (multiset(gs)[g] == top[i].count && FirstIndex(gs, top[i].name) < FirstIndex(gs, g))
  {
    var best := MostCommon(Tally(gs), 5);
    var top := Shares(best, total);
    assert g !in Names(best) by {
      forall k | 0 <= k < |best| ensures Names(best)[k] != g {
        assert top[k].name == best[k].name;
      }
    }
    MostCommonOmitted(gs, 5, g, i);
  }

  /**
   * `popular_genres` fails on an empty catalog and on a movie without a
   * genre; otherwise it succeeds and reports the catalog size.
   */
  lemma PopularGenresOutcome(movies: seq<Movie>)
    ensures movies == [] ==> PopularGenres(movies) == Err(MoviesUnavailable)
    ensures movies != [] && !HasGenres(movies) ==> PopularGenres(movies) == Err(MissingKey("genre"))
    ensures movies != [] && HasGenres(movies) ==>
      PopularGenres(movies).Ok? && PopularGenres(movies).value.totalMovies == |movies|
  {
  }

  /**
   * `popular_genres` lists min(5, number of distinct genres) genres, each with
   * its exact number of movies and its percentage of the whole catalog, whose
   * denominator is never zero and whose value lies in (0, 100].
   */
  lemma PopularGenresCounts(movies: seq<Movie>)
    requires movies != [] && HasGenres(movies)
    ensures var top := PopularGenres(movies).value.popular;
      && |top| == Min(5, |GenreSet(movies)|)
      && forall i :: 0 <= i < |top| ==>
           && top[i].count == GenreCount(movies, top[i].name) > 0
           && top[i].percentage == Ratio(100 * top[i].count, |movies|)
           && 0 < top[i].percentage.numerator <= 100 * top[i].percentage.denominator
  {
    var gs := Genres(movies);
    var top := PopularGenres(movies).value.popular;
    PopularSharesCount(gs, |movies|);
    forall i | 0 <= i < |top|
      ensures top[i].count == GenreCount(movies, top[i].name) > 0
      ensures top[i].count <= |movies|
    {
      GenresCount(movies, top[i].name);
      assert top[i].name in multiset(gs);
    }
  }

  /** `popular_genres` ranks by count descending, equal counts in order of each genre's first movie. */
  lemma PopularGenresRanked(movies: seq<Movie>)
    requires movies != [] && HasGenres(movies)
    ensures var top := PopularGenres(movies).value.popular;
      forall i, j :: 0 <= i < j < |top| ==>
        top[i].count > top[j].count
        || (top[i].count == top[j].count && FirstIndex(Genres(movies), top[i].name) < FirstIndex(Genres(movies), top[j].name))
  {
    var gs := Genres(movies);
    assert PopularGenres(movies).value.popular == Shares(MostCommon(Tally(gs), 5), |movies|);
    PopularSharesRanked(gs, |movies|);
  }

  /**
   * A catalog genre that `popular_genres` leaves out has fewer movies than
   * every listed genre, or as many but its first movie comes later.
   */
  lemma PopularGenresOmitted(movies: seq<Movie>, g: string, i: nat)
    requires movies != [] && HasGenres(movies) && GenreCount(movies, g) > 0
    requires var top := PopularGenres(movies).value.popular;
      i < |top| && forall k :: 0 <= k < |top| ==> top[k].name != g
    ensures var top := PopularGenres(movies).value.popular;
      GenreCount(movies, g) < top[i].count
      || (GenreCount(movies, g) == top[i].count && FirstIndex(Genres(movies), top[i].name) < FirstIndex(Genres(movies), g))
  {
    var gs := Genres(movies);
    GenresCount(movies, g);
    assert g in multiset(gs);
    PopularSharesOmitted(gs, |movies|, g, i);
  }
}
