/**
 * The `/genres/analysis` handler (`genre_analysis`): the genre list of
 * `/genres`, plus, per decade of release, the three most common genres of
 * that decade's movies. The handler builds a dictionary from decade to
 * counter in a loop over the catalog and then walks it in ascending decade
 * order; `GenreAnalysis` does the same and is proved equal to the
 * specification `AnalyzeGenres`.
 */
module Decades {
  import opened Optional
  import opened Decimal
  import opened Counting
  import opened Ranking
  import opened NameOrder
  import opened Catalog

  /** One element of `decades`: `{"decade": "<d>s", "top_genres", "total_movies"}`. */
  datatype DecadeReport = DecadeReport(decade: string, topGenres: seq<Entry>, totalMovies: nat)

  /** Response of `/genres/analysis`. */
  datatype Analysis = Analysis(genres: seq<Entry>, decades: seq<DecadeReport>, totalMovies: nat)

  /** Every movie has a `release_date` key, so the decade loop raises no KeyError. */
  predicate HasDates(movies: seq<Movie>)
  {
    forall i :: 0 <= i < |movies| ==> movies[i].releaseDate.Some?
  }

  /** The decade a movie is counted in; None when its date has no integer year (the movie is skipped). */
  function DecadeOf(m: Movie): Option<nat>
  {
    match m.releaseDate
    case None => None
    case Some(date) =>
      match ParseYear(date)
      case None => None
      case Some(year) => Some(Decade(year))
  }

  lemma PrefixHasGenres(movies: seq<Movie>, k: nat)
    requires HasGenres(movies) && k <= |movies|
    ensures HasGenres(movies[..k])
  {
    assert forall i :: 0 <= i < k ==> movies[..k][i] == movies[i];
  }

  /** The genres of the movies counted in decade d, in catalog order. */
  function InDecade(movies: seq<Movie>, d: nat): seq<string>
    requires HasGenres(movies)
  {
    if movies == [] then []
    else
      var m := movies[|movies| - 1];
      PrefixHasGenres(movies, |movies| - 1);
      InDecade(movies[..|movies| - 1], d) + (if DecadeOf(m) == Some(d) then [m.genre.value] else [])
  }

  /** Number of movies whose release date yields a year. */
  function DatedCount(movies: seq<Movie>): (n: nat)
    ensures n <= |movies|
  {
    if movies == [] then 0
    else DatedCount(movies[..|movies| - 1]) + (if DecadeOf(movies[|movies| - 1]).Some? then 1 else 0)
  }

  /**
   * The `decades` dictionary after the loop has seen all of movies: a
   * counter is created the first time a decade is met, and the movie's
   * genre is counted in its decade's counter.
   */
  function DecadeTable(movies: seq<Movie>): map<nat, seq<Entry>>
    requires HasGenres(movies)
  {
    if movies == [] then map[]
    else
      var m := movies[|movies| - 1];
      PrefixHasGenres(movies, |movies| - 1);
      var table := DecadeTable(movies[..|movies| - 1]);
      match DecadeOf(m)
      case None => table
      case Some(d) => table[d := Add(if d in table then table[d] else [], m.genre.value)]
  }

  lemma DecadeTableStep(ms: seq<Movie>, m: Movie)
    requires HasGenres(ms + [m])
    ensures HasGenres(ms) && m.genre.Some?
    ensures DecadeOf(m).None? ==> DecadeTable(ms + [m]) == DecadeTable(ms)
    ensures DecadeOf(m).Some? ==>
      var table, d := DecadeTable(ms), DecadeOf(m).value;
      DecadeTable(ms + [m]) == table[d := Add(if d in table then table[d] else [], m.genre.value)]
  {
    assert (ms + [m])[..|ms|] == ms;
    assert (ms + [m])[|ms|] == m;
    PrefixHasGenres(ms + [m], |ms|);
  }

  /** One turn of the decade loop extends the dictionary from movies[..i] to movies[..i + 1]. */
  lemma CountedOneMore(movies: seq<Movie>, i: nat, before: map<nat, seq<Entry>>, after: map<nat, seq<Entry>>)
    requires HasGenres(movies) && i < |movies| && movies[i].releaseDate.Some?
    requires HasGenres(movies[..i]) && before == DecadeTable(movies[..i])
    requires var m := movies[i];
      match ParseYear(m.releaseDate.value)
      case None => after == before
      case Some(year) =>
        var d := Decade(year);
        after == before[d := Add(if d in before then before[d] else [], m.genre.value)]
    ensures HasGenres(movies[..i + 1]) && after == DecadeTable(movies[..i + 1])
  {
    assert movies[..i + 1] == movies[..i] + [movies[i]];
    PrefixHasGenres(movies, i + 1);
    DecadeTableStep(movies[..i], movies[i]);
  }

  /** One decade of the response, from its counter. */
  function Report(d: nat, counts: seq<Entry>): DecadeReport
  {
    DecadeReport(DecadeLabel(d), MostCommon(counts, 3), Total(counts))
  }

  /** The reports of the decades ds, in the order of ds. */
  function Reports(table: map<nat, seq<Entry>>, ds: seq<nat>): seq<DecadeReport>
    requires forall d :: d in ds ==> d in table
  {
    if ds == [] then [] else [Report(ds[0], table[ds[0]])] + Reports(table, ds[1..])
  }

  lemma {:induction false} MinExists(s: set<nat>)
    requires s != {}
    ensures exists m :: m in s && forall x :: x in s ==> m <= x
  {
    var m := LeastOf(s);
  }

  lemma {:induction false} LeastOf(s: set<nat>) returns (m: nat)
    requires s != {}
    ensures m in s && forall x :: x in s ==> m <= x
    decreases |s|
  {
    var y :| y in s;
    if s == {y} {
      m := y;
    } else {
      var t := s - {y};
      var least := LeastOf(t);
      m := if y < least then y else least;
      forall x | x in s ensures m <= x {
        if x != y {
          assert x in t;
        }
      }
    }
  }

  ghost function SetMin(s: set<nat>): (m: nat)
    requires s != {}
    ensures m in s && forall x :: x in s ==> m <= x
  {
    MinExists(s);
    var m :| m in s && forall x :: x in s ==> m <= x;
    m
  }

  /** `sorted(keys)`: the elements of s in ascending order. */
  ghost function SortedSeq(s: set<nat>): (r: seq<nat>)
    ensures forall x :: x in r <==> x in s
    decreases |s|
  {
    if s == {} then [] else [SetMin(s)] + SortedSeq(s - {SetMin(s)})
  }

  predicate StrictlyIncreasing(ds: seq<nat>)
  {
    forall i, j :: 0 <= i < j < |ds| ==> ds[i] < ds[j]
  }

  /** SortedSeq(s) lists each element of s once, in strictly ascending order. */
  lemma {:induction false} SortedSeqSpec(s: set<nat>)
    ensures StrictlyIncreasing(SortedSeq(s))
    ensures forall x :: x in SortedSeq(s) <==> x in s
    decreases |s|
  {
    if s != {} {
      var m := SetMin(s);
      var rest := SortedSeq(s - {m});
      SortedSeqSpec(s - {m});
      var r := [m] + rest;
      forall i, j | 0 <= i < j < |r| ensures r[i] < r[j] {
        assert r[j] == rest[j - 1] && rest[j - 1] in s - {m};
        if i > 0 {
          assert r[i] == rest[i - 1];
        }
      }
    }
  }

  lemma SortedSeqFirst(s: set<nat>, m: nat)
    requires m in s && forall x :: x in s ==> m <= x
    ensures SortedSeq(s) == [m] + SortedSeq(s - {m})
  {
    assert SetMin(s) == m;
  }

  lemma ReportsCons(table: map<nat, seq<Entry>>, d: nat, ds: seq<nat>)
    requires d in table && forall x :: x in ds ==> x in table
    ensures Reports(table, [d] + ds) == [Report(d, table[d])] + Reports(table, ds)
  {
    assert ([d] + ds)[1..] == ds;
  }

  /** The handler's result, as a specification. */
  ghost function AnalyzeGenres(movies: seq<Movie>): Result<Analysis>
  {
    if movies == [] then Err(MoviesUnavailable)
    else if !HasGenres(movies) then Err(MissingKey("genre"))
    else if !HasDates(movies) then Err(MissingKey("release_date"))
    else
      var table := DecadeTable(movies);
      SortedSeqSpec(table.Keys);
      Ok(Analysis(SortByName(Tally(Genres(movies))), Reports(table, SortedSeq(table.Keys)), |movies|))
  }

  /** `genre_analysis`: counts genres, fills the decade dictionary, then formats decades in ascending order. */
  method GenreAnalysis(movies: seq<Movie>) returns (r: Result<Analysis>)
    ensures r == AnalyzeGenres(movies)
  {
    if movies == [] {
      return Err(MoviesUnavailable);
    }
    if !HasGenres(movies) {
      return Err(MissingKey("genre"));
    }
    var genreCounts := Tally(Genres(movies));
    var decades := CountByDecade(movies);
    match decades {
      case Err(e) =>
        return Err(e);
      case Ok(table) =>
        var decadeAnalysis := FormatDecades(table);
        return Ok(Analysis(SortByName(genreCounts), decadeAnalysis, |movies|));
    }
  }

  /**
   * The decade loop: a movie without a release date aborts it with a
   * KeyError; a date without an integer year skips the movie; otherwise the
   * movie's genre is counted in its decade's counter, created on first use.
   */
  method CountByDecade(movies: seq<Movie>) returns (r: Result<map<nat, seq<Entry>>>)
    requires HasGenres(movies)
    ensures HasDates(movies) ==> r == Ok(DecadeTable(movies))
    ensures !HasDates(movies) ==> r == Err(MissingKey("release_date"))
  {
    var decades: map<nat, seq<Entry>> := map[];
    var i := 0;
    while i < |movies|
      invariant 0 <= i <= |movies|
      invariant forall k :: 0 <= k < i ==> movies[k].releaseDate.Some?
      invariant HasGenres(movies[..i]) && decades == DecadeTable(movies[..i])
    {
      var movie := movies[i];
      if movie.releaseDate.None? {
        assert !HasDates(movies) by {
          assert movies[i].releaseDate.None?;
        }
        return Err(MissingKey("release_date"));
      }
      ghost var before := decades;
      var year := ParseYear(movie.releaseDate.value);
      if year.Some? {
        var decade := Decade(year.value);
        var genre := movie.genre.value;
        if decade !in decades {
          decades := decades[decade := []];
          assert decades[decade := Add(decades[decade], genre)] == before[decade := Add([], genre)];
        }
        decades := decades[decade := Add(decades[decade], genre)];
      }
      CountedOneMore(movies, i, before, decades);
      i := i + 1;
    }
    assert movies[..i] == movies;
    return Ok(decades);
  }

  /** The formatting loop: one report per decade, in ascending decade order. */
  method FormatDecades(decades: map<nat, seq<Entry>>) returns (decadeAnalysis: seq<DecadeReport>)
    ensures decadeAnalysis == Reports(decades, SortedSeq(decades.Keys))
  {
    decadeAnalysis := [];
    var remaining := decades.Keys;
    ghost var all := Reports(decades, SortedSeq(decades.Keys));
    while remaining != {}
      invariant remaining <= decades.Keys
      invariant decadeAnalysis + Reports(decades, SortedSeq(remaining)) == all
      decreases |remaining|
    {
      MinExists(remaining);
      var decade :| decade in remaining && forall x :: x in remaining ==> decade <= x;
      FormatStep(decades, decadeAnalysis, remaining, decade);
      decadeAnalysis := decadeAnalysis + [Report(decade, decades[decade])];
      remaining := remaining - {decade};
    }
    assert SortedSeq(remaining) == [];
    assert decadeAnalysis + [] == decadeAnalysis;
  }

  /** Reporting the least remaining decade next leaves the concatenated reports unchanged. */
  lemma FormatStep(decades: map<nat, seq<Entry>>, done: seq<DecadeReport>, remaining: set<nat>, decade: nat)
    requires remaining <= decades.Keys
    requires decade in remaining && forall x :: x in remaining ==> decade <= x
    ensures done + Reports(decades, SortedSeq(remaining))
         == (done + [Report(decade, decades[decade])]) + Reports(decades, SortedSeq(remaining - {decade}))
  {
    var rest := SortedSeq(remaining - {decade});
    SortedSeqFirst(remaining, decade);
    ReportsCons(decades, decade, rest);
  }

  /**
   * Each decade's counter depends on that decade's movies alone: the
   * dictionary has a key exactly for the decades some dated movie falls in,
   * and its counter is the counter of those movies' genres, in catalog order.
   */
  lemma {:induction false} DecadeBuckets(movies: seq<Movie>)
    requires HasGenres(movies)
    ensures forall d :: d in DecadeTable(movies) <==> InDecade(movies, d) != []
    ensures forall d :: d in DecadeTable(movies) ==> DecadeTable(movies)[d] == Tally(InDecade(movies, d))
  {
    if movies != [] {
      var ms, m := movies[..|movies| - 1], movies[|movies| - 1];
      assert movies == ms + [m];
      DecadeTableStep(ms, m);
      DecadeBuckets(ms);
      var before := DecadeTable(ms);
      forall d ensures d in DecadeTable(movies) <==> InDecade(movies, d) != []
        ensures d in DecadeTable(movies) ==> DecadeTable(movies)[d] == Tally(InDecade(movies, d))
      {
        var xs := InDecade(ms, d);
        if DecadeOf(m) == Some(d) {
          assert InDecade(movies, d) == xs + [m.genre.value];
          assert (xs + [m.genre.value])[..|xs|] == xs;
          assert Tally(xs + [m.genre.value]) == Add(Tally(xs), m.genre.value);
        } else {
          assert InDecade(movies, d) == xs;
        }
      }
    }
  }

  /** The decades of the response, as numbers, in the order they are reported. */
  ghost function ReportedDecades(movies: seq<Movie>): seq<nat>
    requires HasGenres(movies)
  {
    SortedSeq(DecadeTable(movies).Keys)
  }

  /**
   * `genre_analysis` fails on an empty catalog, then on a movie without a
   * genre, then on a movie without a release date; otherwise it reports the
   * same genre list as `list_genres` and the catalog size.
   */
  lemma AnalyzeGenresOutcome(movies: seq<Movie>)
    ensures movies == [] ==> AnalyzeGenres(movies) == Err(MoviesUnavailable)
    ensures movies != [] && !HasGenres(movies) ==> AnalyzeGenres(movies) == Err(MissingKey("genre"))
    ensures movies != [] && HasGenres(movies) && !HasDates(movies) ==> AnalyzeGenres(movies) == Err(MissingKey("release_date"))
    ensures movies != [] && HasGenres(movies) && HasDates(movies) ==>
      && AnalyzeGenres(movies).Ok?
      && AnalyzeGenres(movies).value.genres == ListGenres(movies).value.genres
      && AnalyzeGenres(movies).value.totalMovies == |movies|
  {
  }

  /**
   * The decades are reported in strictly ascending order, one for each
   * decade some movie's year falls in, labelled `"<decade>s"`; each reports
   * the three most common genres among that decade's movies and the number
   * of those movies.
   */
  lemma {:induction false} AnalyzeGenresDecades(movies: seq<Movie>)
    requires movies != [] && HasGenres(movies) && HasDates(movies)
    ensures var reports := AnalyzeGenres(movies).value.decades;
      var ds := ReportedDecades(movies);
      && |reports| == |ds|
      && StrictlyIncreasing(ds)
      && (forall d :: d in ds <==> InDecade(movies, d) != [])
      && forall i :: 0 <= i < |ds| ==>
           && reports[i].decade == DecadeLabel(ds[i])
           && reports[i].topGenres == MostCommon(Tally(InDecade(movies, ds[i])), 3)
           && reports[i].totalMovies == |InDecade(movies, ds[i])|
  {
    var table := DecadeTable(movies);
    var ds := ReportedDecades(movies);
    SortedSeqSpec(table.Keys);
    DecadeBuckets(movies);
    ReportsAt(table, ds);
  }

  lemma {:induction false} ReportsAt(table: map<nat, seq<Entry>>, ds: seq<nat>)
    requires forall d :: d in ds ==> d in table
    ensures |Reports(table, ds)| == |ds|
    ensures forall i :: 0 <= i < |ds| ==> Reports(table, ds)[i] == Report(ds[i], table[ds[i]])
  {
    if ds != [] {
      ReportsAt(table, ds[1..]);
    }
  }

  /**
   * Within a decade the top genres are at most three, each a genre of that
   * decade's movies with its exact count there, ranked by count descending
   * with ties in order of first occurrence among that decade's movies.
   */
  lemma DecadeTopGenres(movies: seq<Movie>, i: nat)
    requires movies != [] && HasGenres(movies) && HasDates(movies)
    requires i < |ReportedDecades(movies)|
    ensures |AnalyzeGenres(movies).value.decades| == |ReportedDecades(movies)|
    ensures var top := AnalyzeGenres(movies).value.decades[i].topGenres;
      var xs := InDecade(movies, ReportedDecades(movies)[i]);
      && |top| == Min(3, |set g | g in xs|) && 1 <= |top|
      && RankedBy(top, xs)
      && forall k :: 0 <= k < |top| ==> top[k].name in xs && top[k].count == multiset(xs)[top[k].name]
  {
    AnalyzeGenresDecades(movies);
    var xs := InDecade(movies, ReportedDecades(movies)[i]);
    MostCommonSpec(xs, 3);
    assert xs[0] in (set g | g in xs);
  }

  /** Number of movies in the buckets of ds. */
  function BucketSizes(movies: seq<Movie>, ds: seq<nat>): nat
    requires HasGenres(movies)
  {
    if ds == [] then 0 else |InDecade(movies, ds[0])| + BucketSizes(movies, ds[1..])
  }

  lemma {:induction false} BucketSizesStep(ms: seq<Movie>, m: Movie, ds: seq<nat>)
    requires HasGenres(ms + [m]) && HasGenres(ms)
    requires forall i, j :: 0 <= i < j < |ds| ==> ds[i] != ds[j]
    ensures BucketSizes(ms + [m], ds) == BucketSizes(ms, ds) + (if DecadeOf(m).Some? && DecadeOf(m).value in ds then 1 else 0)
  {
    var movies := ms + [m];
    assert movies[..|ms|] == ms && movies[|ms|] == m;
    if ds != [] {
      BucketSizesStep(ms, m, ds[1..]);
      if DecadeOf(m) == Some(ds[0]) {
        assert ds[0] !in ds[1..];
      }
    }
  }

  /** The buckets of a list of distinct decades covering every dated movie hold each dated movie once. */
  lemma {:induction false} BucketsPartition(movies: seq<Movie>, ds: seq<nat>)
    requires HasGenres(movies)
    requires forall i, j :: 0 <= i < j < |ds| ==> ds[i] != ds[j]
    requires forall d :: InDecade(movies, d) != [] ==> d in ds
    ensures BucketSizes(movies, ds) == DatedCount(movies)
  {
    if movies == [] {
      BucketsEmpty(movies, ds);
    } else {
      var ms, m := movies[..|movies| - 1], movies[|movies| - 1];
      assert movies == ms + [m];
      PrefixHasGenres(movies, |ms|);
      forall d | InDecade(ms, d) != [] ensures d in ds {
        assert InDecade(movies, d)[..|InDecade(ms, d)|] == InDecade(ms, d);
      }
      BucketsPartition(ms, ds);
      BucketSizesStep(ms, m, ds);
      if DecadeOf(m).Some? {
        assert InDecade(movies, DecadeOf(m).value) != [];
      }
    }
  }

  lemma {:induction false} BucketsEmpty(movies: seq<Movie>, ds: seq<nat>)
    requires movies == []
    ensures BucketSizes(movies, ds) == 0
  {
    if ds != [] {
      BucketsEmpty(movies, ds[1..]);
    }
  }

  function SumTotals(reports: seq<DecadeReport>): nat
  {
    if reports == [] then 0 else reports[0].totalMovies + SumTotals(reports[1..])
  }

  lemma {:induction false} ReportTotals(movies: seq<Movie>, ds: seq<nat>)
    requires HasGenres(movies) && forall d :: d in ds ==> d in DecadeTable(movies)
    ensures SumTotals(Reports(DecadeTable(movies), ds)) == BucketSizes(movies, ds)
  {
    if ds != [] {
      DecadeBuckets(movies);
      ReportTotals(movies, ds[1..]);
      var r := Reports(DecadeTable(movies), ds);
      assert r[1..] == Reports(DecadeTable(movies), ds[1..]);
    }
  }

  /**
   * A movie is counted in the decades exactly when its release date yields a
   * year: the decade totals add up to the number of such movies, which is at
   * most the catalog size.
   */
  lemma {:induction false} DecadeTotalsSum(movies: seq<Movie>)
    requires movies != [] && HasGenres(movies) && HasDates(movies)
    ensures SumTotals(AnalyzeGenres(movies).value.decades) == DatedCount(movies) <= |movies|
  {
    var table := DecadeTable(movies);
    var ds := ReportedDecades(movies);
    SortedSeqSpec(table.Keys);
    DecadeBuckets(movies);
    ReportTotals(movies, ds);
    BucketsPartition(movies, ds);
  }

  /**
   * A movie whose date yields no year is skipped by the decades but still
   * counted among the genres; a movie with year y is counted in the decade
   * d with d <= y < d + 10.
   */
  lemma DecadePlacement(movies: seq<Movie>, m: Movie, g: string)
    requires HasGenres(movies) && m.genre == Some(g)
    ensures HasGenres(movies + [m])
    ensures GenreCount(movies + [m], g) == GenreCount(movies, g) + 1
    ensures m.releaseDate.Some? && ParseYear(m.releaseDate.value).None? ==>
      forall d :: InDecade(movies + [m], d) == InDecade(movies, d)
    ensures m.releaseDate.Some? && ParseYear(m.releaseDate.value).Some? ==>
      var year := ParseYear(m.releaseDate.value).value;
      exists d :: d <= year < d + 10 && d % 10 == 0 && InDecade(movies + [m], d) == InDecade(movies, d) + [g]
    ensures m.releaseDate.Some? && ParseYear(m.releaseDate.value).Some? ==>
      forall d :: d != Decade(ParseYear(m.releaseDate.value).value) ==> InDecade(movies + [m], d) == InDecade(movies, d)
  {
    var all := movies + [m];
    assert all[..|movies|] == movies && all[|movies|] == m;
    if m.releaseDate.Some? && ParseYear(m.releaseDate.value).Some? {
      var d := Decade(ParseYear(m.releaseDate.value).value);
      assert InDecade(all, d) == InDecade(movies, d) + [g];
    }
  }

  /**
   * Ties within a decade go to the genre seen first in that decade: in the
   * 2000s below, Drama and Action both have one movie, and Drama comes first
   * because its 2001 movie precedes Action's; Action's 1999 movie counts
   * only for the 1990s.
   */
  lemma DecadeTieExample()
    ensures var movies := [
        Movie(Some("Action"), Some("1999-01-01")),
        Movie(Some("Drama"), Some("2001-05-05")),
        Movie(Some("Action"), Some("2001-07-07"))];
      && DecadeTable(movies) == map[1990 := [Entry("Action", 1)], 2000 := [Entry("Drama", 1), Entry("Action", 1)]]
      && MostCommon(DecadeTable(movies)[2000], 3) == [Entry("Drama", 1), Entry("Action", 1)]
  {
    var m1 := Movie(Some("Action"), Some("1999-01-01"));
    var m2 := Movie(Some("Drama"), Some("2001-05-05"));
    var m3 := Movie(Some("Action"), Some("2001-07-07"));
    ExampleYears();
    assert "1999" + "-" + "01-01" == "1999-01-01";
    assert "2001" + "-" + "05-05" == "2001-05-05";
    assert "2001" + "-" + "07-07" == "2001-07-07";
    ExampleDecades(m1, m2, m3);
    ExampleTable(m1, m2, m3);
    ExampleTieRank();
  }

  lemma ExampleYears()
    ensures Show(1999) == "1999" && Show(2001) == "2001"
  {
    assert Show(19) == Show(1) + [DigitChar(9)];
    assert Show(199) == Show(19) + [DigitChar(9)];
    assert Show(20) == Show(2) + [DigitChar(0)];
    assert Show(200) == Show(20) + [DigitChar(0)];
  }

  lemma ExampleTable(m1: Movie, m2: Movie, m3: Movie)
    requires m1.genre == Some("Action") && DecadeOf(m1) == Some(1990)
    requires m2.genre == Some("Drama") && DecadeOf(m2) == Some(2000)
    requires m3.genre == Some("Action") && DecadeOf(m3) == Some(2000)
    ensures HasGenres([m1, m2, m3])
    ensures DecadeTable([m1, m2, m3]) == map[1990 := [Entry("Action", 1)], 2000 := [Entry("Drama", 1), Entry("Action", 1)]]
  {
    var t1 := map[1990 := [Entry("Action", 1)]];
    var t2 := t1[2000 := [Entry("Drama", 1)]];
    var t3 := t2[2000 := [Entry("Drama", 1), Entry("Action", 1)]];
    ExampleCounts();
    assert [] + [m1] == [m1] && [m1] + [m2] == [m1, m2] && [m1, m2] + [m3] == [m1, m2, m3];
    TableExtends([], m1, map[], 1990, t1);
    TableExtends([m1], m2, t1, 2000, t2);
    TableExtends([m1, m2], m3, t2, 2000, t3);
    assert t3 == map[1990 := [Entry("Action", 1)], 2000 := [Entry("Drama", 1), Entry("Action", 1)]];
  }

  lemma ExampleDecades(m1: Movie, m2: Movie, m3: Movie)
    requires m1 == Movie(Some("Action"), Some(Show(1999) + "-" + "01-01"))
    requires m2 == Movie(Some("Drama"), Some(Show(2001) + "-" + "05-05"))
    requires m3 == Movie(Some("Action"), Some(Show(2001) + "-" + "07-07"))
    ensures m1.genre == Some("Action") && DecadeOf(m1) == Some(1990)
    ensures m2.genre == Some("Drama") && DecadeOf(m2) == Some(2000)
    ensures m3.genre == Some("Action") && DecadeOf(m3) == Some(2000)
  {
    ExampleDecade(m1, "Action", 1999, "01-01");
    ExampleDecade(m2, "Drama", 2001, "05-05");
    ExampleDecade(m3, "Action", 2001, "07-07");
  }

  lemma ExampleDecade(m: Movie, g: string, year: nat, rest: string)
    requires m == Movie(Some(g), Some(Show(year) + "-" + rest))
    ensures DecadeOf(m) == Some(Decade(year))
  {
    YearOfDate(year, rest);
  }

  /** The dictionary after one more dated movie: its genre counted in its decade. */
  lemma TableExtends(ms: seq<Movie>, m: Movie, before: map<nat, seq<Entry>>, d: nat, after: map<nat, seq<Entry>>)
    requires HasGenres(ms) && m.genre.Some? && DecadeOf(m) == Some(d)
    requires DecadeTable(ms) == before
    requires after == before[d := Add(if d in before then before[d] else [], m.genre.value)]
    ensures HasGenres(ms + [m])
    ensures DecadeTable(ms + [m]) == after
  {
    assert forall i :: 0 <= i < |ms| ==> (ms + [m])[i] == ms[i];
    assert (ms + [m])[|ms|] == m;
    DecadeTableStep(ms, m);
  }

  lemma ExampleCounts()
    ensures Add([], "Action") == [Entry("Action", 1)]
    ensures Add([], "Drama") == [Entry("Drama", 1)]
    ensures Add([Entry("Drama", 1)], "Action") == [Entry("Drama", 1), Entry("Action", 1)]
  {
    var c := [Entry("Drama", 1)];
    assert c[0].name != "Action";
    assert c[1..] == [];
  }

  lemma ExampleTieRank()
    ensures MostCommon([Entry("Drama", 1), Entry("Action", 1)], 3) == [Entry("Drama", 1), Entry("Action", 1)]
  {
    var c := [Entry("Drama", 1), Entry("Action", 1)];
    assert c[1..] == [Entry("Action", 1)];
    assert Rank(c[1..]) == [Entry("Action", 1)];
  }
}
