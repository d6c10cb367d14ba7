/**
 * The `/genres/user/<user_id>` handler (`user_genre_analysis`): a genre
 * profile of one user's watch history, with genres of the catalog the user
 * has not watched suggested. The catalog and the history object are
 * parameters; a history file that could not be read is the empty map.
 */
module Viewer {
  import opened Optional
  import opened Decimal
  import opened Counting
  import opened Ranking
  import opened Catalog

  /** A watch-history record; the handler reads its `genre` key only, when present. */
  datatype Viewing = Viewing(genre: Option<string>)

  /** The history object: watch histories keyed by the decimal user id. */
  type History = map<string, seq<Viewing>>

  const NoHistoryMessage := "No watch history found for this user"

  /** The two successful answers: no history (a message, and empty `genres` and `recommendations`), or a profile. */
  datatype UserAnalysis =
    | NoHistory(userId: nat, message: string)
    | Profile(userId: nat, watchedMovies: nat, breakdown: seq<Share>, topGenres: seq<string>, suggestedNewGenres: seq<string>)

  /** `history.get(str(user_id), [])`. */
  function UserHistory(history: History, userId: nat): seq<Viewing>
  {
    if Show(userId) in history then history[Show(userId)] else []
  }

  /** `[movie['genre'] for movie in user_history if 'genre' in movie]`. */
  function TaggedGenres(entries: seq<Viewing>): seq<string>
  {
    if entries == [] then []
    else
      var last := entries[|entries| - 1];
      TaggedGenres(entries[..|entries| - 1]) + (if last.genre.Some? then [last.genre.value] else [])
  }

  /** `genre_counts.most_common()` with each count's share of the watched movies. */
  function Breakdown(entries: seq<Viewing>): seq<Share>
  {
    Shares(Rank(Tally(TaggedGenres(entries))), |entries|)
  }

  /** `[genre for genre, _ in genre_counts.most_common()][:3]`. */
  function TopGenres(entries: seq<Viewing>): seq<string>
  {
    Names(MostCommon(Tally(TaggedGenres(entries)), 3))
  }

  /** `all_genres - set(genre_counts.keys())`. */
  function Unwatched(movies: seq<Movie>, entries: seq<Viewing>): set<string>
    requires HasGenres(movies)
  {
    GenreSet(movies) - set g | g in TaggedGenres(entries)
  }

  /** r could be `list(s)[:n]`: n distinct elements of s, or all of them when s has fewer. */
  predicate Picked(r: seq<string>, s: set<string>, n: nat)
  {
    && |r| == Min(n, |s|)
    && (forall i, j :: 0 <= i < j < |r| ==> r[i] != r[j])
    && (forall x :: x in r ==> x in s)
  }

  /** `list(s)[:n]`; the order of a set's elements is up to the hashing, so any choice is allowed. */
  method Pick(s: set<string>, n: nat) returns (r: seq<string>)
    ensures Picked(r, s, n)
  {
    r := [];
    var rest := s;
    while |r| < n && rest != {}
      invariant rest <= s && |r| <= n
      invariant |r| + |rest| == |s|
      invariant forall x :: x in r ==> x in s && x !in rest
      invariant forall i, j :: 0 <= i < j < |r| ==> r[i] != r[j]
      decreases |rest|
    {
      var x :| x in rest;
      r := r + [x];
      rest := rest - {x};
    }
  }

  /**
   * `user_genre_analysis`: an empty catalog is an error; an absent or empty
   * history is a success without a profile (the catalog's genres are not read);
   * otherwise a catalog movie without a genre is an error, and the profile
   * holds the number of watched movies, the ranked breakdown, the three top
   * genres and up to three catalog genres the user has not watched.
   */
  method UserGenreAnalysis(userId: nat, movies: seq<Movie>, history: History) returns (r: Result<UserAnalysis>)
    ensures movies == [] ==> r == Err(MoviesUnavailable)
    ensures movies != [] && UserHistory(history, userId) == [] ==> r == Ok(NoHistory(userId, NoHistoryMessage))
    ensures movies != [] && UserHistory(history, userId) != [] && !HasGenres(movies) ==> r == Err(MissingKey("genre"))
    ensures movies != [] && UserHistory(history, userId) != [] && HasGenres(movies) ==>
      var entries := UserHistory(history, userId);
      && r.Ok? && r.value.Profile?
      && r.value.userId == userId
      && r.value.watchedMovies == |entries|
      && r.value.breakdown == Breakdown(entries)
      && r.value.topGenres == TopGenres(entries)
      && Picked(r.value.suggestedNewGenres, Unwatched(movies, entries), 3)
  {
    if movies == [] {
      return Err(MoviesUnavailable);
    }
    var entries := UserHistory(history, userId);
    if entries == [] {
      return Ok(NoHistory(userId, NoHistoryMessage));
    }
    var genreCounts := Tally(TaggedGenres(entries));
    var topGenres := Names(MostCommon(genreCounts, 3));
    if !HasGenres(movies) {
      return Err(MissingKey("genre"));
    }
    var unwatched := Unwatched(movies, entries);
    var suggested := Pick(unwatched, 3);
    var breakdown := Shares(Rank(genreCounts), |entries|);
    return Ok(Profile(userId, |entries|, breakdown, topGenres, suggested));
  }

  /** A genre is counted for the user exactly when some history record carries it. */
  lemma {:induction false} TaggedGenresMembers(entries: seq<Viewing>)
    ensures |TaggedGenres(entries)| <= |entries|
    ensures forall g :: g in TaggedGenres(entries) <==> exists i :: 0 <= i < |entries| && entries[i].genre == Some(g)
    ensures |TaggedGenres(entries)| == |entries| <==> forall i :: 0 <= i < |entries| ==> entries[i].genre.Some?
  {
    if entries != [] {
      var es, e := entries[..|entries| - 1], entries[|entries| - 1];
      TaggedGenresMembers(es);
      forall g ensures g in TaggedGenres(entries) <==> exists i :: 0 <= i < |entries| && entries[i].genre == Some(g) {
        if g in TaggedGenres(es) {
          var i :| 0 <= i < |es| && es[i].genre == Some(g);
          assert entries[i] == es[i];
        }
        if exists i :: 0 <= i < |entries| && entries[i].genre == Some(g) {
          var i :| 0 <= i < |entries| && entries[i].genre == Some(g);
          if i < |es| {
            assert es[i] == entries[i];
          }
        }
      }
      if forall i :: 0 <= i < |entries| ==> entries[i].genre.Some? {
        assert forall i :: 0 <= i < |es| ==> es[i].genre.Some? by {
          forall i | 0 <= i < |es| ensures es[i].genre.Some? {
            assert es[i] == entries[i];
          }
        }
      } else {
        var i :| 0 <= i < |entries| && entries[i].genre.None?;
        if i < |es| {
          assert es[i] == entries[i];
        }
      }
    }
  }

  /**
   * The breakdown has one item per genre of the user's history, each with
   * the number of records carrying it and that number's share of all
   * watched records.
   */
  lemma BreakdownCounts(entries: seq<Viewing>)
    ensures var xs := TaggedGenres(entries);
      var b := Breakdown(entries);
      && |b| == |set g | g in xs|
      && forall i :: 0 <= i < |b| ==>
           && b[i].count == multiset(xs)[b[i].name] >= 1
           && b[i].percentage == Ratio(100 * b[i].count, |entries|)
  {
    var xs := TaggedGenres(entries);
    var c := Tally(xs);
    var r := Rank(c);
    var b := Breakdown(entries);
    TallyCounts(xs);
    RankOfTally(xs);
    forall i | 0 <= i < |b| ensures b[i].count == multiset(xs)[b[i].name] >= 1 {
      RankedItemCounted(c, xs, r, i);
    }
  }

  lemma RankedItemCounted(c: seq<Entry>, xs: seq<string>, r: seq<Entry>, i: nat)
    requires Counts(c, xs) && (forall t :: t in r <==> t in c) && i < |r|
    ensures r[i].name in xs && r[i].count == multiset(xs)[r[i].name] >= 1
  {
    assert r[i] in c;
    var k :| 0 <= k < |c| && c[k] == r[i];
    CountsPositive(c, xs, k);
  }

  /** A genre is in the breakdown exactly when it is counted from the history. */
  lemma BreakdownNames(entries: seq<Viewing>, g: string)
    ensures (exists i :: 0 <= i < |Breakdown(entries)| && Breakdown(entries)[i].name == g) <==> g in TaggedGenres(entries)
  {
    var xs := TaggedGenres(entries);
    var c := Tally(xs);
    var r := Rank(c);
    var b := Breakdown(entries);
    TallyCounts(xs);
    RankOfTally(xs);
    if g in xs {
      var k :| 0 <= k < |c| && Names(c)[k] == g;
      assert c[k] in r;
      var i :| 0 <= i < |r| && r[i] == c[k];
      assert b[i].name == g;
    }
    if exists i :: 0 <= i < |b| && b[i].name == g {
      var i :| 0 <= i < |b| && b[i].name == g;
      RankedItemCounted(c, xs, r, i);
    }
  }

  /** The breakdown is ranked by count descending, ties in order of each genre's first record. */
  lemma BreakdownRanked(entries: seq<Viewing>)
    ensures var xs := TaggedGenres(entries);
      var b := Breakdown(entries);
      forall i, j :: 0 <= i < j < |b| ==>
        b[i].count > b[j].count || (b[i].count == b[j].count && FirstIndex(xs, b[i].name) < FirstIndex(xs, b[j].name))
  {
    var xs := TaggedGenres(entries);
    var r := Rank(Tally(xs));
    RankOfTally(xs);
    forall i, j | 0 <= i < j < |r| ensures Outranks(r[i], r[j], xs) {
    }
  }

  /** `top_genres` is the first three names of the breakdown (all of them when there are fewer). */
  lemma TopGenresPrefix(entries: seq<Viewing>)
    ensures var b := Breakdown(entries);
      var top := TopGenres(entries);
      && |top| == Min(3, |b|)
      && forall k :: 0 <= k < |top| ==> top[k] == b[k].name
  {
  }

  /** Sum of the counts of a list of shares. */
  function ShareCounts(shares: seq<Share>): nat
  {
    if shares == [] then 0 else shares[0].count + ShareCounts(shares[1..])
  }

  /** Sum of the percentages of a list of shares with a common denominator, as the numerator over it. */
  function SharePercents(shares: seq<Share>): nat
  {
    if shares == [] then 0 else shares[0].percentage.numerator + SharePercents(shares[1..])
  }

  lemma {:induction false} SharesSums(items: seq<Entry>, total: nat)
    ensures ShareCounts(Shares(items, total)) == Total(items)
    ensures SharePercents(Shares(items, total)) == 100 * Total(items)
  {
    if items != [] {
      SharesSums(items[1..], total);
      assert Shares(items, total)[1..] == Shares(items[1..], total);
    }
  }

  /**
   * The breakdown's counts add up to the records that carry a genre, at most
   * the watched movies; its percentages add up to 100 exactly when every
   * record carries a genre.
   */
  lemma BreakdownTotals(entries: seq<Viewing>)
    requires entries != []
    ensures var b := Breakdown(entries);
      && ShareCounts(b) == |TaggedGenres(entries)| <= |entries|
      && (forall i :: 0 <= i < |b| ==> b[i].percentage.denominator == |entries|)
      && (SharePercents(b) == 100 * |entries| <==> forall i :: 0 <= i < |entries| ==> entries[i].genre.Some?)
  {
    var xs := TaggedGenres(entries);
    SharesSums(Rank(Tally(xs)), |entries|);
    TaggedGenresMembers(entries);
  }

  /**
   * The suggested genres are distinct catalog genres that no record of the
   * user's history carries, and absent from the breakdown; there are three
   * of them unless the catalog has fewer unwatched genres.
   */
  lemma SuggestionsUnwatched(movies: seq<Movie>, entries: seq<Viewing>, suggested: seq<string>)
    requires HasGenres(movies) && Picked(suggested, Unwatched(movies, entries), 3)
    ensures |suggested| == Min(3, |Unwatched(movies, entries)|)
    ensures forall k :: 0 <= k < |suggested| ==>
      && GenreCount(movies, suggested[k]) > 0
      && (forall i :: 0 <= i < |entries| ==> entries[i].genre != Some(suggested[k]))
      && (forall i :: 0 <= i < |Breakdown(entries)| ==> Breakdown(entries)[i].name != suggested[k])
  {
    forall k | 0 <= k < |suggested|
      ensures GenreCount(movies, suggested[k]) > 0
      ensures forall i :: 0 <= i < |entries| ==> entries[i].genre != Some(suggested[k])
      ensures forall i :: 0 <= i < |Breakdown(entries)| ==> Breakdown(entries)[i].name != suggested[k]
    {
      UnwatchedGenre(movies, entries, suggested[k]);
    }
  }

  lemma UnwatchedGenre(movies: seq<Movie>, entries: seq<Viewing>, g: string)
    requires HasGenres(movies) && g in Unwatched(movies, entries)
    ensures GenreCount(movies, g) > 0
    ensures forall i :: 0 <= i < |entries| ==> entries[i].genre != Some(g)
    ensures forall i :: 0 <= i < |Breakdown(entries)| ==> Breakdown(entries)[i].name != g
  {
    GenresCount(movies, g);
    assert g in Genres(movies);
    assert g in multiset(Genres(movies));
    TaggedGenresMembers(entries);
    BreakdownNames(entries, g);
  }
}
