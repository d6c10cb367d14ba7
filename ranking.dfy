/**
 * `Counter.most_common`: the items of a counter sorted by count, largest
 * first. Python's sort is stable (also with `reverse=True`, and
 * `heapq.nlargest`, which `most_common(n)` uses, promises the same result
 * as `sorted(...)[:n]`), so items with equal counts keep counter order,
 * which is the order in which their keys were first counted.
 */
module Ranking {
  import opened Counting

  function Min(a: nat, b: nat): nat
  {
    if a <= b then a else b
  }

  /** Places e before the first item whose count does not exceed e's. */
  function Insert(e: Entry, s: seq<Entry>): (r: seq<Entry>)
    ensures |r| == |s| + 1
    ensures multiset(r) == multiset(s) + multiset{e}
    ensures Total(r) == Total(s) + e.count
  {
    if s == [] then [e]
    else if e.count >= s[0].count then [e] + s
    else
      assert s == [s[0]] + s[1..];
      [s[0]] + Insert(e, s[1..])
  }

  /** `counter.most_common()`: every item, by count descending, stable. */
  function Rank(c: seq<Entry>): (r: seq<Entry>)
    ensures |r| == |c|
    ensures multiset(r) == multiset(c)
    ensures Total(r) == Total(c)
  {
    if c == [] then []
    else
      assert c == [c[0]] + c[1..];
      Insert(c[0], Rank(c[1..]))
  }

  /** `counter.most_common(n)`: the first n items of the ranking. */
  function MostCommon(c: seq<Entry>, n: nat): seq<Entry>
  {
    Rank(c)[..Min(n, |c|)]
  }

  /** a comes before b in a ranking built from xs: a larger count, or an equal count first seen earlier. */
  ghost predicate Outranks(a: Entry, b: Entry, xs: seq<string>)
  {
    a.count > b.count || (a.count == b.count && FirstIndex(xs, a.name) < FirstIndex(xs, b.name))
  }

  /**
   * r is ordered by count descending, equal counts by first occurrence in xs:
   * the order `most_common` produces for a counter built from xs.
   */
  ghost predicate RankedBy(r: seq<Entry>, xs: seq<string>)
  {
    forall i, j :: 0 <= i < j < |r| ==> Outranks(r[i], r[j], xs)
  }

  /** Items are in order of first occurrence in xs, as a counter of xs is. */
  ghost predicate FirstSeenOrder(c: seq<Entry>, xs: seq<string>)
  {
    forall i, j :: 0 <= i < j < |c| ==> FirstIndex(xs, c[i].name) < FirstIndex(xs, c[j].name)
  }

  lemma RankedCons(a: Entry, s: seq<Entry>, xs: seq<string>)
    ensures RankedBy([a] + s, xs) <==> (forall t :: t in s ==> Outranks(a, t, xs)) && RankedBy(s, xs)
  {
    var r := [a] + s;
    if RankedBy(r, xs) {
      forall t | t in s ensures Outranks(a, t, xs) {
        var k :| 0 <= k < |s| && s[k] == t;
        assert r[0] == a && r[k + 1] == t;
      }
      forall i, j | 0 <= i < j < |s| ensures Outranks(s[i], s[j], xs) {
        assert r[i + 1] == s[i] && r[j + 1] == s[j];
      }
    }
    if (forall t :: t in s ==> Outranks(a, t, xs)) && RankedBy(s, xs) {
      forall i, j | 0 <= i < j < |r| ensures Outranks(r[i], r[j], xs) {
        if i == 0 {
          assert r[j] == s[j - 1];
        } else {
          assert r[i] == s[i - 1] && r[j] == s[j - 1];
        }
      }
    }
  }

  lemma {:induction false} InsertRanked(e: Entry, s: seq<Entry>, xs: seq<string>)
    requires RankedBy(s, xs)
    requires forall t :: t in s ==> FirstIndex(xs, e.name) < FirstIndex(xs, t.name)
    ensures RankedBy(Insert(e, s), xs)
  {
    if s == [] {
    } else if e.count >= s[0].count {
      forall t | t in s ensures Outranks(e, t, xs) {
        var k :| 0 <= k < |s| && s[k] == t;
        if k > 0 {
          assert Outranks(s[0], s[k], xs);
        }
      }
      RankedCons(e, s, xs);
    } else {
      assert s == [s[0]] + s[1..];
      RankedCons(s[0], s[1..], xs);
      InsertRanked(e, s[1..], xs);
      var t := Insert(e, s[1..]);
      forall u | u in t ensures Outranks(s[0], u, xs) {
        assert u in multiset(t);
        assert u == e || u in s[1..];
      }
      RankedCons(s[0], t, xs);
    }
  }

  /** Ranking a counter of xs orders it by count descending, ties by first occurrence in xs. */
  lemma {:induction false} RankOrders(c: seq<Entry>, xs: seq<string>)
    requires FirstSeenOrder(c, xs)
    ensures RankedBy(Rank(c), xs)
  {
    if c != [] {
      var rest := c[1..];
      assert FirstSeenOrder(rest, xs) by {
        forall i, j | 0 <= i < j < |rest| ensures FirstIndex(xs, rest[i].name) < FirstIndex(xs, rest[j].name) {
          assert rest[i] == c[i + 1] && rest[j] == c[j + 1];
        }
      }
      RankOrders(rest, xs);
      forall t | t in Rank(rest) ensures FirstIndex(xs, c[0].name) < FirstIndex(xs, t.name) {
        assert t in multiset(Rank(rest));
        assert t in rest;
        var k :| 0 <= k < |rest| && rest[k] == t;
        assert c[k + 1] == t;
      }
      InsertRanked(c[0], Rank(rest), xs);
    }
  }

  /** Ranking a counter of xs yields each of its items once, in most_common order. */
  lemma RankOfTally(xs: seq<string>)
    ensures var r := Rank(Tally(xs));
      && |r| == |set y | y in xs|
      && RankedBy(r, xs)
      && (forall t :: t in r <==> t in Tally(xs))
  {
    var c := Tally(xs);
    TallyCounts(xs);
    CountsSize(c, xs);
    RankOrders(c, xs);
    forall t ensures t in Rank(c) <==> t in c {
      assert t in Rank(c) <==> t in multiset(Rank(c));
    }
  }

  /**
   * `Counter(xs).most_common(n)`: min(n, number of distinct elements) items,
   * each an element of xs with its exact count, ranked by count descending
   * with ties in first-occurrence order.
   */
  lemma {:induction false} MostCommonSpec(xs: seq<string>, n: nat)
    ensures var top := MostCommon(Tally(xs), n);
      && |top| == Min(n, |set y | y in xs|)
      && RankedBy(top, xs)
      && (forall i :: 0 <= i < |top| ==> top[i].name in xs && top[i].count == multiset(xs)[top[i].name])
  {
    var c := Tally(xs);
    TallyCounts(xs);
    RankOfTally(xs);
    var r := Rank(c);
    var top := MostCommon(c, n);
    assert top == r[..|top|];
    assert RankedBy(top, xs) by {
      forall i, j | 0 <= i < j < |top| ensures Outranks(top[i], top[j], xs) {
        assert top[i] == r[i] && top[j] == r[j];
      }
    }
    forall i | 0 <= i < |top| ensures top[i].name in xs && top[i].count == multiset(xs)[top[i].name] {
      assert top[i] == r[i] && r[i] in c;
      var k :| 0 <= k < |c| && c[k] == r[i];
      CountsPositive(c, xs, k);
    }
  }

  /**
   * An element of xs that `most_common(n)` leaves out never outranks one it
   * keeps: its count is smaller, or equal and first seen later.
   */
  lemma MostCommonOmitted(xs: seq<string>, n: nat, y: string, i: nat)
    requires y in xs && y !in Names(MostCommon(Tally(xs), n)) && i < |MostCommon(Tally(xs), n)|
    ensures Outranks(MostCommon(Tally(xs), n)[i], Entry(y, multiset(xs)[y]), xs)
  {
    var c := Tally(xs);
    TallyCounts(xs);
    RankOfTally(xs);
    OmittedRanksLower(c, xs, Rank(c), MostCommon(c, n), y, i);
  }

  lemma OmittedRanksLower(c: seq<Entry>, xs: seq<string>, r: seq<Entry>, top: seq<Entry>, y: string, i: nat)
    requires Counts(c, xs) && RankedBy(r, xs) && (forall t :: t in r <==> t in c)
    requires |top| <= |r| && top == r[..|top|]
    requires y in xs && y !in Names(top) && i < |top|
    ensures Outranks(top[i], Entry(y, multiset(xs)[y]), xs)
  {
    assert y in Names(c);
    var k :| 0 <= k < |c| && Names(c)[k] == y;
    assert c[k] == Entry(y, multiset(xs)[y]);
    assert c[k] in r;
    var p :| 0 <= p < |r| && r[p] == c[k];
    forall q | 0 <= q < |top| ensures r[q].name != y {
      assert Names(top)[q] == top[q].name == r[q].name;
    }
    assert r[i] == top[i];
  }
}
