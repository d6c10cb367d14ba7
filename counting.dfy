/**
 * Python's `collections.Counter` as the genre service uses it: a dictionary
 * from key to count that remembers the order in which keys were first
 * counted. A counter is modelled as a sequence of entries with distinct
 * names, in that insertion order.
 */
module Counting {

  /** One `(key, count)` item of a counter. */
  datatype Entry = Entry(name: string, count: nat)

  /** The keys of a counter, in the counter's own order. */
  function Names(c: seq<Entry>): seq<string>
  {
    seq(|c|, i requires 0 <= i < |c| => c[i].name)
  }

  /** `sum(counter.values())`. */
  function Total(c: seq<Entry>): nat
  {
    if c == [] then 0 else c[0].count + Total(c[1..])
  }

  /** `counter[x]`: the count stored under x, 0 when x is not a key. */
  function CountOf(c: seq<Entry>, x: string): nat
  {
    if c == [] then 0 else (if c[0].name == x then c[0].count else 0) + CountOf(c[1..], x)
  }

  predicate DistinctNames(c: seq<Entry>)
  {
    forall i, j :: 0 <= i < j < |c| ==> c[i].name != c[j].name
  }

  /** Position of the first occurrence of y in xs; |xs| when y does not occur. */
  function FirstIndex(xs: seq<string>, y: string): (k: nat)
    ensures k <= |xs|
    ensures k < |xs| <==> y in xs
    ensures k < |xs| ==> xs[k] == y && y !in xs[..k]
  {
    if xs == [] then 0
    else if xs[0] == y then 0
    else
      var k := FirstIndex(xs[1..], y);
      assert k < |xs| - 1 ==> xs[..k + 1] == [xs[0]] + xs[1..][..k];
      1 + k
  }

  /** Appending an element leaves the first occurrences of earlier elements in place. */
  lemma {:induction false} FirstIndexSnoc(xs: seq<string>, x: string, y: string)
    ensures FirstIndex(xs + [x], y) == if y in xs then FirstIndex(xs, y) else if y == x then |xs| else |xs| + 1
  {
    if xs != [] {
      assert (xs + [x])[1..] == xs[1..] + [x];
      FirstIndexSnoc(xs[1..], x, y);
    }
  }

  /** `counter[x] += 1`: a key already present keeps its place, a new key is appended with count 1. */
  function Add(c: seq<Entry>, x: string): seq<Entry>
  {
    if c == [] then [Entry(x, 1)]
    else if c[0].name == x then [Entry(x, c[0].count + 1)] + c[1..]
    else [c[0]] + Add(c[1..], x)
  }

  /** Incrementing x counts it once more, keeps every other count, and appends x only when it is new. */
  lemma {:induction false} AddSpec(c: seq<Entry>, x: string)
    ensures var r := Add(c, x);
      && Names(r) == (if x in Names(c) then Names(c) else Names(c) + [x])
      && (forall y :: CountOf(r, y) == CountOf(c, y) + (if y == x then 1 else 0))
      && Total(r) == Total(c) + 1
      && (DistinctNames(c) ==> DistinctNames(r))
  {
    if c != [] {
      NamesCons(c[0], c[1..]);
      assert [c[0]] + c[1..] == c;
      DistinctCons(c[0], c[1..]);
      if c[0].name == x {
        var r := [Entry(x, c[0].count + 1)] + c[1..];
        NamesCons(r[0], c[1..]);
        DistinctCons(r[0], c[1..]);
        assert r[1..] == c[1..];
      } else {
        AddSpec(c[1..], x);
        var t := Add(c[1..], x);
        NamesCons(c[0], t);
        DistinctCons(c[0], t);
        assert ([c[0]] + t)[1..] == t;
      }
    }
  }

  lemma NamesCons(e: Entry, s: seq<Entry>)
    ensures Names([e] + s) == [e.name] + Names(s)
  {
  }

  lemma DistinctCons(e: Entry, s: seq<Entry>)
    ensures DistinctNames([e] + s) <==> e.name !in Names(s) && DistinctNames(s)
  {
    var r := [e] + s;
    if e.name !in Names(s) && DistinctNames(s) {
      forall i, j | 0 <= i < j < |r| ensures r[i].name != r[j].name {
        if i == 0 {
          assert Names(s)[j - 1] == r[j].name;
        }
      }
    }
    if DistinctNames(r) {
      forall k | 0 <= k < |s| ensures Names(s)[k] != e.name {
        assert r[k + 1] == s[k] && r[0] == e;
        assert r[0].name != r[k + 1].name;
      }
      assert r[1..] == s;
    }
  }

  /** `Counter(xs)`: every element of xs counted, keys in order of first occurrence. */
  function Tally(xs: seq<string>): (c: seq<Entry>)
    ensures Total(c) == |xs|
  {
    if xs == [] then []
    else
      var c := Tally(xs[..|xs| - 1]);
      AddSpec(c, xs[|xs| - 1]);
      Add(c, xs[|xs| - 1])
  }

  /**
   * What it means for c to be the counter of xs: one entry per distinct
   * element, each holding that element's number of occurrences, in order
   * of first occurrence.
   */
  ghost predicate Counts(c: seq<Entry>, xs: seq<string>)
  {
    && DistinctNames(c)
    && (forall y :: y in Names(c) <==> y in xs)
    && (forall y :: CountOf(c, y) == multiset(xs)[y])
    && (forall i :: 0 <= i < |c| ==> c[i].count == multiset(xs)[c[i].name])
    && (forall i, j :: 0 <= i < j < |c| ==> FirstIndex(xs, c[i].name) < FirstIndex(xs, c[j].name))
  }

  lemma {:induction false} CountOfKey(c: seq<Entry>, i: nat)
    requires DistinctNames(c) && i < |c|
    ensures CountOf(c, c[i].name) == c[i].count
  {
    if i > 0 {
      CountOfKey(c[1..], i - 1);
      assert c[1..][i - 1] == c[i];
    } else {
      CountOfAbsent(c[1..], c[0].name);
    }
  }

  lemma {:induction false} CountOfAbsent(c: seq<Entry>, y: string)
    requires y !in Names(c)
    ensures CountOf(c, y) == 0
  {
    if c != [] {
      assert c[0].name == Names(c)[0];
      assert Names(c[1..]) == Names(c)[1..];
      CountOfAbsent(c[1..], y);
    }
  }

  /** The counter built by `Counter(xs)` counts xs exactly, in first-occurrence order. */
  lemma {:induction false} TallyCounts(xs: seq<string>)
    ensures Counts(Tally(xs), xs)
  {
    if xs != [] {
      var p, x := xs[..|xs| - 1], xs[|xs| - 1];
      assert xs == p + [x];
      TallyCounts(p);
      var c0 := Tally(p);
      var c := Tally(xs);
      assert c == Add(c0, x);
      AddSpec(c0, x);
      assert multiset(xs) == multiset(p) + multiset{x};
      forall y ensures y in Names(c) <==> y in xs {
        assert y in xs <==> y in p || y == x;
      }
      forall i | 0 <= i < |c| ensures c[i].count == multiset(xs)[c[i].name] {
        CountOfKey(c, i);
      }
      forall i, j | 0 <= i < j < |c| ensures FirstIndex(xs, c[i].name) < FirstIndex(xs, c[j].name) {
        assert Names(c)[i] == c[i].name && Names(c)[j] == c[j].name;
        FirstIndexSnoc(p, x, c[i].name);
        FirstIndexSnoc(p, x, c[j].name);
        if j < |c0| {
          assert Names(c0)[i] == c[i].name && Names(c0)[j] == c[j].name;
          assert c0[i].name == c[i].name && c0[j].name == c[j].name;
        } else {
          assert c[j].name == x && x !in p;
          assert Names(c0)[i] == c[i].name;
          assert c[i].name in p;
        }
      }
    }
  }

  /** A counter of xs has as many entries as xs has distinct elements. */
  lemma {:induction false} CountsSize(c: seq<Entry>, xs: seq<string>)
    requires Counts(c, xs)
    ensures |c| == |set y | y in xs|
  {
    var names := Names(c);
    assert (set y | y in xs) == (set y | y in names);
    DistinctSeqCard(names);
  }

  lemma {:induction false} DistinctSeqCard(s: seq<string>)
    requires forall i, j :: 0 <= i < j < |s| ==> s[i] != s[j]
    ensures |set y | y in s| == |s|
  {
    if s != [] {
      var t := s[1..];
      DistinctSeqCard(t);
      assert (set y | y in s) == (set y | y in t) + {s[0]};
      assert s[0] !in t;
    }
  }

  /** Two sequences holding the same items have the same names. */
  lemma SameItemsSameNames(a: seq<Entry>, b: seq<Entry>)
    requires forall t :: t in a <==> t in b
    ensures forall g :: g in Names(a) <==> g in Names(b)
  {
    forall g | g in Names(a) ensures g in Names(b) {
      var k :| 0 <= k < |a| && Names(a)[k] == g;
      assert a[k] in b;
      var j :| 0 <= j < |b| && b[j] == a[k];
      assert Names(b)[j] == g;
    }
    forall g | g in Names(b) ensures g in Names(a) {
      var k :| 0 <= k < |b| && Names(b)[k] == g;
      assert b[k] in a;
      var j :| 0 <= j < |a| && a[j] == b[k];
      assert Names(a)[j] == g;
    }
  }

  /** Every entry of a counter of xs names an element of xs and so counts at least one. */
  lemma CountsPositive(c: seq<Entry>, xs: seq<string>, i: nat)
    requires Counts(c, xs) && i < |c|
    ensures c[i].name in xs && c[i].count >= 1
  {
    assert Names(c)[i] == c[i].name;
  }
}
