/**
 * `sorted(counter.items())`: the items of a counter in ascending order of
 * their keys. Keys are distinct, so the order is decided by the keys alone,
 * compared the way Python compares `str`: code point by code point, a proper
 * prefix first.
 */
module NameOrder {
  import opened Counting

  /** Python's `a < b` on strings. */
  predicate Below(a: string, b: string)
  {
    if a == [] then b != []
    else if b == [] then false
    else if a[0] != b[0] then a[0] < b[0]
    else Below(a[1..], b[1..])
  }

  lemma {:induction false} BelowIrreflexive(a: string)
    ensures !Below(a, a)
  {
    if a != [] {
      BelowIrreflexive(a[1..]);
    }
  }

  lemma {:induction false} BelowTransitive(a: string, b: string, c: string)
    requires Below(a, b) && Below(b, c)
    ensures Below(a, c)
  {
    if a != [] && b != [] && c != [] && a[0] == b[0] == c[0] {
      BelowTransitive(a[1..], b[1..], c[1..]);
    }
  }

  lemma {:induction false} BelowTotal(a: string, b: string)
    ensures a == b || Below(a, b) || Below(b, a)
  {
    if a != [] && b != [] && a[0] == b[0] {
      BelowTotal(a[1..], b[1..]);
      assert a == [a[0]] + a[1..] && b == [b[0]] + b[1..];
    }
  }

  /** The items of r have strictly ascending names. */
  ghost predicate Ascending(r: seq<Entry>)
  {
    forall i, j :: 0 <= i < j < |r| ==> Below(r[i].name, r[j].name)
  }

  lemma AscendingCons(e: Entry, s: seq<Entry>)
    ensures Ascending([e] + s) <==> (forall t :: t in s ==> Below(e.name, t.name)) && Ascending(s)
  {
    var r := [e] + s;
    if Ascending(r) {
      forall t | t in s ensures Below(e.name, t.name) {
        var k :| 0 <= k < |s| && s[k] == t;
        assert r[0] == e && r[k + 1] == t;
      }
      forall i, j | 0 <= i < j < |s| ensures Below(s[i].name, s[j].name) {
        assert r[i + 1] == s[i] && r[j + 1] == s[j];
      }
    }
    if (forall t :: t in s ==> Below(e.name, t.name)) && Ascending(s) {
      forall i, j | 0 <= i < j < |r| ensures Below(r[i].name, r[j].name) {
        if i == 0 {
          assert r[j] == s[j - 1];
        } else {
          assert r[i] == s[i - 1] && r[j] == s[j - 1];
        }
      }
    }
  }

  /** Places e before the first item whose name is above e's. */
  function InsertByName(e: Entry, s: seq<Entry>): (r: seq<Entry>)
    ensures |r| == |s| + 1
    ensures multiset(r) == multiset(s) + multiset{e}
    ensures Total(r) == Total(s) + e.count
  {
    if s == [] then [e]
    else if Below(e.name, s[0].name) then [e] + s
    else
      assert s == [s[0]] + s[1..];
      [s[0]] + InsertByName(e, s[1..])
  }

  /** `sorted(counter.items())`. */
  function SortByName(c: seq<Entry>): (r: seq<Entry>)
    ensures |r| == |c|
    ensures multiset(r) == multiset(c)
    ensures Total(r) == Total(c)
  {
    if c == [] then []
    else
      assert c == [c[0]] + c[1..];
      InsertByName(c[0], SortByName(c[1..]))
  }

  lemma {:induction false} InsertByNameAscending(e: Entry, s: seq<Entry>)
    requires Ascending(s)
    requires forall t :: t in s ==> t.name != e.name
    ensures Ascending(InsertByName(e, s))
  {
    if s == [] {
    } else if Below(e.name, s[0].name) {
      forall t | t in s ensures Below(e.name, t.name) {
        var k :| 0 <= k < |s| && s[k] == t;
        if k > 0 {
          BelowTransitive(e.name, s[0].name, t.name);
        }
      }
      AscendingCons(e, s);
    } else {
      assert s == [s[0]] + s[1..];
      AscendingCons(s[0], s[1..]);
      InsertByNameAscending(e, s[1..]);
      BelowTotal(e.name, s[0].name);
      var t := InsertByName(e, s[1..]);
      forall u | u in t ensures Below(s[0].name, u.name) {
        assert u in multiset(t);
        assert u == e || u in s[1..];
      }
      AscendingCons(s[0], t);
    }
  }

  /** Sorting a counter by key lists each of its items once, in strictly ascending key order. */
  lemma {:induction false} SortByNameSpec(c: seq<Entry>)
    requires DistinctNames(c)
    ensures Ascending(SortByName(c))
    ensures forall t :: t in SortByName(c) <==> t in c
  {
    forall t ensures t in SortByName(c) <==> t in c {
      assert t in SortByName(c) <==> t in multiset(SortByName(c));
    }
    if c != [] {
      var rest := c[1..];
      assert DistinctNames(rest) by {
        forall i, j | 0 <= i < j < |rest| ensures rest[i].name != rest[j].name {
          assert rest[i] == c[i + 1] && rest[j] == c[j + 1];
        }
      }
      SortByNameSpec(rest);
      forall t | t in SortByName(rest) ensures t.name != c[0].name {
        var k :| 0 <= k < |rest| && rest[k] == t;
        assert c[k + 1] == t;
      }
      InsertByNameAscending(c[0], SortByName(rest));
    }
  }
}
