/**
 * The order on text used by SQLite's `ORDER BY` on a TEXT column (BINARY
 * collation) and by Python's `sorted` on `str`: lexicographic by code point.
 * Sorting a collection of keys into a duplicate-free ascending sequence is
 * what `GROUP BY`, `DISTINCT ... ORDER BY` and pandas `groupby` produce.
 */
module StringOrder {

  predicate Less(a: string, b: string)
    decreases |a|
  {
    if |a| == 0 then |b| > 0
    else if |b| == 0 then false
    else a[0] < b[0] || (a[0] == b[0] && Less(a[1..], b[1..]))
  }

  lemma {:induction false} LessIrreflexive(a: string)
    ensures !Less(a, a)
  {
    if |a| > 0 {
      LessIrreflexive(a[1..]);
    }
  }

  lemma {:induction false} LessTransitive(a: string, b: string, c: string)
    requires Less(a, b) && Less(b, c)
    ensures Less(a, c)
    decreases |a|
  {
    if |a| > 0 && a[0] == b[0] && b[0] == c[0] {
      LessTransitive(a[1..], b[1..], c[1..]);
    }
  }

  lemma {:induction false} LessTotal(a: string, b: string)
    requires a != b
    ensures Less(a, b) || Less(b, a)
    decreases |a|
  {
    if |a| > 0 && |b| > 0 && a[0] == b[0] {
      assert a == [a[0]] + a[1..] && b == [b[0]] + b[1..];
      LessTotal(a[1..], b[1..]);
    }
  }

  predicate Ascending(xs: seq<string>) {
    forall i, j :: 0 <= i < j < |xs| ==> Less(xs[i], xs[j])
  }

  predicate Descending(xs: seq<string>) {
    forall i, j :: 0 <= i < j < |xs| ==> Less(xs[j], xs[i])
  }

  /** Adds `k` to an ascending duplicate-free sequence, keeping it so. */
  function Insert(xs: seq<string>, k: string): (r: seq<string>)
    requires Ascending(xs)
    ensures Ascending(r)
    ensures forall x :: x in r <==> x in xs || x == k
  {
    if |xs| == 0 then [k]
    else if k == xs[0] then xs
    else if Less(k, xs[0]) then
      assert forall j :: 0 < j < |xs| ==> Less(k, xs[j]) by {
        forall j | 0 < j < |xs| { LessTransitive(k, xs[0], xs[j]); }
      }
      [k] + xs
    else
      LessTotal(k, xs[0]);
      var tail := Insert(xs[1..], k);
      assert forall x :: x in tail ==> Less(xs[0], x);
      [xs[0]] + tail
  }

  /** The distinct keys, ascending. */
  function SortedSet(keys: seq<string>): (r: seq<string>)
    ensures Ascending(r)
    ensures forall x :: x in r <==> x in keys
  {
    if |keys| == 0 then []
    else
      var r := Insert(SortedSet(keys[..|keys| - 1]), keys[|keys| - 1]);
      assert forall x :: x in keys <==> x in keys[..|keys| - 1] || x == keys[|keys| - 1] by {
        assert keys == keys[..|keys| - 1] + [keys[|keys| - 1]];
      }
      r
  }

  function Reverse(xs: seq<string>): (r: seq<string>)
    ensures |r| == |xs|
    ensures forall i :: 0 <= i < |xs| ==> r[i] == xs[|xs| - 1 - i]
  {
    if |xs| == 0 then [] else Reverse(xs[1..]) + [xs[0]]
  }

  /** Reversing an ascending sequence yields a descending one with the same elements. */
  lemma ReverseAscending(xs: seq<string>)
    requires Ascending(xs)
    ensures Descending(Reverse(xs))
    ensures forall x :: x in Reverse(xs) <==> x in xs
  {
    var r := Reverse(xs);
    forall x | x in xs ensures x in r {
      var i :| 0 <= i < |xs| && xs[i] == x;
      assert r[|xs| - 1 - i] == x;
    }
  }
}
