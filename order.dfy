/**
 * The order in which `ORDER BY <text primary key>` lists rows (SQLite's BINARY
 * collation: character codes compared left to right, a proper prefix first),
 * and the unordered enumerations returned by queries without `ORDER BY`.
 */
module Order {

  /** Strict lexicographic order on strings by character code. */
  predicate Less(a: string, b: string)
    decreases |a|
  {
    if |a| == 0 then |b| > 0
    else |b| > 0 && (a[0] < b[0] || (a[0] == b[0] && Less(a[1..], b[1..])))
  }

  lemma {:induction false} LessIrreflexive(a: string)
    ensures !Less(a, a)
    decreases |a|
  {
    if |a| > 0 {
      LessIrreflexive(a[1..]);
    }
  }

  lemma {:induction false} LessTransitive(a: string, b: string, c: string)
    requires Less(a, b) && Less(b, c)
    ensures Less(a, c)
    decreases |a|
  {
    if |a| > 0 && a[0] == b[0] == c[0] {
      LessTransitive(a[1..], b[1..], c[1..]);
    }
  }

  /** Any two distinct strings are ordered one way or the other. */
  lemma {:induction false} LessTotal(a: string, b: string)
    requires a != b
    ensures Less(a, b) || Less(b, a)
    decreases |a|
  {
    if |a| > 0 && |b| > 0 && a[0] == b[0] {
      assert a == [a[0]] + a[1..] && b == [b[0]] + b[1..];
      LessTotal(a[1..], b[1..]);
    }
  }

  predicate StrictlySorted(xs: seq<string>) {
    forall i, j :: 0 <= i < j < |xs| ==> Less(xs[i], xs[j])
  }

  /** Inserts a new key at its place in a strictly sorted sequence. */
  function InsertSorted(xs: seq<string>, x: string): (r: seq<string>)
    requires StrictlySorted(xs) && x !in xs
    ensures StrictlySorted(r)
    ensures |r| == |xs| + 1
    ensures forall y :: y in r <==> y in xs || y == x
  {
    if |xs| == 0 then
      [x]
    else if Less(x, xs[0]) then
      LessThanAll(x, xs);
      [x] + xs
    else
      LessTotal(x, xs[0]);
      var rest := InsertSorted(xs[1..], x);
      assert forall y :: y in rest ==> Less(xs[0], y);
      [xs[0]] + rest
  }

  lemma LessThanAll(x: string, xs: seq<string>)
    requires StrictlySorted(xs) && |xs| > 0 && Less(x, xs[0])
    ensures forall j :: 0 <= j < |xs| ==> Less(x, xs[j])
  {
    forall j | 0 < j < |xs|
      ensures Less(x, xs[j])
    {
      LessTransitive(x, xs[0], xs[j]);
    }
  }

  /** A strictly sorted sequence is determined by its elements: the order in
      which `ORDER BY` lists a table is unique. */
  lemma {:induction false} SortedUnique(xs: seq<string>, ys: seq<string>)
    requires StrictlySorted(xs) && StrictlySorted(ys)
    requires forall y :: y in xs <==> y in ys
    ensures xs == ys
    decreases |xs|
  {
    assert xs != [] ==> xs[0] in ys;
    assert ys != [] ==> ys[0] in xs;
    if |xs| > 0 && |ys| > 0 {
      if xs[0] != ys[0] {
        var i :| 0 <= i < |ys| && ys[i] == xs[0];
        var j :| 0 <= j < |xs| && xs[j] == ys[0];
        assert i > 0 && j > 0;
        LessTransitive(xs[0], xs[j], xs[0]);
        LessIrreflexive(xs[0]);
      }
      forall y
        ensures y in xs[1..] <==> y in ys[1..]
      {
        assert xs == [xs[0]] + xs[1..] && ys == [ys[0]] + ys[1..];
        if y in xs[1..] {
          var j :| 1 <= j < |xs| && xs[j] == y;
          assert Less(xs[0], y);
          LessIrreflexive(y);
          assert y in ys && y != ys[0];
        }
        if y in ys[1..] {
          var j :| 1 <= j < |ys| && ys[j] == y;
          assert Less(ys[0], y);
          LessIrreflexive(y);
          assert y in xs && y != xs[0];
        }
      }
      SortedUnique(xs[1..], ys[1..]);
    }
  }

  /** The keys of a table in ascending order, each exactly once. */
  method SortedKeys(keys: set<string>) returns (xs: seq<string>)
    ensures StrictlySorted(xs)
    ensures forall y :: y in xs <==> y in keys
  {
    xs := [];
    var rest := keys;
    while rest != {}
      invariant rest <= keys
      invariant StrictlySorted(xs)
      invariant forall y :: y in xs <==> y in keys - rest
      decreases |rest|
    {
      var x :| x in rest;
      xs := InsertSorted(xs, x);
      rest := rest - {x};
    }
  }

  /** `xs` lists the elements of `s`, each exactly once, in some order. */
  ghost predicate Enumerates(xs: seq<string>, s: set<string>) {
    && (forall i, j :: 0 <= i < j < |xs| ==> xs[i] != xs[j])
    && (forall x :: x in xs <==> x in s)
  }

  /** The rows of an unordered query: every element once, order unspecified. */
  method Enumerate(s: set<string>) returns (xs: seq<string>)
    ensures Enumerates(xs, s)
  {
    xs := [];
    var rest := s;
    while rest != {}
      invariant rest <= s
      invariant forall i, j :: 0 <= i < j < |xs| ==> xs[i] != xs[j]
      invariant forall x :: x in xs <==> x in s - rest
      decreases |rest|
    {
      var x :| x in rest;
      assert x !in xs;
      xs := xs + [x];
      rest := rest - {x};
    }
  }
}
