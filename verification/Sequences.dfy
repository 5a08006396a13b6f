/** Sequences and sets: filtering, concatenating, distinct elements and sizes. */
module Sequences {
  ghost predicate Distinct<T>(p: seq<T>) {
    forall i, j :: 0 <= i < j < |p| ==> p[i] != p[j]
  }

  lemma SubsetIsSmaller<T>(a: set<T>, b: set<T>)
    requires a <= b
    ensures |a| <= |b|
  {
    assert b == a + (b - a);
  }

  lemma Regroup<T>(a: seq<T>, b: seq<T>, c: seq<T>)
    ensures (a + b) + c == a + (b + c)
  {
  }

  /** Appending one more element of xs. */
  lemma AppendNext<T>(before: seq<T>, xs: seq<T>, i: nat)
    requires i < |xs|
    ensures before + xs[..i + 1] == (before + xs[..i]) + [xs[i]]
  {
    assert xs[..i + 1] == xs[..i] + [xs[i]];
  }

  /* ---- filters ---- */

  function Filter<T>(xs: seq<T>, keep: T -> bool): seq<T> {
    if xs == [] then [] else (if keep(xs[0]) then [xs[0]] else []) + Filter(xs[1..], keep)
  }

  lemma FilterFirst<T>(x: T, rest: seq<T>, keep: T -> bool)
    ensures Filter([x] + rest, keep) == (if keep(x) then [x] else []) + Filter(rest, keep)
  {
    assert ([x] + rest)[1..] == rest;
  }

  lemma {:induction false} FilterMember<T>(xs: seq<T>, keep: T -> bool)
    ensures forall x :: x in Filter(xs, keep) <==> x in xs && keep(x)
  {
    if xs != [] {
      FilterMember(xs[1..], keep);
    }
  }

  lemma {:induction false} FilterConcat<T>(a: seq<T>, b: seq<T>, keep: T -> bool)
    ensures Filter(a + b, keep) == Filter(a, keep) + Filter(b, keep)
  {
    if a == [] {
      assert a + b == b;
    } else {
      var x, rest := a[0], a[1..];
      FilterConcat(rest, b, keep);
      assert a + b == [x] + (rest + b) && a == [x] + rest;
      FilterFirst(x, rest + b, keep);
      FilterFirst(x, rest, keep);
      Regroup(if keep(x) then [x] else [], Filter(rest, keep), Filter(b, keep));
    }
  }

  lemma {:induction false} FilterDistinct<T>(xs: seq<T>, keep: T -> bool)
    requires Distinct(xs)
    ensures Distinct(Filter(xs, keep))
  {
    if xs != [] {
      FilterDistinct(xs[1..], keep);
      FilterMember(xs[1..], keep);
    }
  }

  /** What survives the filter and stood before a survivor still stands before it. */
  lemma FilterKeepsBefore<T>(xs: seq<T>, keep: T -> bool, i: nat, j: nat, x: T)
    requires Distinct(xs) && i < |xs| && j < |Filter(xs, keep)| && Filter(xs, keep)[j] == xs[i]
    requires x in xs[..i] && keep(x)
    ensures x in Filter(xs, keep)[..j]
  {
    var before, after := xs[..i], xs[i + 1..];
    var kept := Filter(before, keep);
    assert xs == before + ([xs[i]] + after);
    FilterConcat(before, [xs[i]] + after, keep);
    FilterMember(xs, keep);
    FilterFirst(xs[i], after, keep);
    assert Filter(xs, keep)[|kept|] == xs[i];
    FilterDistinct(xs, keep);
    assert j == |kept|;
    FilterMember(before, keep);
  }

  lemma KeptIsThere<T>(xs: seq<T>, keep: T -> bool, x: T)
    requires x in Filter(xs, keep)
    ensures x in xs && keep(x)
  {
    FilterMember(xs, keep);
  }

  /** Survivors keep their order. */
  lemma {:induction false} FilterOrder<T>(xs: seq<T>, keep: T -> bool, a: nat, b: nat)
    requires a < b < |Filter(xs, keep)|
    ensures exists i, j :: 0 <= i < j < |xs| && xs[i] == Filter(xs, keep)[a] && xs[j] == Filter(xs, keep)[b]
  {
    var rest := xs[1..];
    var later := Filter(rest, keep);
    if keep(xs[0]) && a == 0 {
      var x := later[b - 1];
      KeptIsThere(rest, keep, x);
      var j :| 0 <= j < |rest| && rest[j] == later[b - 1];
      assert xs[0] == Filter(xs, keep)[0] && xs[j + 1] == Filter(xs, keep)[b];
    } else {
      var shift := if keep(xs[0]) then 1 else 0;
      FilterOrder(rest, keep, a - shift, b - shift);
      var i, j :| 0 <= i < j < |rest| && rest[i] == later[a - shift] && rest[j] == later[b - shift];
      assert xs[i + 1] == rest[i] && xs[j + 1] == rest[j];
    }
  }

  lemma {:induction false} FilterTwice<T(!new)>(xs: seq<T>, p: T -> bool, q: T -> bool, both: T -> bool)
    requires forall x :: both(x) <==> p(x) && q(x)
    ensures Filter(Filter(xs, p), q) == Filter(xs, both)
  {
    if xs != [] {
      FilterTwice(xs[1..], p, q, both);
      FilterConcat(if p(xs[0]) then [xs[0]] else [], Filter(xs[1..], p), q);
    }
  }

  lemma {:induction false} FilterAgrees<T>(xs: seq<T>, p: T -> bool, q: T -> bool)
    requires forall x :: x in xs ==> p(x) == q(x)
    ensures Filter(xs, p) == Filter(xs, q)
  {
    if xs != [] {
      FilterAgrees(xs[1..], p, q);
    }
  }

  lemma {:induction false} KeepNone<T>(xs: seq<T>, keep: T -> bool)
    requires forall x :: x in xs ==> !keep(x)
    ensures Filter(xs, keep) == []
  {
    if xs != [] {
      KeepNone(xs[1..], keep);
    }
  }

  lemma {:induction false} KeepAll<T>(xs: seq<T>, keep: T -> bool)
    requires forall x :: x in xs ==> keep(x)
    ensures Filter(xs, keep) == xs
  {
    if xs != [] {
      KeepAll(xs[1..], keep);
    }
  }

  lemma DropFilter<T(!new)>(xs: seq<T>, k: nat, keep: T -> bool)
    requires Distinct(xs) && k <= |xs| && forall x :: keep(x) <==> x !in xs[..k]
    ensures Filter(xs, keep) == xs[k..]
  {
    assert xs == xs[..k] + xs[k..];
    FilterConcat(xs[..k], xs[k..], keep);
    KeepNone(xs[..k], keep);
    KeepAll(xs[k..], keep);
  }

  /* ---- flattening ---- */

  function FlatMap<A, B>(xs: seq<A>, f: A -> seq<B>): seq<B> {
    if xs == [] then [] else f(xs[0]) + FlatMap(xs[1..], f)
  }

  lemma {:induction false} AllEmptyFlatMap<A, B>(xs: seq<A>, f: A -> seq<B>)
    requires forall x :: x in xs ==> f(x) == []
    ensures FlatMap(xs, f) == []
  {
    if xs != [] {
      AllEmptyFlatMap(xs[1..], f);
    }
  }

  lemma {:induction false} FlatMapEmpty<A, B>(xs: seq<A>, f: A -> seq<B>, x: A)
    requires FlatMap(xs, f) == [] && x in xs
    ensures f(x) == []
  {
    if x != xs[0] {
      assert xs == [xs[0]] + xs[1..];
      FlatMapEmpty(xs[1..], f, x);
    }
  }
}
