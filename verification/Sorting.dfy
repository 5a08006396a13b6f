/** The standard library's stable `sort` followed by `find`, as the guards use it to pick a most specific
    candidate: the first element, in the original order, that no other candidate precedes. */
module Sorting {
  import opened Options
  import opened Sequences

  /** `before(x, y)`: the comparator puts x strictly ahead of y. */
  ghost predicate StrictWeakOrder<T(!new)>(before: (T, T) -> bool) {
    && (forall x :: !before(x, x))
    && (forall x, y :: before(x, y) ==> !before(y, x))
    && (forall x, y, z :: !before(x, y) && !before(y, z) ==> !before(x, z))
  }

  function Insert<T>(x: T, ys: seq<T>, before: (T, T) -> bool): seq<T> {
    if ys == [] || !before(ys[0], x) then [x] + ys else [ys[0]] + Insert(x, ys[1..], before)
  }

  function StableSort<T>(xs: seq<T>, before: (T, T) -> bool): seq<T> {
    if xs == [] then [] else Insert(xs[0], StableSort(xs[1..], before), before)
  }

  function Find<T>(xs: seq<T>, p: T -> bool): Option<T> {
    if xs == [] then None else if p(xs[0]) then Some(xs[0]) else Find(xs[1..], p)
  }

  /** Read from the left: a candidate wins unless a later winner strictly precedes it. */
  function Best<T>(xs: seq<T>, before: (T, T) -> bool, p: T -> bool): Option<T> {
    if xs == [] then None
    else
      var rest := Best(xs[1..], before, p);
      if p(xs[0]) && (rest.None? || !before(rest.value, xs[0])) then Some(xs[0]) else rest
  }

  ghost predicate Sorted<T>(xs: seq<T>, before: (T, T) -> bool) {
    forall i, j :: 0 <= i < j < |xs| ==> !before(xs[j], xs[i])
  }

  /** x is a candidate that no candidate precedes. */
  ghost predicate Maximal<T>(xs: seq<T>, before: (T, T) -> bool, p: T -> bool, x: T) {
    x in xs && p(x) && forall y :: y in xs && p(y) ==> !before(y, x)
  }

  lemma {:induction false} InsertMembers<T>(x: T, ys: seq<T>, before: (T, T) -> bool)
    ensures forall z :: z in Insert(x, ys, before) <==> z == x || z in ys
  {
    if ys != [] && before(ys[0], x) {
      InsertMembers(x, ys[1..], before);
      assert ys == [ys[0]] + ys[1..];
    }
  }

  lemma {:induction false} InsertKeepsSorted<T(!new)>(x: T, ys: seq<T>, before: (T, T) -> bool)
    requires StrictWeakOrder(before) && Sorted(ys, before)
    ensures Sorted(Insert(x, ys, before), before)
  {
    if ys != [] && before(ys[0], x) {
      InsertKeepsSorted(x, ys[1..], before);
      InsertMembers(x, ys[1..], before);
      var tail := Insert(x, ys[1..], before);
      forall j | 0 <= j < |tail| ensures !before(tail[j], ys[0]) {
        assert tail[j] in tail;
      }
    } else if ys != [] {
      forall j | 0 <= j < |ys| ensures !before(ys[j], x) {
      }
    }
  }

  lemma {:induction false} FindInsert<T(!new)>(x: T, ys: seq<T>, before: (T, T) -> bool, p: T -> bool)
    requires StrictWeakOrder(before) && Sorted(ys, before)
    ensures var found := Find(ys, p);
            Find(Insert(x, ys, before), p) == if p(x) && (found.None? || !before(found.value, x)) then Some(x)
              else found
  {
    if ys != [] && before(ys[0], x) {
      FindInsert(x, ys[1..], before, p);
    } else if ys != [] {
      FindPosition(ys, p);
      assert ([x] + ys)[1..] == ys;
    }
  }

  /** The first element with the property stands at position i. */
  ghost predicate FirstAt<T>(xs: seq<T>, p: T -> bool, i: nat) {
    i < |xs| && p(xs[i]) && forall j :: 0 <= j < i ==> !p(xs[j])
  }

  lemma {:induction false} FindAt<T>(xs: seq<T>, p: T -> bool, i: nat)
    requires FirstAt(xs, p, i)
    ensures Find(xs, p) == Some(xs[i])
  {
    if i > 0 {
      assert !p(xs[0]);
      assert forall j :: 0 <= j < |xs| - 1 ==> xs[1..][j] == xs[j + 1];
      FindAt(xs[1..], p, i - 1);
    }
  }

  lemma {:induction false} FindIndex<T>(xs: seq<T>, p: T -> bool) returns (i: nat)
    requires Find(xs, p).Some?
    ensures FirstAt(xs, p, i) && xs[i] == Find(xs, p).value
  {
    if p(xs[0]) {
      i := 0;
    } else {
      var k := FindIndex(xs[1..], p);
      i := k + 1;
      forall j | 0 <= j < i ensures !p(xs[j]) {
        if j > 0 {
          assert xs[1..][j - 1] == xs[j];
        }
      }
    }
  }

  lemma {:induction false} FindPosition<T>(ys: seq<T>, p: T -> bool)
    ensures Find(ys, p).Some? ==> exists j :: 0 <= j < |ys| && ys[j] == Find(ys, p).value
  {
    if ys != [] && !p(ys[0]) {
      FindPosition(ys[1..], p);
      if Find(ys, p).Some? {
        var j :| 0 <= j < |ys[1..]| && ys[1..][j] == Find(ys, p).value;
        assert ys[j + 1] == Find(ys, p).value;
      }
    }
  }

  /** Sorting and then searching from the front finds exactly the leftmost winner. */
  lemma {:induction false} SortThenFind<T(!new)>(xs: seq<T>, before: (T, T) -> bool, p: T -> bool)
    requires StrictWeakOrder(before)
    ensures Sorted(StableSort(xs, before), before)
    ensures Find(StableSort(xs, before), p) == Best(xs, before, p)
  {
    if xs != [] {
      SortThenFind(xs[1..], before, p);
      InsertKeepsSorted(xs[0], StableSort(xs[1..], before), before);
      FindInsert(xs[0], StableSort(xs[1..], before), before, p);
    }
  }

  /* ---- the sort is a permutation and stable ---- */

  lemma {:induction false} InsertAdds<T>(x: T, ys: seq<T>, before: (T, T) -> bool)
    ensures multiset(Insert(x, ys, before)) == multiset{x} + multiset(ys)
  {
    if ys != [] && before(ys[0], x) {
      InsertAdds(x, ys[1..], before);
      assert ys == [ys[0]] + ys[1..];
    }
  }

  lemma {:induction false} SortPermutes<T>(xs: seq<T>, before: (T, T) -> bool)
    ensures multiset(StableSort(xs, before)) == multiset(xs)
  {
    if xs != [] {
      SortPermutes(xs[1..], before);
      InsertAdds(xs[0], StableSort(xs[1..], before), before);
      assert xs == [xs[0]] + xs[1..];
    }
  }

  /** No element with the property precedes another. */
  ghost predicate Tied<T(!new)>(before: (T, T) -> bool, p: T -> bool) {
    forall x, y :: p(x) && p(y) ==> !before(x, y)
  }

  lemma {:induction false} InsertKeepsTies<T(!new)>(x: T, ys: seq<T>, before: (T, T) -> bool, p: T -> bool)
    requires Tied(before, p)
    ensures Filter(Insert(x, ys, before), p) == (if p(x) then [x] else []) + Filter(ys, p)
  {
    if ys != [] && before(ys[0], x) {
      var rest := Insert(x, ys[1..], before);
      InsertKeepsTies(x, ys[1..], before, p);
      FilterFirst(ys[0], rest, p);
      assert !(p(x) && p(ys[0]));
    } else {
      FilterFirst(x, ys, p);
    }
  }

  /** Elements that tie keep the order they had. */
  lemma {:induction false} SortKeepsTies<T(!new)>(xs: seq<T>, before: (T, T) -> bool, p: T -> bool)
    requires Tied(before, p)
    ensures Filter(StableSort(xs, before), p) == Filter(xs, p)
  {
    if xs != [] {
      SortKeepsTies(xs[1..], before, p);
      InsertKeepsTies(xs[0], StableSort(xs[1..], before), before, p);
    }
  }

  /** x stands at position i, and every candidate before it comes strictly after it in the order. */
  ghost predicate LeftmostWinner<T>(xs: seq<T>, before: (T, T) -> bool, p: T -> bool, x: T, i: nat) {
    i < |xs| && xs[i] == x && forall j :: 0 <= j < i && p(xs[j]) ==> before(x, xs[j])
  }

  /** The winner is the leftmost of the candidates that no candidate precedes. */
  lemma {:induction false} BestIsLeftmost<T(!new)>(xs: seq<T>, before: (T, T) -> bool, p: T -> bool)
    requires StrictWeakOrder(before)
    ensures Best(xs, before, p).Some? ==> exists i: nat :: LeftmostWinner(xs, before, p, Best(xs, before, p).value, i)
  {
    if xs != [] && Best(xs, before, p).Some? {
      var best, rest := Best(xs, before, p).value, Best(xs[1..], before, p);
      if p(xs[0]) && (rest.None? || !before(rest.value, xs[0])) {
        assert LeftmostWinner(xs, before, p, best, 0);
      } else {
        BestIsLeftmost(xs[1..], before, p);
        var i: nat :| LeftmostWinner(xs[1..], before, p, best, i);
        assert forall j :: 0 < j < |xs| ==> xs[j] == xs[1..][j - 1];
        assert LeftmostWinner(xs, before, p, best, i + 1);
      }
    }
  }

  /** The winner is a candidate no candidate precedes; there is one as soon as there is a candidate. */
  lemma {:induction false} BestIsMaximal<T(!new)>(xs: seq<T>, before: (T, T) -> bool, p: T -> bool)
    requires StrictWeakOrder(before)
    ensures var best := Best(xs, before, p);
            if best.Some? then Maximal(xs, before, p, best.value) else forall x :: x in xs ==> !p(x)
  {
    if xs != [] {
      BestIsMaximal(xs[1..], before, p);
      assert xs == [xs[0]] + xs[1..];
    }
  }

  /** A maximal candidate at the front wins. */
  lemma FrontWins<T(!new)>(x: T, xs: seq<T>, before: (T, T) -> bool, p: T -> bool)
    requires StrictWeakOrder(before) && p(x) && forall y :: y in xs && p(y) ==> !before(y, x)
    ensures Best([x] + xs, before, p) == Some(x)
  {
    assert ([x] + xs)[1..] == xs;
    BestIsMaximal(xs, before, p);
  }
}
