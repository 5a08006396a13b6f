/** The guard ratchet of `check-guard-drift.ts`: current violations against a checked-in baseline, as multisets
    of violation keys. */
module GuardDrift {
  import opened Counters

  datatype Violation = Violation(rule: string, file: string, reason: string)

  function Key(v: Violation): string {
    v.rule + "|" + v.file + "|" + v.reason
  }

  function Count(list: seq<Violation>, key: string): nat {
    if list == [] then 0
    else Count(list[..|list| - 1], key) + if Key(list[|list| - 1]) == key then 1 else 0
  }

  /** The occurrences in `list` beyond what `allowance` holds of their key: those that as many equal keys precede. */
  function Beyond(list: seq<Violation>, allowance: seq<Violation>): seq<Violation> {
    if list == [] then []
    else
      var front, last := list[..|list| - 1], list[|list| - 1];
      Beyond(front, allowance) + if Count(front, Key(last)) >= Count(allowance, Key(last)) then [last] else []
  }

  /** How far m exceeds n. */
  function Excess(m: nat, n: nat): nat {
    if m > n then m - n else 0
  }

  function Min(m: nat, n: nat): nat {
    if m < n then m else n
  }

  /* ---- the diff as the code runs it ---- */

  lemma CountNext(list: seq<Violation>, i: nat)
    requires i < |list|
    ensures forall key :: Count(list[..i + 1], key) == Count(list[..i], key) + if Key(list[i]) == key then 1 else 0
  {
    assert list[..i + 1][..i] == list[..i];
  }

  method CountByKey(violations: seq<Violation>) returns (counts: map<string, nat>)
    ensures forall key :: At(counts, key) == Count(violations, key)
  {
    counts := map[];
    var i := 0;
    while i < |violations|
      invariant 0 <= i <= |violations|
      invariant forall key :: At(counts, key) == Count(violations[..i], key)
    {
      var key := Key(violations[i]);
      assert violations[..i + 1][..i] == violations[..i];
      counts := counts[key := At(counts, key) + 1];
      i := i + 1;
    }
    assert violations[..i] == violations;
  }

  /** One direction of the diff: walk a list, consuming the other side's count of each key. */
  method Surplus(list: seq<Violation>, allowance: seq<Violation>) returns (surplus: seq<Violation>)
    ensures surplus == Beyond(list, allowance)
  {
    var allowed := CountByKey(allowance);
    var consumed: map<string, nat> := map[];
    surplus := [];
    var i := 0;
    while i < |list|
      invariant 0 <= i <= |list|
      invariant surplus == Beyond(list[..i], allowance)
      invariant Consumed(consumed, list[..i], allowance)
    {
      var key := Key(list[i]);
      ConsumedNext(consumed, list, i, allowance);
      if At(consumed, key) >= At(allowed, key) {
        surplus := surplus + [list[i]];
      } else {
        consumed := consumed[key := At(consumed, key) + 1];
      }
      i := i + 1;
    }
    assert list[..i] == list;
  }

  ghost predicate Consumed(consumed: map<string, nat>, list: seq<Violation>, allowance: seq<Violation>) {
    forall key :: At(consumed, key) == Min(Count(list, key), Count(allowance, key))
  }

  lemma ConsumedNext(consumed: map<string, nat>, list: seq<Violation>, i: nat, allowance: seq<Violation>)
    requires i < |list| && Consumed(consumed, list[..i], allowance)
    ensures var key := Key(list[i]);
            if At(consumed, key) >= Count(allowance, key)
            then Beyond(list[..i + 1], allowance) == Beyond(list[..i], allowance) + [list[i]]
              && Consumed(consumed, list[..i + 1], allowance)
            else Beyond(list[..i + 1], allowance) == Beyond(list[..i], allowance)
                 && Consumed(consumed[key := At(consumed, key) + 1], list[..i + 1], allowance)
  {
    var key := Key(list[i]);
    CountNext(list, i);
    assert list[..i + 1][..i] == list[..i];
    assert At(consumed, key) == Min(Count(list[..i], key), Count(allowance, key));
  }

  method DiffAgainstBaseline(baseline: seq<Violation>, current: seq<Violation>)
    returns (added: seq<Violation>, removed: seq<Violation>)
    ensures added == Beyond(current, baseline) && removed == Beyond(baseline, current)
  {
    added := Surplus(current, baseline);
    removed := Surplus(baseline, current);
  }

  /* ---- the diff is exact multiset subtraction ---- */

  lemma {:induction false} CountConcat(a: seq<Violation>, b: seq<Violation>, key: string)
    ensures Count(a + b, key) == Count(a, key) + Count(b, key)
  {
    if b == [] {
      assert a + b == a;
    } else {
      assert (a + b)[..|a + b| - 1] == a + b[..|b| - 1];
      CountConcat(a, b[..|b| - 1], key);
    }
  }

  /** What the last violation of a list adds to its surplus. */
  lemma LastBeyond(list: seq<Violation>, allowance: seq<Violation>)
    requires list != []
    ensures var front, last := list[..|list| - 1], list[|list| - 1];
            Beyond(list, allowance)
            == Beyond(front, allowance) + if Count(front, Key(last)) >= Count(allowance, Key(last)) then [last] else []
  {
  }

  lemma CountSnoc(list: seq<Violation>, v: Violation, key: string)
    ensures Count(list + [v], key) == Count(list, key) + if Key(v) == key then 1 else 0
  {
    assert (list + [v])[..|list|] == list;
  }

  /** Per key, exactly the count beyond the allowance. */
  lemma {:induction false} SurplusCount(list: seq<Violation>, allowance: seq<Violation>, key: string)
    ensures Count(Beyond(list, allowance), key) == Excess(Count(list, key), Count(allowance, key))
  {
    if list != [] {
      var front, last := list[..|list| - 1], list[|list| - 1];
      var before := Beyond(front, allowance);
      SurplusCount(front, allowance, key);
      LastBeyond(list, allowance);
      assert list == front + [last];
      CountSnoc(front, last, key);
      if Count(front, Key(last)) >= Count(allowance, Key(last)) {
        assert Beyond(list, allowance) == before + [last];
        CountSnoc(before, last, key);
      } else {
        assert Beyond(list, allowance) == before;
      }
    }
  }

  /** Both directions at once: added and removed are the two differences, and the books balance. */
  lemma DiffBalances(baseline: seq<Violation>, current: seq<Violation>, key: string)
    ensures var added, removed := Beyond(current, baseline), Beyond(baseline, current);
            && Count(added, key) == Excess(Count(current, key), Count(baseline, key))
            && Count(removed, key) == Excess(Count(baseline, key), Count(current, key))
            && Count(baseline, key) + Count(added, key) == Count(current, key) + Count(removed, key)
            && (Count(added, key) == 0 || Count(removed, key) == 0)
  {
    SurplusCount(current, baseline, key);
    SurplusCount(baseline, current, key);
  }

  lemma {:induction false} NoCountNoElement(list: seq<Violation>)
    requires forall key :: Count(list, key) == 0
    ensures list == []
  {
    if list != [] {
      assert Count(list, Key(list[|list| - 1])) > 0;
    }
  }

  lemma {:induction false} CountOfPrefix(list: seq<Violation>, i: nat, key: string)
    requires i <= |list|
    ensures Count(list[..i], key) <= Count(list, key)
  {
    assert list == list[..i] + list[i..];
    CountConcat(list[..i], list[i..], key);
  }

  /** Two allowances that agree up to what the list itself holds leave the same surplus. */
  lemma {:induction false} SurplusDependsOnSharedCounts(whole: seq<Violation>, n: nat, a: seq<Violation>,
                                                        b: seq<Violation>)
    requires n <= |whole|
    requires forall key :: Min(Count(a, key), Count(whole, key)) == Min(Count(b, key), Count(whole, key))
    ensures Beyond(whole[..n], a) == Beyond(whole[..n], b)
  {
    if n > 0 {
      var front, last := whole[..n - 1], whole[n - 1];
      assert whole[..n][..n - 1] == front;
      SurplusDependsOnSharedCounts(whole, n - 1, a, b);
      CountOfPrefix(whole, n, Key(last));
      assert Count(whole[..n], Key(last)) == Count(front, Key(last)) + 1;
    }
  }

  /** Deleting the removed entries from the baseline, in any order, leaves the added violations as they were
      and nothing more to remove. */
  lemma PruningSettles(baseline: seq<Violation>, current: seq<Violation>, pruned: seq<Violation>)
    requires forall key :: Count(pruned, key) == Count(baseline, key) - Count(Beyond(baseline, current), key)
    ensures Beyond(current, pruned) == Beyond(current, baseline)
    ensures Beyond(pruned, current) == []
  {
    forall key ensures Count(pruned, key) == Min(Count(baseline, key), Count(current, key)) {
      SurplusCount(baseline, current, key);
    }
    assert current[..|current|] == current;
    SurplusDependsOnSharedCounts(current, |current|, pruned, baseline);
    forall key ensures Count(Beyond(pruned, current), key) == 0 {
      SurplusCount(pruned, current, key);
    }
    NoCountNoElement(Beyond(pruned, current));
  }

  /** The added violations are the last occurrences: the k-th occurrence of a key is added exactly when k
      exceeds the allowance. */
  lemma {:induction false} SurplusIsTheTail(list: seq<Violation>, allowance: seq<Violation>, n: nat)
    requires n < |list|
    ensures var before, through := Beyond(list[..n], allowance), Beyond(list[..n + 1], allowance);
            through == before + if Count(list[..n + 1], Key(list[n])) > Count(allowance, Key(list[n])) then [list[n]]
              else []
    ensures Beyond(list[..n], allowance) <= Beyond(list, allowance)
    decreases |list|
  {
    assert list[..n + 1][..n] == list[..n];
    if n + 1 == |list| {
      assert list[..n + 1] == list;
    } else {
      var front := list[..|list| - 1];
      SurplusIsTheTail(front, allowance, n);
      assert front[..n] == list[..n] && front[..n + 1] == list[..n + 1];
    }
  }

  /* ---- keys and violations ---- */

  /** Do keys tell the violations of a set apart? */
  ghost predicate KeysTellApart(violations: set<Violation>) {
    forall v, w :: v in violations && w in violations && Key(v) == Key(w) ==> v == w
  }

  ghost predicate Over(list: seq<Violation>, violations: set<Violation>) {
    forall v :: v in list ==> v in violations
  }

  lemma {:induction false} CountIsMultiplicity(list: seq<Violation>, violations: set<Violation>, v: Violation)
    requires KeysTellApart(violations) && Over(list, violations) && v in violations
    ensures Count(list, Key(v)) == multiset(list)[v]
  {
    if list != [] {
      var front, last := list[..|list| - 1], list[|list| - 1];
      assert list == front + [last];
      assert last in list && forall w :: w in front ==> w in list;
      CountIsMultiplicity(front, violations, v);
    }
  }

  lemma {:induction false} SurplusIsOver(list: seq<Violation>, allowance: seq<Violation>)
    ensures forall v :: v in Beyond(list, allowance) ==> v in list
  {
    if list != [] {
      SurplusIsOver(list[..|list| - 1], allowance);
    }
  }

  /** The diff is exact for every violation, not just every key, exactly when keys tell the violations apart. */
  lemma ExactIffKeysTellApart(violations: set<Violation>)
    ensures KeysTellApart(violations) <==>
            forall baseline, current, v :: Over(baseline, violations) && Over(current, violations) && v in violations
              ==> multiset(Beyond(current, baseline))[v] == Excess(multiset(current)[v], multiset(baseline)[v])
  {
    if KeysTellApart(violations) {
      forall baseline, current, v | Over(baseline, violations) && Over(current, violations) && v in violations
        ensures multiset(Beyond(current, baseline))[v] == Excess(multiset(current)[v], multiset(baseline)[v])
      {
        SurplusIsOver(current, baseline);
        SurplusCount(current, baseline, Key(v));
        CountIsMultiplicity(current, violations, v);
        CountIsMultiplicity(baseline, violations, v);
        CountIsMultiplicity(Beyond(current, baseline), violations, v);
      }
    } else {
      var v, w :| v in violations && w in violations && Key(v) == Key(w) && v != w;
      SharedKeyHides(v, w);
      assert Over([v], violations) && Over([w], violations);
    }
  }

  /** A baseline entry for one violation hides a different violation with the same key. */
  lemma SharedKeyHides(v: Violation, w: Violation)
    requires Key(v) == Key(w) && v != w
    ensures Beyond([w], [v]) == []
    ensures multiset(Beyond([w], [v]))[w] != Excess(multiset([w])[w], multiset([v])[w])
  {
    assert [w][..0] == [] && [v][..0] == [];
    assert Count([v], Key(w)) == 1;
  }

  lemma FirstBarSplits(a: string, x: string, b: string, y: string)
    requires a + "|" + x == b + "|" + y && '|' !in a && '|' !in b
    ensures a == b && x == y
  {
    var s := a + "|" + x;
    assert s[|a|] == '|' && s[|b|] == '|';
    forall j | 0 <= j < |a| ensures s[j] != '|' {
      assert s[j] == a[j];
    }
    forall j | 0 <= j < |b| ensures s[j] != '|' {
      assert s[j] == b[j];
    }
    assert a == s[..|a|] && b == s[..|b|] && x == s[|a| + 1..] && y == s[|b| + 1..];
  }

  /** Keys do tell violations apart as long as no rule and no file name contains a bar; reasons may. */
  lemma BarFreeKeysTellApart(violations: set<Violation>)
    requires forall v :: v in violations ==> '|' !in v.rule && '|' !in v.file
    ensures KeysTellApart(violations)
  {
    forall v, w | v in violations && w in violations && Key(v) == Key(w) ensures v == w {
      assert Key(v) == v.rule + "|" + (v.file + "|" + v.reason);
      assert Key(w) == w.rule + "|" + (w.file + "|" + w.reason);
      FirstBarSplits(v.rule, v.file + "|" + v.reason, w.rule, w.file + "|" + w.reason);
      FirstBarSplits(v.file, v.reason, w.file, w.reason);
    }
  }

  /** A bar in a file name can make two violations share a key. */
  lemma BarCanHideAViolation(known: Violation, novel: Violation)
    requires known == Violation("R5", "a|b", "c") && novel == Violation("R5", "a", "b|c")
    ensures known != novel && Beyond([novel], [known]) == []
  {
    assert Key(known) == "R5|a|b|c" == Key(novel);
    assert known.file != novel.file;
    SharedKeyHides(known, novel);
  }
}
