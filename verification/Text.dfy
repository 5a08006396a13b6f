/** The string operations the guards use: prefixes, suffixes, positions and path segments. */
module Text {
  predicate StartsWith(s: string, prefix: string) {
    prefix <= s
  }

  predicate EndsWith(s: string, suffix: string) {
    |suffix| <= |s| && s[|s| - |suffix|..] == suffix
  }

  /** The position of the first `c`, or the length when there is none. */
  function PositionOf(s: string, c: char): (k: nat)
    ensures k <= |s|
    ensures k < |s| ==> s[k] == c
    ensures c !in s[..k]
  {
    if s == "" || s[0] == c then 0 else
      var k := PositionOf(s[1..], c);
      assert s[..k + 1] == [s[0]] + s[1..][..k];
      1 + k
  }

  lemma {:induction false} PositionIs(s: string, c: char, k: nat)
    requires k <= |s| && c !in s[..k] && (k < |s| ==> s[k] == c)
    ensures PositionOf(s, c) == k
  {
    if k > 0 {
      assert s[0] in s[..k];
      assert s[1..][..k - 1] == s[..k][1..];
      forall i | 0 <= i < k - 1 ensures s[1..][i] != c {
        assert s[..k][i + 1] == s[1..][i];
      }
      PositionIs(s[1..], c, k - 1);
    }
  }

  /** The text before the first `c`. */
  function Before(s: string, c: char): string {
    s[..PositionOf(s, c)]
  }

  /** The text after the first `c`, or nothing. */
  function After(s: string, c: char): string {
    if PositionOf(s, c) < |s| then s[PositionOf(s, c) + 1..] else ""
  }

  function Split(s: string, c: char): seq<string>
    decreases |s|
  {
    if c in s then [Before(s, c)] + Split(After(s, c), c) else [s]
  }

  lemma SameStart(s: string, a: string, b: string)
    requires StartsWith(s, a) && StartsWith(s, b) && |a| == |b|
    ensures a == b
  {
    assert a == s[..|a|] && b == s[..|b|];
  }

  lemma SameEnd(s: string, a: string, b: string)
    requires EndsWith(s, a) && EndsWith(s, b) && |a| == |b|
    ensures a == b
  {
  }

  lemma Between(s: string, prefix: string, suffix: string)
    requires StartsWith(s, prefix) && EndsWith(s, suffix) && |prefix| + |suffix| <= |s|
    ensures s == prefix + s[|prefix|..|s| - |suffix|] + suffix
  {
    assert s == s[..|prefix|] + s[|prefix|..|s| - |suffix|] + s[|s| - |suffix|..];
  }

  /** `path` is `root` or lies below it. */
  predicate Inside(path: string, root: string) {
    path == root || StartsWith(path, root + "/")
  }

  /** Of two roots around one path, the longer lies inside the shorter. */
  lemma RootsNest(path: string, a: string, b: string)
    requires Inside(path, a) && Inside(path, b) && |a| >= |b|
    ensures Inside(a, b)
    ensures |a| == |b| ==> a == b
  {
    assert a <= path && b <= path;
    if |a| > |b| {
      assert path[..|b| + 1] == b + "/";
      assert a[..|b| + 1] == b + "/";
    } else {
      assert path[..|a|] == a && path[..|b|] == b;
    }
  }
}
