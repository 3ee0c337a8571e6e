/** The handful of Python string operations the helper scripts use, on
    `seq<char>`: substring test, `str.replace`, `split(c)[-1]`, `split(c)[0]`,
    `list.index` and `str.lower` on ASCII letters. */
module Text {

  /** `t` occurs in `s` starting at position `i`. */
  predicate MatchAt(s: string, t: string, i: nat) {
    i + |t| <= |s| && s[i..i + |t|] == t
  }

  /** `t in s` for strings. */
  predicate Contains(s: string, t: string) {
    exists i: nat | i <= |s| :: MatchAt(s, t, i)
  }

  predicate EndsWith(s: string, t: string) {
    |t| <= |s| && s[|s| - |t|..] == t
  }

  /** `s.replace(pat, rep)`: occurrences found left to right, without
      overlap, each replaced once. */
  function ReplaceAll(s: string, pat: string, rep: string): (r: string)
    requires |pat| > 0
    decreases |s|
  {
    if |s| < |pat| then s
    else if s[..|pat|] == pat then rep + ReplaceAll(s[|pat|..], pat, rep)
    else [s[0]] + ReplaceAll(s[1..], pat, rep)
  }

  /** No occurrence of `pat` starts before position `k`. */
  predicate NoMatchBefore(s: string, pat: string, k: nat) {
    forall i: nat :: i < k ==> !MatchAt(s, pat, i)
  }

  /** A prefix in which no occurrence of `pat` starts is copied unchanged. */
  lemma {:induction false} ReplaceAllSkips(s: string, k: nat, pat: string, rep: string)
    requires |pat| > 0 && k <= |s|
    requires NoMatchBefore(s, pat, k)
    ensures ReplaceAll(s, pat, rep) == s[..k] + ReplaceAll(s[k..], pat, rep)
    decreases k
  {
    if k > 0 && |s| >= |pat| {
      assert !MatchAt(s, pat, 0);
      assert s[..|pat|] != pat;
      var t := s[1..];
      forall i: nat | i < k - 1 ensures !MatchAt(t, pat, i) {
        assert !MatchAt(s, pat, i + 1);
        if i + |pat| <= |t| {
          assert t[i..i + |pat|] == s[i + 1..i + 1 + |pat|];
        }
      }
      ReplaceAllSkips(t, k - 1, pat, rep);
      assert t[k - 1..] == s[k..];
      assert [s[0]] + t[..k - 1] == s[..k];
    } else if k > 0 {
      assert ReplaceAll(s[k..], pat, rep) == s[k..];
      assert s[..k] + s[k..] == s;
    }
  }

  /** A string in which `pat` does not occur is left as it is. */
  lemma ReplaceAllAbsent(s: string, pat: string, rep: string)
    requires |pat| > 0 && !Contains(s, pat)
    ensures ReplaceAll(s, pat, rep) == s
  {
    ReplaceAllSkips(s, |s|, pat, rep);
    assert s[..|s|] == s;
    assert ReplaceAll(s[|s|..], pat, rep) == [];
  }

  /** Replacing by text free of `c` introduces no `c`. */
  lemma {:induction false} ReplaceAllKeepsOut(s: string, pat: string, rep: string, c: char)
    requires |pat| > 0 && c !in s && c !in rep
    ensures c !in ReplaceAll(s, pat, rep)
    decreases |s|
  {
    if |s| >= |pat| {
      if s[..|pat|] == pat {
        ReplaceAllKeepsOut(s[|pat|..], pat, rep, c);
      } else {
        ReplaceAllKeepsOut(s[1..], pat, rep, c);
      }
    }
  }

  /** A slice of a string without `c` has no `c` either. */
  lemma SliceKeepsOut(s: string, i: nat, j: nat, c: char)
    requires i <= j <= |s| && c !in s
    ensures c !in s[i..j]
  {
  }

  /** The position just after the last `c` in `s`, or 0 without one. */
  function LastCut(s: string, c: char): (k: nat)
    ensures k <= |s| && c !in s[k..]
    ensures k > 0 ==> s[k - 1] == c
  {
    if s == [] then 0
    else if s[|s| - 1] == c then |s|
    else
      var init := s[..|s| - 1];
      var k := LastCut(init, c);
      assert s[k..] == init[k..] + [s[|s| - 1]];
      k
  }

  /** `s.split(c)[-1]`: the part after the last `c`, or all of `s`. */
  function AfterLast(s: string, c: char): (r: string)
    ensures c !in r
    ensures |r| <= |s| && r == s[|s| - |r|..]
    ensures c in s ==> |r| < |s| && s[|s| - |r| - 1] == c
    ensures c !in s ==> r == s
  {
    var k := LastCut(s, c);
    assert k == 0 ==> s[k..] == s;
    s[k..]
  }

  /** Whatever follows the last `c` is the answer. */
  lemma AfterLastOf(p: string, c: char, f: string)
    requires c !in f
    ensures AfterLast(p + [c] + f, c) == f
  {
    var s := p + [c] + f;
    var r := AfterLast(s, c);
    assert s[|p|] == c;
    assert c in s;
    assert r == s[|s| - |f|..] == f;
  }

  /** `s.split(c)[0]`: the part before the first `c`, or all of `s`. */
  function BeforeFirst(s: string, c: char): (r: string)
    ensures c !in r
    ensures |r| <= |s| && r == s[..|r|]
    ensures c in s ==> s[|r|] == c
    ensures c !in s ==> r == s
  {
    if s == [] then []
    else if s[0] == c then []
    else [s[0]] + BeforeFirst(s[1..], c)
  }

  /** Neither piece of a string without `d` has a `d`. */
  lemma PiecesKeepOut(s: string, c: char, d: char)
    requires d !in s
    ensures d !in AfterLast(s, c) && d !in BeforeFirst(s, c)
  {
    SliceKeepsOut(s, |s| - |AfterLast(s, c)|, |s|, d);
    SliceKeepsOut(s, 0, |BeforeFirst(s, c)|, d);
  }

  /** Whatever precedes the first `c` is the answer. */
  lemma BeforeFirstOf(a: string, c: char, b: string)
    requires c !in a
    ensures BeforeFirst(a + [c] + b, c) == a
  {
    var s := a + [c] + b;
    var r := BeforeFirst(s, c);
    assert s[|a|] == c;
  }

  /** `list.index(x)`: the first position holding `x`. */
  function IndexOf<T(==)>(s: seq<T>, x: T): (i: nat)
    requires x in s
    ensures i < |s| && s[i] == x
    ensures forall j :: 0 <= j < i ==> s[j] != x
  {
    if s[0] == x then 0 else 1 + IndexOf(s[1..], x)
  }

  function LowerChar(c: char): (d: char)
    ensures 'A' <= c <= 'Z' ==> 'a' <= d <= 'z'
    ensures !('A' <= c <= 'Z') ==> d == c
  {
    if 'A' <= c <= 'Z' then (c as int + 32) as char else c
  }

  /** `str.lower` on the ASCII letters. */
  function Lower(s: string): (r: string)
    ensures |r| == |s|
    ensures forall i :: 0 <= i < |s| ==> r[i] == LowerChar(s[i])
  {
    seq(|s|, i requires 0 <= i < |s| => LowerChar(s[i]))
  }
}
