/** String helpers shared by the text utilities and the parser: substring
    occurrence, Python's `str.replace` with a non-empty pattern, and the
    code-point order Python uses to compare strings. */
module Text {

  /** `p` occurs in `s` starting at index `i`. */
  predicate OccursAt(s: string, p: string, i: int) {
    0 <= i && i + |p| <= |s| && s[i..i + |p|] == p
  }

  /** `p` occurs somewhere in `s`. */
  predicate Contains(s: string, p: string) {
    exists i | 0 <= i <= |s| - |p| :: OccursAt(s, p, i)
  }

  /** No character of `s` is `c`. */
  predicate Lacks(s: string, c: char) {
    forall i :: 0 <= i < |s| ==> s[i] != c
  }

  /** A character neither part holds is not in their concatenation. */
  lemma LacksConcat(a: string, b: string, c: char)
    requires Lacks(a, c) && Lacks(b, c)
    ensures Lacks(a + b, c)
  {
    forall i | 0 <= i < |a + b|
      ensures (a + b)[i] != c
    {
      if i >= |a| {
        assert (a + b)[i] == b[i - |a|];
      }
    }
  }

  predicate StartsWith(s: string, p: string) {
    |p| <= |s| && s[..|p|] == p
  }

  predicate EndsWith(s: string, p: string) {
    |p| <= |s| && s[|s| - |p|..] == p
  }

  /** Number of occurrences of the character `c` in `s`. */
  function CountChar(s: string, c: char): nat {
    if s == [] then 0 else (if s[0] == c then 1 else 0) + CountChar(s[1..], c)
  }

  lemma CountCharAppend(a: string, b: string, c: char)
    ensures CountChar(a + b, c) == CountChar(a, c) + CountChar(b, c)
  {
    if a != [] {
      assert (a + b)[0] == a[0];
      assert (a + b)[1..] == a[1..] + b;
      CountCharAppend(a[1..], b, c);
    } else {
      assert a + b == b;
    }
  }

  /** An occurrence in the tail is an occurrence in the whole string. */
  lemma OccursInTail(s: string, p: string, i: int)
    requires |s| > 0 && OccursAt(s[1..], p, i)
    ensures OccursAt(s, p, i + 1)
  {
    assert s[1..][i..i + |p|] == s[i + 1..i + 1 + |p|];
  }

  /** An occurrence in the tail is an occurrence in the whole string. */
  lemma ContainsTail(s: string, p: string)
    requires |s| > 0
    ensures Contains(s[1..], p) ==> Contains(s, p)
  {
    if Contains(s[1..], p) {
      var i :| 0 <= i <= |s[1..]| - |p| && OccursAt(s[1..], p, i);
      OccursInTail(s, p, i);
    }
  }

  /** A string that contains `p + q` contains `p`. */
  lemma ContainsPrefixOf(s: string, p: string, q: string)
    requires Contains(s, p + q)
    ensures Contains(s, p)
  {
    var i :| 0 <= i <= |s| - |p + q| && OccursAt(s, p + q, i);
    assert s[i..i + |p|] == (p + q)[..|p|];
    assert OccursAt(s, p, i);
  }

  /** A string in which the character `c` does not occur contains no
      pattern that includes `c`. */
  lemma NotContainsWithoutChar(s: string, p: string, c: char)
    requires c in p && Lacks(s, c)
    ensures !Contains(s, p)
  {
    var k :| 0 <= k < |p| && p[k] == c;
    forall i | 0 <= i <= |s| - |p|
      ensures !OccursAt(s, p, i)
    {
      assert s[i..i + |p|][k] == s[i + k] != c;
    }
  }

  /** Python's `s.replace(p, r)` for a non-empty pattern: scanning left to
      right, each occurrence of `p` that does not overlap an occurrence
      already replaced becomes `r`. */
  function ReplaceAll(s: string, p: string, r: string): (t: string)
    requires |p| > 0
    ensures !Contains(s, p) ==> t == s
    decreases |s|
  {
    if |s| < |p| then s
    else if s[..|p|] == p then
      assert OccursAt(s, p, 0);
      r + ReplaceAll(s[|p|..], p, r)
    else
      ContainsTail(s, p);
      [s[0]] + ReplaceAll(s[1..], p, r)
  }

  /** Where `p` does not start at the first character, that character is
      copied and the scan moves on by one. */
  lemma ReplaceAllSkip(w: string, p: string, r: string)
    requires |p| > 0 && |w| > 0 && !OccursAt(w, p, 0)
    ensures ReplaceAll(w, p, r) == [w[0]] + ReplaceAll(w[1..], p, r)
  {
    if |w| < |p| {
      assert ReplaceAll(w[1..], p, r) == w[1..];
      assert w == [w[0]] + w[1..];
    } else {
      assert w[..|p|] != p;
    }
  }

  /** No occurrence in the first `n + 1` positions of `w` means none in
      the first `n` positions of its tail. */
  lemma NoEarlyOccurrenceInTail(w: string, p: string, n: int)
    requires |w| > 0
    requires forall i :: 0 <= i < n + 1 ==> !OccursAt(w, p, i)
    ensures forall i :: 0 <= i < n ==> !OccursAt(w[1..], p, i)
  {
    forall i | 0 <= i < n
      ensures !OccursAt(w[1..], p, i)
    {
      assert !OccursAt(w, p, i + 1);
      if 0 <= i && i + |p| <= |w| - 1 {
        assert w[1..][i..i + |p|] == w[i + 1..i + 1 + |p|];
      }
    }
  }

  /** One copied character in front of a prefix already known to be kept. */
  lemma KeepsPrefixStep(a: string, s: string, p: string, r: string)
    requires |p| > 0 && a != [] && !OccursAt(a + s, p, 0)
    requires ReplaceAll(a[1..] + s, p, r) == a[1..] + ReplaceAll(s, p, r)
    ensures ReplaceAll(a + s, p, r) == a + ReplaceAll(s, p, r)
  {
    var w := a + s;
    ReplaceAllSkip(w, p, r);
    assert w[0] == a[0] && w[1..] == a[1..] + s;
    ConsOntoPrefix(a, ReplaceAll(w, p, r), ReplaceAll(w[1..], p, r), ReplaceAll(s, p, r));
  }

  lemma ConsOntoPrefix<T>(a: seq<T>, x: seq<T>, y: seq<T>, t: seq<T>)
    requires a != [] && x == [a[0]] + y && y == a[1..] + t
    ensures x == a + t
  {
    assert a == [a[0]] + a[1..];
  }

  /** Characters before the leftmost occurrence are copied unchanged. */
  lemma {:induction false} ReplaceAllKeepsPrefix(a: string, s: string, p: string, r: string)
    requires |p| > 0
    requires forall i :: 0 <= i < |a| ==> !OccursAt(a + s, p, i)
    ensures ReplaceAll(a + s, p, r) == a + ReplaceAll(s, p, r)
    decreases |a|
  {
    if a == [] {
      assert a + s == s;
    } else {
      var w := a + s;
      assert !OccursAt(w, p, 0);
      NoEarlyOccurrenceInTail(w, p, |a| - 1);
      assert w[1..] == a[1..] + s;
      ReplaceAllKeepsPrefix(a[1..], s, p, r);
      KeepsPrefixStep(a, s, p, r);
    }
  }

  /** The leftmost occurrence of `p` is replaced by `r`, everything before
      it is kept, and the scan resumes right after it. */
  lemma ReplaceAllLeftmost(a: string, p: string, b: string, r: string)
    requires |p| > 0
    requires forall i :: 0 <= i < |a| ==> !OccursAt(a + p + b, p, i)
    ensures ReplaceAll(a + p + b, p, r) == a + r + ReplaceAll(b, p, r)
  {
    assert a + p + b == a + (p + b);
    ReplaceAllKeepsPrefix(a, p + b, p, r);
    assert (p + b)[..|p|] == p;
    assert (p + b)[|p|..] == b;
  }

  /** Python's string order: code point by code point, a proper prefix first. */
  predicate LexLe(a: string, b: string)
    decreases |a|
  {
    |a| == 0 || (|b| > 0 && (a[0] < b[0] || (a[0] == b[0] && LexLe(a[1..], b[1..]))))
  }

  lemma {:induction false} LexLeTotal(a: string, b: string)
    ensures LexLe(a, b) || LexLe(b, a)
    decreases |a|
  {
    if |a| > 0 && |b| > 0 && a[0] == b[0] {
      LexLeTotal(a[1..], b[1..]);
    }
  }

  lemma {:induction false} LexLeTransitive(a: string, b: string, c: string)
    requires LexLe(a, b) && LexLe(b, c)
    ensures LexLe(a, c)
    decreases |a|
  {
    if |a| > 0 && a[0] == b[0] && b[0] == c[0] {
      LexLeTransitive(a[1..], b[1..], c[1..]);
    }
  }

  lemma {:induction false} LexLeAntisymmetric(a: string, b: string)
    requires LexLe(a, b) && LexLe(b, a)
    ensures a == b
    decreases |a|
  {
    if |a| > 0 {
      LexLeAntisymmetric(a[1..], b[1..]);
      assert a == [a[0]] + a[1..] && b == [b[0]] + b[1..];
    }
  }

  lemma {:induction false} LexLeReflexive(a: string)
    ensures LexLe(a, a)
    decreases |a|
  {
    if |a| > 0 {
      LexLeReflexive(a[1..]);
    }
  }
}
