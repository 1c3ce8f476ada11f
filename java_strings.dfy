/** The java.lang.String operations the email service relies on: isBlank,
    trim, toLowerCase, startsWith and contains, over strings of Unicode
    scalar values. */
module JavaStrings {

  /** Character.isWhitespace, the test String.isBlank applies to every
      character: the Unicode space, line and paragraph separators other than
      the non-breaking ones (U+00A0, U+2007, U+202F), plus the ASCII controls
      TAB, LF, VT, FF, CR and FS, GS, RS, US. */
  predicate IsWhitespace(c: char) {
    ('\t' <= c <= '\r') || ('\U{1C}' <= c <= ' ')
    || c == '\U{1680}' || ('\U{2000}' <= c <= '\U{2006}') || ('\U{2008}' <= c <= '\U{200A}')
    || c == '\U{2028}' || c == '\U{2029}' || c == '\U{205F}' || c == '\U{3000}'
  }

  /** String.isBlank: empty, or whitespace only. */
  predicate IsBlank(s: string) {
    forall i :: 0 <= i < |s| ==> IsWhitespace(s[i])
  }

  /** String.trim strips every character whose code point is at most U+0020,
      which is a different set from the one isBlank uses. */
  predicate IsTrimmable(c: char) {
    c <= ' '
  }

  /** Drops the longest prefix of trimmable characters. */
  function TrimStart(s: string): (r: string)
    ensures |r| <= |s| && r == s[|s| - |r|..]
    ensures forall i :: 0 <= i < |s| - |r| ==> IsTrimmable(s[i])
    ensures r == [] || !IsTrimmable(r[0])
  {
    if |s| > 0 && IsTrimmable(s[0]) then TrimStart(s[1..]) else s
  }

  /** Drops the longest suffix of trimmable characters. */
  function TrimEnd(s: string): (r: string)
    ensures |r| <= |s| && r == s[..|r|]
    ensures forall i :: |r| <= i < |s| ==> IsTrimmable(s[i])
    ensures r == [] || !IsTrimmable(r[|r| - 1])
  {
    if |s| > 0 && IsTrimmable(s[|s| - 1]) then TrimEnd(s[..|s| - 1]) else s
  }

  /** String.trim. */
  function Trim(s: string): (r: string)
    ensures r == [] <==> forall i :: 0 <= i < |s| ==> IsTrimmable(s[i])
    ensures r != [] ==> !IsTrimmable(r[0]) && !IsTrimmable(r[|r| - 1])
  {
    TrimEnd(TrimStart(s))
  }

  /** The trimmed text is the slice of `s` that starts at `lo`, and every
      character outside that slice is trimmable. */
  lemma TrimSlice(s: string) returns (lo: nat)
    ensures lo + |Trim(s)| <= |s| && Trim(s) == s[lo..lo + |Trim(s)|]
    ensures forall i :: 0 <= i < lo ==> IsTrimmable(s[i])
    ensures forall i :: lo + |Trim(s)| <= i < |s| ==> IsTrimmable(s[i])
  {
    var t := TrimStart(s);
    lo := |s| - |t|;
    var r := TrimEnd(t);
    assert t == s[lo..];
    assert r == t[..|r|] == s[lo..lo + |r|];
    forall i | lo + |r| <= i < |s|
      ensures IsTrimmable(s[i])
    {
      assert s[i] == t[i - lo];
    }
  }

  /** String.toLowerCase, restricted to the ASCII letters. */
  function LowerChar(c: char): char {
    if 'A' <= c <= 'Z' then (c as int + 32) as char else c
  }

  function ToLower(s: string): string {
    seq(|s|, i requires 0 <= i < |s| => LowerChar(s[i]))
  }

  /** String.startsWith. */
  predicate StartsWith(s: string, p: string) {
    |p| <= |s| && s[..|p|] == p
  }

  /** `p` occurs in `s` at offset `k`. */
  predicate OccursAt(s: string, p: string, k: nat) {
    k + |p| <= |s| && s[k..k + |p|] == p
  }

  /** String.contains: `p` occurs in `s` at some offset. */
  predicate Contains(s: string, p: string) {
    exists k: nat | k <= |s| :: OccursAt(s, p, k)
  }

  lemma ToLowerConcat(a: string, b: string)
    ensures ToLower(a + b) == ToLower(a) + ToLower(b)
  {
  }

  lemma ToLowerSlice(s: string, lo: nat, hi: nat)
    requires lo <= hi <= |s|
    ensures ToLower(s)[lo..hi] == ToLower(s[lo..hi])
  {
  }

  /** A string whose ends are not trimmable is its own trim. */
  lemma TrimNoop(s: string)
    requires s == [] || (!IsTrimmable(s[0]) && !IsTrimmable(s[|s| - 1]))
    ensures Trim(s) == s
  {
  }

  /** An occurrence of `p` in `s`, given by its offset. */
  lemma ContainsWitness(s: string, p: string) returns (k: nat)
    requires Contains(s, p)
    ensures k + |p| <= |s| && s[k..k + |p|] == p
  {
    k :| k <= |s| && OccursAt(s, p, k);
    assert OccursAt(s, p, k);
  }

  /** An occurrence at any offset is found by Contains. */
  lemma ContainsAt(s: string, p: string, k: nat)
    requires k + |p| <= |s| && s[k..k + |p|] == p
    ensures Contains(s, p)
  {
    assert OccursAt(s, p, k);
  }

  lemma ContainsPrepend(x: string, s: string, p: string)
    requires Contains(s, p)
    ensures Contains(x + s, p)
  {
    var k := ContainsWitness(s, p);
    assert (x + s)[|x| + k..|x| + k + |p|] == s[k..k + |p|];
    ContainsAt(x + s, p, |x| + k);
  }

  lemma ContainsAppend(s: string, x: string, p: string)
    requires Contains(s, p)
    ensures Contains(s + x, p)
  {
    var k := ContainsWitness(s, p);
    assert (s + x)[k..k + |p|] == s[k..k + |p|];
    ContainsAt(s + x, p, k);
  }

  lemma ContainsTransitive(s: string, q: string, p: string)
    requires Contains(s, q) && Contains(q, p)
    ensures Contains(s, p)
  {
    var k1 := ContainsWitness(s, q);
    var k2 := ContainsWitness(q, p);
    forall i | 0 <= i < |p|
      ensures s[k1 + k2..k1 + k2 + |p|][i] == p[i]
    {
      assert p[i] == q[k2..k2 + |p|][i] == q[k2 + i] == s[k1..k1 + |q|][k2 + i];
    }
    assert s[k1 + k2..k1 + k2 + |p|] == p;
    ContainsAt(s, p, k1 + k2);
  }

  /** `p` cannot occur in `s` when one of its characters does not. */
  lemma NotContainsByChar(s: string, p: string, k: nat)
    requires k < |p| && p[k] !in s
    ensures !Contains(s, p)
  {
    forall i: nat
      ensures !OccursAt(s, p, i)
    {
      if i + |p| <= |s| {
        assert s[i..i + |p|][k] == s[i + k] && s[i + k] in s;
      }
    }
  }

  /** `p` cannot occur in `s` when two adjacent characters of `p` never
      appear next to each other in `s`. */
  lemma NotContainsByPair(s: string, p: string, k: nat)
    requires k + 1 < |p|
    requires forall j :: 0 <= j < |s| - 1 ==> !(s[j] == p[k] && s[j + 1] == p[k + 1])
    ensures !Contains(s, p)
  {
    forall i: nat
      ensures !OccursAt(s, p, i)
    {
      if i + |p| <= |s| {
        assert s[i..i + |p|][k] == s[i + k] && s[i..i + |p|][k + 1] == s[i + k + 1];
      }
    }
  }

  /** `p` cannot occur in the lower-cased `s` when one of its characters is a
      lower-case letter that occurs in `s` in neither case. */
  lemma NotContainsLowerByLetter(s: string, p: string, k: nat)
    requires k < |p| && 'a' <= p[k] <= 'z'
    requires p[k] !in s && (p[k] as int - 32) as char !in s
    ensures !Contains(ToLower(s), p)
  {
    forall j | 0 <= j < |s|
      ensures ToLower(s)[j] != p[k]
    {
      assert s[j] in s;
    }
    NotContainsByChar(ToLower(s), p, k);
  }

  /** `p` cannot occur in the lower-cased `s` when two adjacent characters
      of `p` are never the lower cases of two adjacent characters of `s`. */
  lemma NotContainsLowerByPair(s: string, p: string, k: nat)
    requires k + 1 < |p|
    requires forall j :: 0 <= j < |s| - 1 ==> !(LowerChar(s[j]) == p[k] && LowerChar(s[j + 1]) == p[k + 1])
    ensures !Contains(ToLower(s), p)
  {
    NotContainsByPair(ToLower(s), p, k);
  }

  lemma NewlineInside(w: string, u: string, p: string, k: nat)
    requires |w| > 0 && w[|w| - 1] == '\n'
    requires k < |w| < k + |p| && k + |p| <= |w + u| && (w + u)[k..k + |p|] == p
    ensures '\n' in p
  {
    assert p[|w| - 1 - k] == (w + u)[|w| - 1];
  }

  /** Text ending in a newline, in which `p` does not occur, cannot take part
      in an occurrence of a newline-free `p` in `w + u`. */
  lemma ContainsAcrossNewline(w: string, u: string, p: string)
    requires |w| > 0 && w[|w| - 1] == '\n'
    requires '\n' !in p
    requires !Contains(w, p)
    ensures Contains(w + u, p) <==> Contains(u, p)
  {
    if Contains(u, p) {
      ContainsPrepend(w, u, p);
    }
    if Contains(w + u, p) {
      var k := ContainsWitness(w + u, p);
      if k >= |w| {
        assert u[k - |w|..k - |w| + |p|] == (w + u)[k..k + |p|];
        ContainsAt(u, p, k - |w|);
      } else if k + |p| > |w| {
        NewlineInside(w, u, p, k);
        assert false;
      } else {
        assert w[k..k + |p|] == (w + u)[k..k + |p|];
        ContainsAt(w, p, k);
      }
    }
  }
}
