/** JavaScript string helpers the command handlers rely on: the white space that
    `String.prototype.trim` and `parseInt` skip, `trim` itself, and lower-casing
    (`toLowerCase`) restricted to ASCII letters. */
module Text {

  /** The WhiteSpace and LineTerminator code points of ECMAScript: what `trim`
      removes and what `parseInt` skips before the number. */
  predicate IsSpace(c: char)
  {
    c == '\t' || c == '\n' || c == '\U{000B}' || c == '\U{000C}' || c == '\r' || c == ' '
    || c == '\U{00A0}' || c == '\U{1680}' || ('\U{2000}' <= c <= '\U{200A}')
    || c == '\U{2028}' || c == '\U{2029}' || c == '\U{202F}' || c == '\U{205F}'
    || c == '\U{3000}' || c == '\U{FEFF}'
  }

  predicate AllSpace(s: string)
  {
    forall i :: 0 <= i < |s| ==> IsSpace(s[i])
  }

  /** What remains once a string has been trimmed: nothing, or text that
      neither starts nor ends with white space. */
  predicate Trimmed(s: string)
  {
    s == [] || (!IsSpace(s[0]) && !IsSpace(s[|s| - 1]))
  }

  /** Length of the longest all-space prefix of `s`. */
  function LeadingSpaces(s: string): (n: nat)
    ensures n <= |s|
    ensures forall i :: 0 <= i < n ==> IsSpace(s[i])
    ensures n < |s| ==> !IsSpace(s[n])
  {
    if |s| > 0 && IsSpace(s[0]) then 1 + LeadingSpaces(s[1..]) else 0
  }

  /** Length of the longest all-space suffix of `s`. */
  function TrailingSpaces(s: string): (n: nat)
    ensures n <= |s|
    ensures forall i :: |s| - n <= i < |s| ==> IsSpace(s[i])
    ensures n < |s| ==> !IsSpace(s[|s| - 1 - n])
  {
    if |s| > 0 && IsSpace(s[|s| - 1]) then 1 + TrailingSpaces(s[..|s| - 1]) else 0
  }

  /** Leading white space removed, as `parseInt` does before reading a sign. */
  function TrimStart(s: string): string
  {
    s[LeadingSpaces(s)..]
  }

  /** White space in front of a string is skipped entirely. */
  lemma TrimStartSkips(p: string, t: string)
    requires AllSpace(p)
    ensures TrimStart(p + t) == TrimStart(t)
  {
    var s := p + t;
    var n := LeadingSpaces(t);
    assert forall i :: 0 <= i < |p| + n ==> IsSpace(s[i]) by {
      assert forall i :: |p| <= i < |s| ==> s[i] == t[i - |p|];
    }
    assert |p| + n < |s| ==> s[|p| + n] == t[n];
    assert LeadingSpaces(s) == |p| + n;
    assert s[|p| + n..] == t[n..];
  }

  /** `String.prototype.trim`: the infix of `s` left between its leading and
      trailing white space. */
  function Trim(s: string): (r: string)
    ensures Trimmed(r)
    ensures r == [] <==> AllSpace(s)
  {
    var t := s[LeadingSpaces(s)..];
    t[..|t| - TrailingSpaces(t)]
  }

  /** What `trim` removes is white space, on both sides of what it keeps. */
  lemma TrimSplits(s: string)
    ensures var a := LeadingSpaces(s); var r := Trim(s);
      a + |r| <= |s| && r == s[a..a + |r|]
      && (forall i :: 0 <= i < a ==> IsSpace(s[i]))
      && (forall i :: a + |r| <= i < |s| ==> IsSpace(s[i]))
  {
    var a := LeadingSpaces(s);
    var t := s[a..];
    var b := TrailingSpaces(t);
    assert Trim(s) == t[..|t| - b];
    assert t[..|t| - b] == s[a..|s| - b];
    forall i | |s| - b <= i < |s|
      ensures IsSpace(s[i])
    {
      assert s[i] == t[i - a];
    }
  }

  /** Trimming is determined by its characterisation: the white space around a
      trimmed text `m` is exactly what `trim` removes. */
  lemma TrimExactly(p1: string, m: string, p2: string)
    requires AllSpace(p1) && AllSpace(p2) && Trimmed(m)
    ensures Trim(p1 + m + p2) == m
  {
    var s := p1 + m + p2;
    var a := LeadingSpaces(s);
    var r := Trim(s);
    TrimSplits(s);
    if m == [] {
      assert forall i :: 0 <= i < |s| ==> IsSpace(s[i]) by {
        assert s == p1 + p2;
      }
      assert a == |s|;
    } else {
      assert s[|p1|] == m[0];
      assert s[|p1| + |m| - 1] == m[|m| - 1];
      assert a == |p1|;
      assert |r| == |m|;
      assert r == s[|p1|..|p1| + |m|];
    }
  }

  lemma SplitThree(s: string, i: nat, j: nat)
    requires i <= j <= |s|
    ensures s == s[..i] + s[i..j] + s[j..]
  {
  }

  lemma Regroup(p1: string, q1: string, m: string, q2: string, p2: string)
    ensures p1 + (q1 + m + q2) + p2 == (p1 + q1) + m + (q2 + p2)
  {
  }

  lemma AllSpaceAppend(a: string, b: string)
    requires AllSpace(a) && AllSpace(b)
    ensures AllSpace(a + b)
  {
    assert forall i :: |a| <= i < |a + b| ==> (a + b)[i] == b[i - |a|];
  }

  /** White space added around a line never changes what `trim` gives back. */
  lemma TrimIgnoresPadding(p1: string, s: string, p2: string)
    requires AllSpace(p1) && AllSpace(p2)
    ensures Trim(p1 + s + p2) == Trim(s)
  {
    var a := LeadingSpaces(s);
    var m := Trim(s);
    TrimSplits(s);
    var q1, q2 := s[..a], s[a + |m|..];
    SplitThree(s, a, a + |m|);
    assert AllSpace(q1);
    assert AllSpace(q2) by {
      assert forall i :: 0 <= i < |q2| ==> q2[i] == s[a + |m| + i];
    }
    Regroup(p1, q1, m, q2, p2);
    AllSpaceAppend(p1, q1);
    AllSpaceAppend(q2, p2);
    TrimExactly(p1 + q1, m, q2 + p2);
  }

  /** A trimmed text is left as it is. */
  lemma TrimOfTrimmed(s: string)
    requires Trimmed(s)
    ensures Trim(s) == s
  {
    assert [] + s + [] == s;
    TrimExactly([], s, []);
  }

  lemma TrimIdempotent(s: string)
    ensures Trim(Trim(s)) == Trim(s)
  {
    TrimOfTrimmed(Trim(s));
  }

  /** `toLowerCase` on one character, ASCII letters only. */
  function LowerChar(c: char): char
  {
    if 'A' <= c <= 'Z' then (c as int + 32) as char else c
  }

  /** `String.prototype.toLowerCase`, on ASCII letters. */
  function Lower(s: string): string
  {
    seq(|s|, i requires 0 <= i < |s| => LowerChar(s[i]))
  }

  lemma LowerAppend(a: string, b: string)
    ensures Lower(a + b) == Lower(a) + Lower(b)
  {
    assert forall i :: 0 <= i < |a + b| ==> Lower(a + b)[i] == (Lower(a) + Lower(b))[i];
  }

  /** Lower-casing maps white space to white space and nothing else to it. */
  lemma LowerKeepsSpaces(s: string)
    ensures AllSpace(Lower(s)) <==> AllSpace(s)
    ensures Trimmed(Lower(s)) <==> Trimmed(s)
  {
    assert forall i :: 0 <= i < |s| ==> (IsSpace(Lower(s)[i]) <==> IsSpace(s[i]));
  }

  lemma LowerIdempotent(s: string)
    ensures Lower(Lower(s)) == Lower(s)
  {
  }

  /** Lower-casing and trimming commute, so `toLowerCase().trim()` and
      `trim().toLowerCase()` agree. */
  lemma LowerTrimCommute(s: string)
    ensures Lower(Trim(s)) == Trim(Lower(s))
  {
    var i := LeadingSpaces(s);
    var m := Trim(s);
    TrimSplits(s);
    var q1, q2 := s[..i], s[i + |m|..];
    assert s == q1 + m + q2;
    LowerAppend(q1, m);
    LowerAppend(q1 + m, q2);
    LowerKeepsSpaces(q1);
    LowerKeepsSpaces(m);
    LowerKeepsSpaces(q2);
    TrimExactly(Lower(q1), Lower(m), Lower(q2));
  }
}
