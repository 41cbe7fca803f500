/**
 * The three JavaScript string operations the chat widget relies on:
 * `String.prototype.trim`, `String.prototype.toLowerCase` and
 * `String.prototype.includes`, restated over `seq<char>`.
 *
 * `trim` is modelled with the full set of characters ECMAScript counts as
 * WhiteSpace or LineTerminator; `toLowerCase` is modelled for the ASCII
 * letters only (every other character is left as it is).
 */
module Text {

  /** ECMAScript WhiteSpace and LineTerminator code points: what `trim` strips. */
  predicate IsSpace(c: char) {
    c == '\t' || c == '\n' || c == '\U{000B}' || c == '\U{000C}' || c == '\r' || c == ' '
    || c == '\U{00A0}' || c == '\U{1680}' || ('\U{2000}' <= c <= '\U{200A}')
    || c == '\U{2028}' || c == '\U{2029}' || c == '\U{202F}' || c == '\U{205F}'
    || c == '\U{3000}' || c == '\U{FEFF}'
  }

  predicate IsUpper(c: char) {
    'A' <= c <= 'Z'
  }

  /** `toLowerCase` on one character, ASCII letters only. */
  function LowerChar(c: char): (d: char)
    ensures !IsUpper(d)
    ensures IsUpper(c) ==> d as int == c as int + 32
    ensures !IsUpper(c) ==> d == c
  {
    if IsUpper(c) then (c as int + 32) as char else c
  }

  /** `s.toLowerCase()`: every character lowered, the length unchanged. */
  function Lower(s: string): (r: string)
    ensures |r| == |s|
    ensures forall i :: 0 <= i < |s| ==> r[i] == LowerChar(s[i])
  {
    seq(|s|, i requires 0 <= i < |s| => LowerChar(s[i]))
  }

  /** Lower-casing twice is lower-casing once. */
  lemma LowerIdempotent(s: string)
    ensures Lower(Lower(s)) == Lower(s)
  {
    assert forall i :: 0 <= i < |s| ==> Lower(Lower(s))[i] == Lower(s)[i];
  }

  /** A lower-case character `c` appears in `Lower(s)` only where `c` or its
      upper-case form appears in `s`. */
  lemma LowerAbsent(s: string, c: char)
    requires 'a' <= c <= 'z'
    requires c !in s
    requires (c as int - 32) as char !in s
    ensures c !in Lower(s)
  {
    forall i | 0 <= i < |s| ensures Lower(s)[i] != c {
      assert s[i] in s;
    }
  }

  /** `s.trimStart()`: drops the leading white space. */
  function TrimStart(s: string): (r: string)
    ensures |r| <= |s| && r == s[|s| - |r|..]
    ensures forall i :: 0 <= i < |s| - |r| ==> IsSpace(s[i])
    ensures r != [] ==> !IsSpace(r[0])
  {
    if s != [] && IsSpace(s[0]) then TrimStart(s[1..]) else s
  }

  /** `s.trimEnd()`: drops the trailing white space. */
  function TrimEnd(s: string): (r: string)
    ensures |r| <= |s| && r == s[..|r|]
    ensures forall i :: |r| <= i < |s| ==> IsSpace(s[i])
    ensures r != [] ==> !IsSpace(r[|r| - 1])
  {
    if s != [] && IsSpace(s[|s| - 1]) then TrimEnd(s[..|s| - 1]) else s
  }

  /** `s.trim()`: the result is empty exactly when `s` is all white space,
      and otherwise begins and ends with a character that is not. */
  function Trim(s: string): (r: string)
    ensures |r| <= |s|
    ensures r == [] <==> forall i :: 0 <= i < |s| ==> IsSpace(s[i])
    ensures r != [] ==> !IsSpace(r[0]) && !IsSpace(r[|r| - 1])
  {
    var t := TrimStart(s);
    var r := TrimEnd(t);
    assert r == [] ==> t == [];
    r
  }

  /** The part `trim` keeps is a window `s[a..b]` with white space on both sides. */
  lemma TrimWindow(s: string) returns (a: nat, b: nat)
    ensures a <= b <= |s| && Trim(s) == s[a..b]
    ensures forall i :: 0 <= i < a ==> IsSpace(s[i])
    ensures forall i :: b <= i < |s| ==> IsSpace(s[i])
  {
    var t := TrimStart(s);
    var r := TrimEnd(t);
    a := |s| - |t|;
    b := a + |r|;
    forall i | b <= i < |s| ensures IsSpace(s[i]) {
      assert s[i] == t[i - a];
    }
  }

  /** Trimming twice is trimming once. */
  lemma TrimIdempotent(s: string)
    ensures Trim(Trim(s)) == Trim(s)
  {
    var r := Trim(s);
    if r != [] {
      assert TrimStart(r) == r;
      assert TrimEnd(r) == r;
    }
  }

  /** `p` occurs in `s` at offset `i`. */
  predicate OccursAt(s: string, p: string, i: nat) {
    i + |p| <= |s| && s[i..i + |p|] == p
  }

  /** `s.includes(p)`: scans `s` from the left for an occurrence of `p`. */
  function Contains(s: string, p: string): (b: bool)
    ensures p == [] ==> b
    ensures |p| > |s| ==> !b
    decreases |s|
  {
    |p| <= |s| && (s[..|p|] == p || Contains(s[1..], p))
  }

  /** The scan finds `p` exactly when `p` occurs at some offset of `s`. */
  lemma {:induction false} ContainsIff(s: string, p: string)
    ensures Contains(s, p) <==> exists i: nat :: OccursAt(s, p, i)
    decreases |s|
  {
    if |p| <= |s| {
      if s[..|p|] == p {
        assert OccursAt(s, p, 0);
      } else {
        ContainsIff(s[1..], p);
        if Contains(s[1..], p) {
          var i: nat :| OccursAt(s[1..], p, i);
          assert s[1..][i..i + |p|] == s[i + 1..i + 1 + |p|];
          assert OccursAt(s, p, i + 1);
        }
        if exists i: nat :: OccursAt(s, p, i) {
          var i: nat :| OccursAt(s, p, i);
          assert i > 0;
          assert s[1..][i - 1..i - 1 + |p|] == s[i..i + |p|];
          assert OccursAt(s[1..], p, i - 1);
        }
      }
    }
  }

  /** A pattern with a character `s` lacks does not occur in `s`. */
  lemma MissingChar(s: string, p: string, k: nat)
    requires k < |p| && p[k] !in s
    ensures !Contains(s, p)
  {
    ContainsIff(s, p);
    forall i: nat | i + |p| <= |s| ensures !OccursAt(s, p, i) {
      assert s[i + k] in s;
    }
  }

  /** An occurrence inside a window of `s` is an occurrence in the window. */
  lemma OccursInWindow(s: string, p: string, a: nat, b: nat, i: nat)
    requires a <= i && i + |p| <= b <= |s| && OccursAt(s, p, i)
    ensures OccursAt(s[a..b], p, i - a)
  {
    var w := s[a..b];
    forall k | 0 <= k < |p| ensures w[i - a + k] == p[k] {
      assert w[i - a + k] == s[i + k] == s[i..i + |p|][k];
    }
    assert w[i - a..i - a + |p|] == p;
  }

  /** An occurrence in a window of `s` is an occurrence in `s`. */
  lemma OccursFromWindow(s: string, p: string, a: nat, b: nat, j: nat)
    requires a <= b <= |s| && OccursAt(s[a..b], p, j)
    ensures OccursAt(s, p, a + j)
  {
    var w := s[a..b];
    forall k | 0 <= k < |p| ensures s[a + j + k] == p[k] {
      assert s[a + j + k] == w[j + k] == w[j..j + |p|][k];
    }
    assert s[a + j..a + j + |p|] == p;
  }

  /** A pattern that begins and ends with a character that is not white
      space occurs in `t` exactly when it occurs in a window of `t` outside
      which there is only white space. */
  lemma ContainsWindow(t: string, p: string, a: nat, b: nat)
    requires a <= b <= |t|
    requires forall i :: 0 <= i < a ==> IsSpace(t[i])
    requires forall i :: b <= i < |t| ==> IsSpace(t[i])
    requires p != [] && !IsSpace(p[0]) && !IsSpace(p[|p| - 1])
    ensures Contains(t[a..b], p) == Contains(t, p)
  {
    ContainsIff(t, p);
    ContainsIff(t[a..b], p);
    if Contains(t, p) {
      var i: nat :| OccursAt(t, p, i);
      assert t[i] == p[0] && t[i + |p| - 1] == p[|p| - 1];
      OccursInWindow(t, p, a, b, i);
    }
    if Contains(t[a..b], p) {
      var j: nat :| OccursAt(t[a..b], p, j);
      OccursFromWindow(t, p, a, b, j);
    }
  }

  /** Trimming never changes whether such a pattern is contained. */
  lemma ContainsTrim(s: string, p: string)
    requires p != [] && !IsSpace(p[0]) && !IsSpace(p[|p| - 1])
    ensures Contains(Trim(s), p) == Contains(s, p)
  {
    var a, b := TrimWindow(s);
    ContainsWindow(s, p, a, b);
  }

  /** Lower-casing a slice is slicing the lower-cased string. */
  lemma LowerSlice(s: string, i: nat, j: nat)
    requires i <= j <= |s|
    ensures Lower(s[i..j]) == Lower(s)[i..j]
  {
    var a, b := Lower(s[i..j]), Lower(s)[i..j];
    forall k | 0 <= k < j - i ensures a[k] == b[k] {
      assert s[i..j][k] == s[i + k];
    }
  }

  /** White space is never an upper-case letter, so lower-casing keeps it. */
  lemma LowerKeepsSpace(c: char)
    ensures IsSpace(LowerChar(c)) == IsSpace(c)
  {
  }

  /** The lower-cased trimmed text is a window of the lower-cased text
      with only white space outside it. */
  lemma LowerTrimWindow(s: string) returns (a: nat, b: nat)
    ensures a <= b <= |s| && Lower(Trim(s)) == Lower(s)[a..b]
    ensures forall i :: 0 <= i < a ==> IsSpace(Lower(s)[i])
    ensures forall i :: b <= i < |s| ==> IsSpace(Lower(s)[i])
  {
    a, b := TrimWindow(s);
    LowerSlice(s, a, b);
    forall i | 0 <= i < |s| && (i < a || b <= i) ensures IsSpace(Lower(s)[i]) {
      LowerKeepsSpace(s[i]);
    }
  }

}
