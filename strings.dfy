/**
 * The three JavaScript string built-ins the guess classifier relies on:
 * `toLowerCase` (restricted here to ASCII letters), `trim` (with the fixed
 * set of characters ECMAScript counts as white space or line terminators)
 * and `includes` (substring search).
 */
module Strings {

  /** ASCII lower-casing of one character; every other character is kept. */
  function LowerChar(c: char): char {
    if 'A' <= c <= 'Z' then (c as int - 'A' as int + 'a' as int) as char else c
  }

  /** `s.toLowerCase()`, character by character. */
  function Lower(s: string): (r: string)
    ensures |r| == |s|
    ensures forall i :: 0 <= i < |s| ==> r[i] == LowerChar(s[i])
  {
    if s == [] then [] else [LowerChar(s[0])] + Lower(s[1..])
  }

  /** The characters `trim` removes: ECMAScript WhiteSpace and LineTerminator. */
  const Whitespace: set<char> := {
    '\t', '\n', '\U{000B}', '\U{000C}', '\r', ' ', '\U{00A0}', '\U{1680}',
    '\U{2000}', '\U{2001}', '\U{2002}', '\U{2003}', '\U{2004}', '\U{2005}',
    '\U{2006}', '\U{2007}', '\U{2008}', '\U{2009}', '\U{200A}',
    '\U{2028}', '\U{2029}', '\U{202F}', '\U{205F}', '\U{3000}', '\U{FEFF}'
  }

  predicate IsWhitespace(c: char) {
    c in Whitespace
  }

  /** Lower-case ASCII letters are not white space. */
  lemma LetterNotWhitespace(c: char)
    requires 'a' <= c <= 'z'
    ensures !IsWhitespace(c)
  {
  }

  predicate AllWhitespace(s: string) {
    forall i :: 0 <= i < |s| ==> IsWhitespace(s[i])
  }

  /** The number of white-space characters `s` starts with. */
  function LeadingWhitespace(s: string): (n: nat)
    ensures n <= |s|
    ensures forall i :: 0 <= i < n ==> IsWhitespace(s[i])
    ensures n < |s| ==> !IsWhitespace(s[n])
  {
    if s != [] && IsWhitespace(s[0]) then 1 + LeadingWhitespace(s[1..]) else 0
  }

  /** The number of white-space characters `s` ends with. */
  function TrailingWhitespace(s: string): (n: nat)
    ensures n <= |s|
    ensures forall i :: |s| - n <= i < |s| ==> IsWhitespace(s[i])
    ensures n < |s| ==> !IsWhitespace(s[|s| - 1 - n])
  {
    if s != [] && IsWhitespace(s[|s| - 1]) then 1 + TrailingWhitespace(s[..|s| - 1]) else 0
  }

  /** The leading white space is the only white-space prefix followed by the end or by another character. */
  lemma LeadingWhitespaceIs(s: string, n: nat)
    requires n <= |s|
    requires forall i :: 0 <= i < n ==> IsWhitespace(s[i])
    requires n < |s| ==> !IsWhitespace(s[n])
    ensures LeadingWhitespace(s) == n
  {
  }

  /** The trailing white space is the only white-space suffix preceded by the start or by another character. */
  lemma TrailingWhitespaceIs(s: string, n: nat)
    requires n <= |s|
    requires forall i :: |s| - n <= i < |s| ==> IsWhitespace(s[i])
    requires n < |s| ==> !IsWhitespace(s[|s| - 1 - n])
    ensures TrailingWhitespace(s) == n
  {
  }

  /** Drops the leading white space. */
  function TrimStart(s: string): string {
    s[LeadingWhitespace(s)..]
  }

  /** Drops the trailing white space. */
  function TrimEnd(s: string): string {
    s[..|s| - TrailingWhitespace(s)]
  }

  /** `s.trim()`: white space dropped at both ends. */
  function Trim(s: string): (r: string)
    ensures r != [] ==> !IsWhitespace(r[0]) && !IsWhitespace(r[|r| - 1])
    ensures r == [] <==> AllWhitespace(s)
  {
    var t := TrimStart(s);
    var r := TrimEnd(t);
    assert r != [] ==> r[0] == s[LeadingWhitespace(s)];
    assert r == [] ==> t == [];
    r
  }

  /** What `trim` leaves is the slice of `s` that starts after its leading white space. */
  lemma TrimSlice(s: string)
    ensures OccursAt(s, Trim(s), LeadingWhitespace(s))
  {
    var l := LeadingWhitespace(s);
    var r := Trim(s);
    assert s[l..l + |r|] == s[l..][..|r|];
  }

  /** Everything `trim` drops, before and after the result, is white space. */
  lemma TrimDropsWhitespace(s: string)
    ensures AllWhitespace(s[..LeadingWhitespace(s)])
    ensures LeadingWhitespace(s) + |Trim(s)| <= |s|
    ensures AllWhitespace(s[LeadingWhitespace(s) + |Trim(s)|..])
  {
    var l := LeadingWhitespace(s);
    var t := TrimStart(s);
    var n := TrailingWhitespace(t);
    assert |Trim(s)| == |t| - n;
    var rest := s[l + |t| - n..];
    forall i | 0 <= i < |rest|
      ensures IsWhitespace(rest[i])
    {
      assert rest[i] == t[|t| - n + i];
    }
  }

  /** `needle` is found in `hay` at position `k`. */
  predicate OccursAt(hay: string, needle: string, k: int) {
    0 <= k && k + |needle| <= |hay| && hay[k..k + |needle|] == needle
  }

  /** `hay.includes(needle)`: a search from the left for a position where `needle` starts. */
  function Includes(hay: string, needle: string): (b: bool)
    ensures b <==> exists k :: OccursAt(hay, needle, k)
    decreases |hay|
  {
    if needle <= hay then
      assert OccursAt(hay, needle, 0);
      true
    else if |hay| <= |needle| then
      assert forall k :: !OccursAt(hay, needle, k);
      false
    else
      IncludesStep(hay, needle);
      Includes(hay[1..], needle)
  }

  /** A search that does not match at position 0 may as well start at position 1. */
  lemma IncludesStep(hay: string, needle: string)
    requires hay != [] && !(needle <= hay)
    ensures (exists k :: OccursAt(hay, needle, k)) <==> (exists k :: OccursAt(hay[1..], needle, k))
  {
    forall k | OccursAt(hay, needle, k)
      ensures OccursAt(hay[1..], needle, k - 1)
    {
      assert k != 0;
      assert hay[1..][k - 1..k - 1 + |needle|] == hay[k..k + |needle|];
    }
    forall k | OccursAt(hay[1..], needle, k)
      ensures OccursAt(hay, needle, k + 1)
    {
      assert hay[1..][k..k + |needle|] == hay[k + 1..k + 1 + |needle|];
    }
  }

  /** Every string contains the empty string and itself. */
  lemma IncludesEmptyAndSelf(s: string)
    ensures Includes(s, [])
    ensures Includes(s, s)
  {
    assert OccursAt(s, [], 0);
    assert OccursAt(s, s, 0);
  }

  /** A string is found in one no longer than itself only when the two are equal. */
  lemma IncludesNoLonger(hay: string, needle: string)
    requires |hay| <= |needle|
    ensures Includes(hay, needle) <==> hay == needle
  {
    if Includes(hay, needle) {
      var k :| OccursAt(hay, needle, k);
      assert k == 0 && hay[..|hay|] == hay;
    }
    IncludesEmptyAndSelf(hay);
  }

  /** Lower-casing leaves white space alone. */
  lemma {:induction false} LowerKeepsWhitespace(p: string)
    requires AllWhitespace(p)
    ensures Lower(p) == p
  {
    if p != [] {
      LowerKeepsWhitespace(p[1..]);
    }
  }

  /** No letter `A`-`Z` or `a`-`z` is white space, so lower-casing a character keeps it white or not. */
  lemma LowerCharWhitespace(c: char)
    ensures IsWhitespace(LowerChar(c)) <==> IsWhitespace(c)
  {
    if 'A' <= c <= 'Z' {
      assert !IsWhitespace(c) && !IsWhitespace(LowerChar(c));
    }
  }

  /** Lower-casing neither creates nor removes white space. */
  lemma LowerWhitespace(s: string)
    ensures AllWhitespace(Lower(s)) <==> AllWhitespace(s)
  {
    var l := Lower(s);
    forall i | 0 <= i < |s|
      ensures IsWhitespace(l[i]) <==> IsWhitespace(s[i])
    {
      LowerCharWhitespace(s[i]);
    }
  }

  /** Lower-casing works character by character, so it distributes over concatenation. */
  lemma LowerConcat(a: string, b: string)
    ensures Lower(a + b) == Lower(a) + Lower(b)
  {
    assert forall i :: 0 <= i < |a + b| ==> Lower(a + b)[i] == (Lower(a) + Lower(b))[i];
  }

  /** Lower-casing twice is lower-casing once. */
  lemma LowerIdempotent(s: string)
    ensures Lower(Lower(s)) == Lower(s)
  {
    assert forall i :: 0 <= i < |s| ==> Lower(Lower(s))[i] == Lower(s)[i];
  }

  /** A slice of an already lower-cased string is lower-cased too; in particular its trimmed form. */
  lemma LowerTrim(s: string)
    requires Lower(s) == s
    ensures Lower(Trim(s)) == Trim(s)
  {
    var r := Trim(s);
    var k := LeadingWhitespace(s);
    TrimSlice(s);
    forall i | 0 <= i < |r|
      ensures Lower(r)[i] == r[i]
    {
      assert r[i] == s[k + i];
      assert Lower(s)[k + i] == LowerChar(s[k + i]);
    }
  }

  /** White space in front of `s` adds to its leading white space. */
  lemma LeadingPadded(p: string, s: string)
    requires AllWhitespace(p)
    ensures LeadingWhitespace(p + s) == |p| + LeadingWhitespace(s)
  {
    var n := LeadingWhitespace(s);
    forall i | 0 <= i < |p| + n
      ensures IsWhitespace((p + s)[i])
    {
      if i >= |p| { assert (p + s)[i] == s[i - |p|]; }
    }
    LeadingWhitespaceIs(p + s, |p| + n);
  }

  /** White space after `s` adds to its trailing white space. */
  lemma TrailingPadded(s: string, q: string)
    requires AllWhitespace(q)
    ensures TrailingWhitespace(s + q) == TrailingWhitespace(s) + |q|
  {
    var n := TrailingWhitespace(s);
    var x := s + q;
    forall i | |x| - (n + |q|) <= i < |x|
      ensures IsWhitespace(x[i])
    {
      if i < |s| { assert x[i] == s[i]; } else { assert x[i] == q[i - |s|]; }
    }
    if n + |q| < |x| {
      assert x[|x| - 1 - (n + |q|)] == s[|s| - 1 - n];
    }
    TrailingWhitespaceIs(x, n + |q|);
  }

  /** Text after a non-white character does not change the leading white space. */
  lemma LeadingAppend(s: string, q: string)
    requires !AllWhitespace(s)
    ensures LeadingWhitespace(s + q) == LeadingWhitespace(s)
  {
    var n := LeadingWhitespace(s);
    assert (s + q)[n] == s[n];
    LeadingWhitespaceIs(s + q, n);
  }

  /** `trim` ignores any white space put around a string. */
  lemma TrimPadded(p: string, s: string, q: string)
    requires AllWhitespace(p) && AllWhitespace(q)
    ensures Trim(p + s + q) == Trim(s)
  {
    if AllWhitespace(s) {
      BlankConcat(p, s, q);
    } else {
      TrimStartPadded(p, s, q);
      TrimEndPadded(TrimStart(s), q);
    }
  }

  /** White space after a string does not change its end-trimmed form. */
  lemma TrimEndPadded(t: string, q: string)
    requires AllWhitespace(q)
    ensures TrimEnd(t + q) == TrimEnd(t)
  {
    TrailingPadded(t, q);
    assert (t + q)[..|t + q| - TrailingWhitespace(t + q)] == t[..|t| - TrailingWhitespace(t)];
  }

  /** Three strings of white space make one. */
  lemma BlankConcat(p: string, s: string, q: string)
    requires AllWhitespace(p) && AllWhitespace(s) && AllWhitespace(q)
    ensures AllWhitespace(p + s + q)
  {
    var x := p + s + q;
    forall i | 0 <= i < |x|
      ensures IsWhitespace(x[i])
    {
      if i < |p| {
        assert x[i] == p[i];
      } else if i < |p| + |s| {
        assert x[i] == s[i - |p|];
      } else {
        assert x[i] == q[i - |p| - |s|];
      }
    }
  }

  /** Around a string with some text, start-trimming drops the white space before it and keeps what follows. */
  lemma TrimStartPadded(p: string, s: string, q: string)
    requires AllWhitespace(p) && AllWhitespace(q) && !AllWhitespace(s)
    ensures TrimStart(p + s + q) == TrimStart(s) + q
  {
    var l := LeadingWhitespace(s);
    assert p + s + q == p + (s + q);
    LeadingPadded(p, s + q);
    LeadingAppend(s, q);
    assert (p + (s + q))[|p| + l..] == s[l..] + q;
  }

  /** A string that neither starts nor ends with white space is its own trimmed form. */
  lemma TrimUntouched(s: string)
    requires s == [] || (!IsWhitespace(s[0]) && !IsWhitespace(s[|s| - 1]))
    ensures Trim(s) == s
  {
    if s != [] {
      LeadingWhitespaceIs(s, 0);
      TrailingWhitespaceIs(s, 0);
    }
  }

  /** Trimming twice is trimming once. */
  lemma TrimIdempotent(s: string)
    ensures Trim(Trim(s)) == Trim(s)
  {
    TrimUntouched(Trim(s));
  }
}
