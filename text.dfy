/** Character and string primitives used by the streak tracker, restricted to ASCII:
    letter case, white space, trimming, ASCII-case-insensitive equality and the
    byte-wise order in which Rust compares strings. */
module Text {

  /** `char::is_uppercase`, restricted to ASCII. */
  predicate IsUpper(c: char) { 'A' <= c <= 'Z' }

  /** `char::is_lowercase`, restricted to ASCII. */
  predicate IsLower(c: char) { 'a' <= c <= 'z' }

  /** `char::is_whitespace`, restricted to ASCII: tab, line feed, vertical tab,
      form feed, carriage return and space. */
  predicate IsSpace(c: char) { c == ' ' || '\t' <= c <= '\r' }

  /** Number of white-space characters at the front of `s`. */
  function LeadingSpaces(s: string): (k: nat)
    ensures k <= |s|
    ensures forall i :: 0 <= i < k ==> IsSpace(s[i])
    ensures k < |s| ==> !IsSpace(s[k])
  {
    if s != [] && IsSpace(s[0]) then 1 + LeadingSpaces(s[1..]) else 0
  }

  /** Number of white-space characters at the back of `s`. */
  function TrailingSpaces(s: string): (k: nat)
    ensures k <= |s|
    ensures forall i :: |s| - k <= i < |s| ==> IsSpace(s[i])
    ensures k < |s| ==> !IsSpace(s[|s| - 1 - k])
  {
    if s != [] && IsSpace(s[|s| - 1]) then 1 + TrailingSpaces(s[..|s| - 1]) else 0
  }

  /** `str::trim`: the longest infix of `s` that neither starts nor ends with white
      space and outside of which `s` holds only white space. */
  function Trim(s: string): (r: string)
    ensures LeadingSpaces(s) + |r| <= |s|
    ensures r == s[LeadingSpaces(s)..LeadingSpaces(s) + |r|]
    ensures r == [] || (!IsSpace(r[0]) && !IsSpace(r[|r| - 1]))
    ensures forall i :: 0 <= i < LeadingSpaces(s) ==> IsSpace(s[i])
    ensures forall i :: LeadingSpaces(s) + |r| <= i < |s| ==> IsSpace(s[i])
  {
    var t := s[LeadingSpaces(s)..];
    t[..|t| - TrailingSpaces(t)]
  }

  /** Trimming a trimmed string changes nothing. */
  lemma TrimIdempotent(s: string)
    ensures Trim(Trim(s)) == Trim(s)
  {
    var r := Trim(s);
    assert LeadingSpaces(r) == 0;
    var t := r[LeadingSpaces(r)..];
    assert t == r;
    assert TrailingSpaces(r) == 0;
  }

  /** `char::to_ascii_lowercase`. */
  function ToAsciiLower(c: char): (r: char)
    ensures IsUpper(c) ==> IsLower(r) && r as int == c as int + 32
    ensures !IsUpper(c) ==> r == c
  {
    if IsUpper(c) then (c as int + 32) as char else c
  }

  /** `str::eq_ignore_ascii_case`: equal lengths and equal characters once ASCII
      letters are folded to lower case. */
  predicate EqualsIgnoreAsciiCase(a: string, b: string) {
    |a| == |b| && forall i :: 0 <= i < |a| ==> ToAsciiLower(a[i]) == ToAsciiLower(b[i])
  }

  /** Comparing ignoring ASCII case is an equivalence: reflexive, symmetric and
      transitive. */
  lemma EqualsIgnoreAsciiCaseEquivalence(a: string, b: string, c: string)
    ensures EqualsIgnoreAsciiCase(a, a)
    ensures EqualsIgnoreAsciiCase(a, b) ==> EqualsIgnoreAsciiCase(b, a)
    ensures EqualsIgnoreAsciiCase(a, b) && EqualsIgnoreAsciiCase(b, c) ==> EqualsIgnoreAsciiCase(a, c)
  {
  }

  /** Two strings are equal ignoring ASCII case exactly when they differ at most in
      the case of ASCII letters: "PNG", "Png" and "png" all match "png", while "pngs"
      and "jpg" do not. */
  lemma EqualsIgnoreAsciiCaseExamples()
    ensures EqualsIgnoreAsciiCase("PNG", "png") && EqualsIgnoreAsciiCase("Png", "png")
    ensures !EqualsIgnoreAsciiCase("pngs", "png") && !EqualsIgnoreAsciiCase("jpg", "png")
  {
    assert ToAsciiLower("jpg"[0]) != ToAsciiLower("png"[0]);
  }

  /** `Ord for str`: lexicographic order of the characters' code points, which is
      also the byte-wise order of their UTF-8 encodings; a proper prefix comes first. */
  predicate NameLe(a: string, b: string) {
    a == [] || (b != [] && (a[0] < b[0] || (a[0] == b[0] && NameLe(a[1..], b[1..]))))
  }

  lemma {:induction false} NameLeReflexive(a: string)
    ensures NameLe(a, a)
  {
    if a != [] {
      NameLeReflexive(a[1..]);
    }
  }

  /** A name comes no later than any name it is a prefix of. */
  lemma {:induction false} NameLePrefix(a: string, b: string)
    ensures NameLe(a, a + b)
  {
    if a != [] {
      assert (a + b)[1..] == a[1..] + b;
      NameLePrefix(a[1..], b);
    }
  }

  lemma {:induction false} NameLeTotal(a: string, b: string)
    ensures NameLe(a, b) || NameLe(b, a)
  {
    if a != [] && b != [] && a[0] == b[0] {
      NameLeTotal(a[1..], b[1..]);
    }
  }

  lemma {:induction false} NameLeTransitive(a: string, b: string, c: string)
    requires NameLe(a, b) && NameLe(b, c)
    ensures NameLe(a, c)
  {
    if a != [] && a[0] == b[0] && b[0] == c[0] {
      NameLeTransitive(a[1..], b[1..], c[1..]);
    }
  }

  lemma {:induction false} NameLeAntisymmetric(a: string, b: string)
    requires NameLe(a, b) && NameLe(b, a)
    ensures a == b
  {
    if a != [] {
      NameLeAntisymmetric(a[1..], b[1..]);
      assert a == [a[0]] + a[1..];
      assert b == [b[0]] + b[1..];
    }
  }
}
