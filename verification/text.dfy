/**
 The two string primitives both search engines rely on: lower-casing
 (Go's strings.ToLower) and splitting a line into whitespace-separated
 fields (Go's strings.Fields).

 Strings are sequences of characters, and every character is taken to be
 one ASCII byte, so that the length of a string and the bounds of a slice
 agree with Go's byte-based `len` and `s[i:j]`.
 */
module Text {

  type String = seq<char>

  predicate IsUpper(c: char) {
    'A' <= c <= 'Z'
  }

  /** The ASCII white-space characters: tab, newline, vertical tab, form feed,
      carriage return and space. */
  predicate IsSpace(c: char) {
    c == ' ' || c == '\t' || c == '\n' || c == '\r' || c == '\U{000B}' || c == '\U{000C}'
  }

  /** A string with no upper-case letter in it. */
  predicate IsLowered(s: String) {
    forall i :: 0 <= i < |s| ==> !IsUpper(s[i])
  }

  /** A non-empty string with no white space in it: what a field is. */
  predicate IsWord(w: String) {
    |w| > 0 && forall i :: 0 <= i < |w| ==> !IsSpace(w[i])
  }

  /** `g` occurs in `s` starting at offset `i`. */
  predicate OccursAt(g: String, s: String, i: int) {
    0 <= i && i + |g| <= |s| && s[i..i + |g|] == g
  }

  /** `g` occurs as a contiguous piece of `s`. */
  ghost predicate IsSubstring(g: String, s: String) {
    exists i :: OccursAt(g, s, i)
  }

  /** Lower-casing of one character: A-Z map to a-z, every other character is kept. */
  function LowerChar(c: char): (r: char)
    ensures !IsUpper(r)
    ensures IsSpace(r) <==> IsSpace(c)
    ensures IsUpper(c) ==> r as int - c as int == 'a' as int - 'A' as int
    ensures !IsUpper(c) ==> r == c
  {
    if IsUpper(c) then (c as int - 'A' as int + 'a' as int) as char else c
  }

  /** strings.ToLower, character by character. */
  function Lower(s: String): (r: String)
    ensures |r| == |s|
    ensures IsLowered(r)
    ensures forall i :: 0 <= i < |s| ==> r[i] == LowerChar(s[i])
  {
    seq(|s|, i requires 0 <= i < |s| => LowerChar(s[i]))
  }

  /** Lower-casing leaves a string alone exactly when it has no upper-case
      letter; in particular lower-casing twice is lower-casing once. */
  lemma LowerFixpoint(s: String)
    ensures Lower(s) == s <==> IsLowered(s)
    ensures Lower(Lower(s)) == Lower(s)
  {
    if IsLowered(s) {
      assert forall i :: 0 <= i < |s| ==> Lower(s)[i] == s[i];
    }
    assert forall i :: 0 <= i < |s| ==> Lower(Lower(s))[i] == Lower(s)[i];
  }

  /** Lower-casing keeps a word a word: it neither removes characters nor
      turns anything into white space. */
  lemma LowerWord(w: String)
    requires IsWord(w)
    ensures IsWord(Lower(w))
  {
    forall i | 0 <= i < |w|
      ensures !IsSpace(Lower(w)[i])
    {
      assert Lower(w)[i] == LowerChar(w[i]);
    }
  }

  /** Index just past the white-space-free prefix of `s`. */
  function WordEnd(s: String): (k: nat)
    ensures k <= |s|
    ensures forall j :: 0 <= j < k ==> !IsSpace(s[j])
    ensures k == |s| || IsSpace(s[k])
  {
    if |s| == 0 || IsSpace(s[0]) then 0 else 1 + WordEnd(s[1..])
  }

  /** strings.Fields: the maximal runs of non-white-space characters, in order. */
  function Fields(s: String): (r: seq<String>)
    ensures forall i :: 0 <= i < |r| ==> IsWord(r[i])
    decreases |s|
  {
    if |s| == 0 then []
    else if IsSpace(s[0]) then Fields(s[1..])
    else
      var k := WordEnd(s);
      [s[..k]] + Fields(s[k..])
  }

  /** Words joined by single spaces: the inverse of Fields on well-formed input. */
  function Unwords(ws: seq<String>): String
  {
    if |ws| == 0 then []
    else if |ws| == 1 then ws[0]
    else ws[0] + [' '] + Unwords(ws[1..])
  }

  lemma {:induction false} WordEndOfWord(w: String, rest: String)
    requires forall i :: 0 <= i < |w| ==> !IsSpace(w[i])
    requires |rest| == 0 || IsSpace(rest[0])
    ensures WordEnd(w + rest) == |w|
    decreases |w|
  {
    if |w| > 0 {
      assert (w + rest)[1..] == w[1..] + rest;
      WordEndOfWord(w[1..], rest);
    }
  }

  /** A word on its own is its only field. */
  lemma FieldsOfWord(w: String)
    requires IsWord(w)
    ensures Fields(w) == [w]
  {
    WordEndOfWord(w, []);
    assert w + [] == w;
    assert w[..|w|] == w && w[|w|..] == [];
  }

  /** A word followed by a space contributes itself and leaves the rest. */
  lemma FieldsOfWordThenSpace(w: String, rest: String)
    requires IsWord(w)
    ensures Fields(w + [' '] + rest) == [w] + Fields(rest)
  {
    var s := w + [' '] + rest;
    assert s == w + ([' '] + rest);
    WordEndOfWord(w, [' '] + rest);
    assert s[..|w|] == w;
    assert s[|w|..] == [' '] + rest;
    assert ([' '] + rest)[1..] == rest;
  }

  /** Splitting words that were joined with single spaces gives the words back. */
  lemma {:induction false} FieldsUnwords(ws: seq<String>)
    requires forall i :: 0 <= i < |ws| ==> IsWord(ws[i])
    ensures Fields(Unwords(ws)) == ws
    decreases |ws|
  {
    if |ws| == 1 {
      FieldsOfWord(ws[0]);
    } else if |ws| > 1 {
      FieldsOfWordThenSpace(ws[0], Unwords(ws[1..]));
      FieldsUnwords(ws[1..]);
      assert ws == [ws[0]] + ws[1..];
    }
  }
}
