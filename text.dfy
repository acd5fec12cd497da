/**
 The few string operations of Python's `str` that the janitor relies on:
 `lower()`, `strip()`, and the `y`/`n` reply test that both prompts share.
 Only ASCII case mapping and ASCII whitespace are modelled.
 */
module Text {

  predicate IsUpper(c: char) { 'A' <= c <= 'Z' }

  /** `str.lower()` on one character (ASCII letters only). */
  function LowerChar(c: char): char
  {
    if IsUpper(c) then (c as int + 32) as char else c
  }

  /** `str.lower()`. */
  function Lower(s: string): string
  {
    seq(|s|, i requires 0 <= i < |s| => LowerChar(s[i]))
  }

  predicate HasUpper(s: string)
  {
    exists i :: 0 <= i < |s| && IsUpper(s[i])
  }

  /** The two characters are equal, or are the upper- and lower-case form of one ASCII letter. */
  predicate SameLetter(a: char, b: char)
  {
    || a == b
    || (IsUpper(a) && b as int == a as int + 32)
    || (IsUpper(b) && a as int == b as int + 32)
  }

  /** x and y spell the same word up to the case of its letters. */
  predicate SameUpToCase(x: string, y: string)
  {
    |x| == |y| && forall i :: 0 <= i < |x| ==> SameLetter(x[i], y[i])
  }

  lemma LowerIgnoresCase(x: string, y: string)
    requires SameUpToCase(x, y)
    ensures Lower(x) == Lower(y)
  {
    forall i | 0 <= i < |x|
      ensures Lower(x)[i] == Lower(y)[i]
    {
      assert SameLetter(x[i], y[i]);
    }
  }

  lemma LowerHasNoUpper(s: string)
    ensures !HasUpper(Lower(s))
  {
  }

  /** A string without capitals is its own lower-case form. */
  lemma LowerKeepsLowerCase(s: string)
    requires !HasUpper(s)
    ensures Lower(s) == s
  {
    assert forall i :: 0 <= i < |s| ==> !IsUpper(s[i]);
  }

  /** Python's `str.isspace()` on the ASCII range: tab to carriage return, the four
      separator controls 0x1C..0x1F, and the space. */
  predicate IsSpace(c: char)
  {
    9 <= c as int <= 13 || 28 <= c as int <= 32
  }

  /** Leading whitespace removed. */
  function TrimLeft(s: string): (r: string)
    ensures |r| <= |s| && r == s[|s| - |r|..]
    ensures r == [] || !IsSpace(r[0])
    ensures forall i :: 0 <= i < |s| - |r| ==> IsSpace(s[i])
  {
    if s != [] && IsSpace(s[0]) then TrimLeft(s[1..]) else s
  }

  /** Trailing whitespace removed. */
  function TrimRight(s: string): (r: string)
    ensures |r| <= |s| && r == s[..|r|]
    ensures r == [] || !IsSpace(r[|r| - 1])
    ensures forall i :: |r| <= i < |s| ==> IsSpace(s[i])
  {
    if s != [] && IsSpace(s[|s| - 1]) then TrimRight(s[..|s| - 1]) else s
  }

  /** `str.strip()`. */
  function Strip(s: string): string
  {
    TrimRight(TrimLeft(s))
  }

  /** `input().strip().lower() == 'y'`: the only reply that confirms a move or a deletion. */
  predicate Affirmative(reply: string)
  {
    Lower(Strip(reply)) == "y"
  }

  /** A reply confirms exactly when, stripped of surrounding whitespace, it is `y` or `Y`. */
  lemma AffirmativeExactly(reply: string)
    ensures Affirmative(reply) <==> (Strip(reply) == "y" || Strip(reply) == "Y")
  {
    var s := Strip(reply);
    if Affirmative(reply) {
      assert |s| == 1 && Lower(s)[0] == 'y';
      assert s[0] == 'y' || s[0] == 'Y';
      assert s == [s[0]];
    }
    if s == "Y" {
      assert Lower(s) == [LowerChar('Y')];
    }
  }

  /** A stripped reply neither starts nor ends with whitespace. */
  lemma StripTrimsBothEnds(reply: string)
    ensures Strip(reply) == [] || (!IsSpace(Strip(reply)[0]) && !IsSpace(Strip(reply)[|Strip(reply)| - 1]))
  {
    var l := TrimLeft(reply);
    var r := TrimRight(l);
    if r != [] {
      assert r[0] == l[0];
    }
  }
}
