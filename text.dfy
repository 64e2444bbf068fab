/**
  The string operations of Python's `str` that the K-1 code relies on, over ASCII:
  `lower()`, `strip()`, `in`, `endswith()`, `isdigit()`, `split(sep)`, `"".join()`,
  the deletion table of `translate()` and the whole-word test of the regex `\bword\b`.
  Python's versions are Unicode-aware; these treat only ASCII letters, digits and
  whitespace specially (every other character is left alone).
*/
module Text {

  // ---------------------------------------------------------------- case

  function LowerChar(c: char): char {
    if 'A' <= c <= 'Z' then (c as int + 32) as char else c
  }

  predicate IsUpper(c: char) { 'A' <= c <= 'Z' }

  /** `s.lower()`: every ASCII capital replaced by its small letter, nothing else touched. */
  function Lower(s: string): (r: string)
    ensures |r| == |s|
  {
    seq(|s|, i requires 0 <= i < |s| => LowerChar(s[i]))
  }

  lemma LowerConcat(a: string, b: string)
    ensures Lower(a + b) == Lower(a) + Lower(b)
  {
    assert forall i :: 0 <= i < |a + b| ==> Lower(a + b)[i] == (Lower(a) + Lower(b))[i];
  }

  /** A string without capitals is its own lower-case form, so `lower()` is idempotent. */
  lemma LowerOfLower(s: string)
    requires forall i :: 0 <= i < |s| ==> !IsUpper(s[i])
    ensures Lower(s) == s
  {
    assert forall i :: 0 <= i < |s| ==> Lower(s)[i] == s[i];
  }

  // ---------------------------------------------------------------- search

  predicate OccursAt(s: string, sub: string, i: int) {
    0 <= i && i + |sub| <= |s| && s[i..i + |sub|] == sub
  }

  /** `sub in s`. */
  predicate Contains(s: string, sub: string) {
    exists i :: 0 <= i <= |s| - |sub| && OccursAt(s, sub, i)
  }

  /** `s.endswith(suffix)`. */
  predicate EndsWith(s: string, suffix: string) {
    |suffix| <= |s| && s[|s| - |suffix|..] == suffix
  }

  // ---------------------------------------------------------------- strip

  /** The characters `str.isspace()` accepts below 128: tab, line feed, vertical tab, form feed,
      carriage return, the four information separators and space. */
  predicate IsSpace(c: char) {
    c == ' ' || '\t' <= c <= '\r' || '\U{1C}' <= c <= '\U{1F}'
  }

  function TrimStart(s: string): (r: string)
    ensures |r| <= |s| && r == s[|s| - |r|..]
    ensures forall i :: 0 <= i < |s| - |r| ==> IsSpace(s[i])
    ensures |r| > 0 ==> !IsSpace(r[0])
  {
    if |s| > 0 && IsSpace(s[0]) then TrimStart(s[1..]) else s
  }

  function TrimEnd(s: string): (r: string)
    ensures |r| <= |s| && r == s[..|r|]
    ensures forall i :: |r| <= i < |s| ==> IsSpace(s[i])
    ensures |r| > 0 ==> !IsSpace(r[|r| - 1])
  {
    if |s| > 0 && IsSpace(s[|s| - 1]) then TrimEnd(s[..|s| - 1]) else s
  }

  /** `s.strip()`: the slice of `s` left after dropping white space at both ends. */
  function Strip(s: string): (r: string)
    ensures Contains(s, r)
    ensures |r| > 0 ==> !IsSpace(r[0]) && !IsSpace(r[|r| - 1])
  {
    var t := TrimStart(s);
    var r := TrimEnd(t);
    assert r == s[|s| - |t|..][..|r|] == s[|s| - |t|..|s| - |t| + |r|];
    assert OccursAt(s, r, |s| - |t|);
    r
  }

  // ---------------------------------------------------------------- deletion

  /** `s.translate(table)` for a table that maps each character of `stop` to "". */
  function RemoveChars(s: string, stop: set<char>): (r: string)
    ensures |r| <= |s|
  {
    if s == [] then []
    else (if s[0] in stop then [] else [s[0]]) + RemoveChars(s[1..], stop)
  }

  /** After the deletion none of the deleted characters is left. */
  lemma {:induction false} RemoveCharsRemoves(s: string, stop: set<char>)
    ensures forall i :: 0 <= i < |RemoveChars(s, stop)| ==> RemoveChars(s, stop)[i] !in stop
  {
    if s != [] {
      RemoveCharsRemoves(s[1..], stop);
    }
  }

  /** Deleting characters keeps a string free of capitals. */
  lemma {:induction false} RemoveCharsKeepsLower(s: string, stop: set<char>)
    requires forall i :: 0 <= i < |s| ==> !IsUpper(s[i])
    ensures forall i :: 0 <= i < |RemoveChars(s, stop)| ==> !IsUpper(RemoveChars(s, stop)[i])
  {
    if s != [] {
      RemoveCharsKeepsLower(s[1..], stop);
    }
  }

  lemma {:induction false} RemoveCharsConcat(a: string, b: string, stop: set<char>)
    ensures RemoveChars(a + b, stop) == RemoveChars(a, stop) + RemoveChars(b, stop)
  {
    if a == [] {
      assert a + b == b;
    } else {
      assert (a + b)[0] == a[0] && (a + b)[1..] == a[1..] + b;
      RemoveCharsConcat(a[1..], b, stop);
    }
  }

  /** Deleting characters the string does not contain changes nothing. */
  lemma {:induction false} RemoveCharsAbsent(s: string, stop: set<char>)
    requires forall i :: 0 <= i < |s| ==> s[i] !in stop
    ensures RemoveChars(s, stop) == s
  {
    if s != [] {
      RemoveCharsAbsent(s[1..], stop);
    }
  }

  /** One more deleted character makes the result shorter exactly when the string holds it. */
  lemma {:induction false} RemoveCharsLength(s: string, small: set<char>, big: set<char>)
    requires small <= big
    ensures |RemoveChars(s, big)| <= |RemoveChars(s, small)|
    ensures (exists i :: 0 <= i < |s| && s[i] in big - small) ==> |RemoveChars(s, big)| < |RemoveChars(s, small)|
  {
    if s != [] {
      RemoveCharsLength(s[1..], small, big);
      if exists i :: 0 <= i < |s| && s[i] in big - small {
        var i :| 0 <= i < |s| && s[i] in big - small;
        if i > 0 {
          assert s[1..][i - 1] in big - small;
        }
      }
    }
  }

  /** Deleting more characters changes nothing when the string holds none of the extra ones. */
  lemma {:induction false} RemoveCharsSame(s: string, small: set<char>, big: set<char>)
    requires small <= big
    requires forall i :: 0 <= i < |s| ==> s[i] !in big - small
    ensures RemoveChars(s, big) == RemoveChars(s, small)
  {
    if s != [] {
      RemoveCharsSame(s[1..], small, big);
    }
  }

  // ---------------------------------------------------------------- digits, words

  predicate IsDigit(c: char) { '0' <= c <= '9' }

  /** `s.isdigit()`: non-empty and digits only. */
  predicate IsDigits(s: string) {
    |s| > 0 && forall i :: 0 <= i < |s| ==> IsDigit(s[i])
  }

  /** A character of the regex class `\w`. */
  predicate IsWordChar(c: char) {
    'a' <= c <= 'z' || 'A' <= c <= 'Z' || IsDigit(c) || c == '_'
  }

  /** `w` occurs at `i` with a word boundary `\b` on both sides (for `w` made of word characters). */
  predicate WordAt(s: string, w: string, i: int) {
    OccursAt(s, w, i)
    && (i == 0 || !IsWordChar(s[i - 1]))
    && (i + |w| == |s| || !IsWordChar(s[i + |w|]))
  }

  /** `re.search(r"\b" + w + r"\b", s)` found a match. */
  predicate HasWholeWord(s: string, w: string) {
    exists i :: 0 <= i <= |s| - |w| && WordAt(s, w, i)
  }

  lemma WholeWordIsContained(s: string, w: string)
    requires HasWholeWord(s, w)
    ensures Contains(s, w)
  {
    var i :| 0 <= i <= |s| - |w| && WordAt(s, w, i);
    assert OccursAt(s, w, i);
  }

  /** A word whose first letter occurs nowhere but at the front, where the word does not
      stand whole, does not occur whole at all. */
  lemma NoWholeWordPastFront(s: string, w: string)
    requires |w| > 0 && !WordAt(s, w, 0)
    requires forall i :: 0 < i < |s| ==> s[i] != w[0]
    ensures !HasWholeWord(s, w)
  {
    forall i | 0 < i <= |s| - |w| ensures !OccursAt(s, w, i) {
      assert s[i..i + |w|][0] == s[i];
    }
  }

  // ---------------------------------------------------------------- split, join

  /** `s.split(sep)` with an explicit separator: the maximal pieces between separators,
      empty pieces included, so there is always at least one. */
  function Split(s: string, sep: char): (parts: seq<string>)
    ensures |parts| >= 1
    ensures forall k :: 0 <= k < |parts| ==> sep !in parts[k]
  {
    if s == [] then [[]]
    else
      var rest := Split(s[1..], sep);
      if s[0] == sep then [[]] + rest else [[s[0]] + rest[0]] + rest[1..]
  }

  /** `sep.join(parts)`. */
  function Join(parts: seq<string>, sep: char): string {
    if |parts| == 0 then []
    else if |parts| == 1 then parts[0]
    else parts[0] + [sep] + Join(parts[1..], sep)
  }

  /** `"".join(parts)`. */
  function Concat(parts: seq<string>): (r: string) {
    if |parts| == 0 then [] else parts[0] + Concat(parts[1..])
  }

  /** Splitting and re-joining on the same separator gives the string back. */
  lemma {:induction false} JoinSplit(s: string, sep: char)
    ensures Join(Split(s, sep), sep) == s
  {
    if s != [] {
      var rest := Split(s[1..], sep);
      JoinSplit(s[1..], sep);
      if s[0] == sep {
        assert Split(s, sep) == [[]] + rest;
        assert Join([[]] + rest, sep) == [] + [sep] + Join(rest, sep);
      } else {
        var parts := [[s[0]] + rest[0]] + rest[1..];
        if |rest| == 1 {
          assert Join(parts, sep) == [s[0]] + rest[0];
        } else {
          assert rest == [rest[0]] + rest[1..];
          assert Join(rest, sep) == rest[0] + [sep] + Join(rest[1..], sep);
          assert Join(parts, sep) == [s[0]] + rest[0] + [sep] + Join(rest[1..], sep);
        }
        assert s == [s[0]] + s[1..];
      }
    }
  }

  /** A string without the separator is one piece. */
  lemma {:induction false} SplitWithoutSeparator(a: string, sep: char)
    requires sep !in a
    ensures Split(a, sep) == [a]
  {
    if a != [] {
      SplitWithoutSeparator(a[1..], sep);
      assert a == [a[0]] + a[1..];
    }
  }

  /** A separator-free prefix ending at the first separator is the first piece. */
  lemma {:induction false} SplitAtFirst(a: string, sep: char, b: string)
    requires sep !in a
    ensures Split(a + [sep] + b, sep) == [a] + Split(b, sep)
  {
    if a == [] {
      assert [] + [sep] + b == [sep] + b;
      assert ([sep] + b)[1..] == b;
    } else {
      assert (a + [sep] + b)[1..] == a[1..] + [sep] + b;
      SplitAtFirst(a[1..], sep, b);
      assert a == [a[0]] + a[1..];
    }
  }

  /** Joining separator-free pieces and splitting again gives the pieces back. */
  lemma {:induction false} SplitJoin(parts: seq<string>, sep: char)
    requires |parts| >= 1
    requires forall k :: 0 <= k < |parts| ==> sep !in parts[k]
    ensures Split(Join(parts, sep), sep) == parts
  {
    if |parts| == 1 {
      SplitWithoutSeparator(parts[0], sep);
    } else {
      SplitJoin(parts[1..], sep);
      SplitAtFirst(parts[0], sep, Join(parts[1..], sep));
      assert parts == [parts[0]] + parts[1..];
    }
  }

  // ---------------------------------------------------------------- numbers

  function DigitChar(d: nat): char
    requires d < 10
  {
    ('0' as int + d) as char
  }

  /** `str(n)` for a non-negative integer: its decimal digits, most significant first. */
  function NatToString(n: nat): (r: string)
    ensures IsDigits(r)
  {
    if n < 10 then [DigitChar(n)] else NatToString(n / 10) + [DigitChar(n % 10)]
  }

  /** `str(i)`: a minus sign before the digits of a negative integer. */
  function IntToString(i: int): string {
    if i < 0 then "-" + NatToString(-i) else NatToString(i)
  }

  /** The value of a string of decimal digits, read back. */
  function DigitsValue(s: string): nat
    requires forall k :: 0 <= k < |s| ==> IsDigit(s[k])
  {
    if |s| == 0 then 0
    else
      assert IsDigit(s[|s| - 1]);
      10 * DigitsValue(s[..|s| - 1]) + (s[|s| - 1] as int - '0' as int)
  }

  /** Reading the rendered digits back gives the number. */
  lemma {:induction false} NatToStringRoundTrip(n: nat)
    ensures DigitsValue(NatToString(n)) == n
  {
    if n >= 10 {
      NatToStringRoundTrip(n / 10);
      var r := NatToString(n);
      assert r[..|r| - 1] == NatToString(n / 10);
    }
  }
}
