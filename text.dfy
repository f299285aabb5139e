/**
 * String helpers the response logic is built from: ASCII case folding,
 * whitespace trimming, splitting on one character (PHP's `explode`),
 * joining (PHP's `implode`) and decimal numerals.
 */
module Text {
  import opened Options

  /** ASCII lower-casing of one character. */
  function LowerChar(c: char): (r: char)
    ensures !('A' <= r <= 'Z')
    ensures 'a' <= r <= 'z' <==> ('a' <= c <= 'z' || 'A' <= c <= 'Z')
  {
    if 'A' <= c <= 'Z' then (c as int + 32) as char else c
  }

  /** ASCII upper-casing of one character. */
  function UpperChar(c: char): (r: char)
    ensures !('a' <= r <= 'z')
    ensures LowerChar(r) == LowerChar(c)
  {
    if 'a' <= c <= 'z' then (c as int - 32) as char else c
  }

  /** Case folding used for every case-insensitive comparison of names. */
  function Lower(s: string): (r: string)
    ensures |r| == |s|
    ensures forall i :: 0 <= i < |s| ==> r[i] == LowerChar(s[i])
  {
    seq(|s|, i requires 0 <= i < |s| => LowerChar(s[i]))
  }

  /** Case folding leaves a string without upper-case letters as it is. */
  lemma LowerUnchanged(s: string)
    requires forall i :: 0 <= i < |s| ==> !('A' <= s[i] <= 'Z')
    ensures Lower(s) == s
  {
  }

  /** Strings that agree character by character up to case fold to the same string. */
  lemma LowerEqual(a: string, b: string)
    requires |a| == |b|
    requires forall i :: 0 <= i < |a| ==> LowerChar(a[i]) == LowerChar(b[i])
    ensures Lower(a) == Lower(b)
  {
    assert forall i :: 0 <= i < |a| ==> Lower(a)[i] == Lower(b)[i];
  }

  /** The characters PHP's `trim` strips that can occur in a header. */
  predicate IsSpace(c: char) {
    c == ' ' || c == '\t' || c == '\n' || c == '\r'
  }

  function TrimLeft(s: string): (r: string)
    ensures |r| <= |s| && r == s[|s| - |r|..]
    ensures r == [] || !IsSpace(r[0])
    ensures forall i :: 0 <= i < |s| - |r| ==> IsSpace(s[i])
  {
    if |s| > 0 && IsSpace(s[0]) then TrimLeft(s[1..]) else s
  }

  function TrimRight(s: string): (r: string)
    ensures |r| <= |s| && r == s[..|r|]
    ensures r == [] || !IsSpace(r[|r| - 1])
    ensures forall i :: |r| <= i < |s| ==> IsSpace(s[i])
  {
    if |s| > 0 && IsSpace(s[|s| - 1]) then TrimRight(s[..|s| - 1]) else s
  }

  /** Both ends stripped of whitespace, as PHP's `trim`. */
  function Trim(s: string): (r: string)
    ensures r == [] || (!IsSpace(r[0]) && !IsSpace(r[|r| - 1]))
  {
    TrimRight(TrimLeft(s))
  }

  /** A string that trimming leaves as it is. */
  lemma TrimUnchanged(s: string)
    requires s == [] || (!IsSpace(s[0]) && !IsSpace(s[|s| - 1]))
    ensures Trim(s) == s
  {
  }

  /** Leading whitespace does not survive trimming. */
  lemma TrimSpaceCons(c: char, s: string)
    requires IsSpace(c)
    ensures Trim([c] + s) == Trim(s)
  {
    assert ([c] + s)[1..] == s;
  }

  /** Position of the first occurrence of `c` in `s`. */
  function Find(s: string, c: char): (r: Option<nat>)
    ensures r.None? ==> c !in s
    ensures r.Some? ==> r.value < |s| && s[r.value] == c && c !in s[..r.value]
  {
    if |s| == 0 then None
    else if s[0] == c then Some(0)
    else match Find(s[1..], c)
      case None => None
      case Some(k) => Some(k + 1)
  }

  /** Finding a character in a string that starts with a piece free of it. */
  lemma {:induction false} FindAfter(a: string, c: char, b: string)
    requires c !in a
    ensures Find(a + [c] + b, c) == Some(|a|)
  {
    if |a| > 0 {
      FindAfter(a[1..], c, b);
      assert (a + [c] + b)[1..] == a[1..] + [c] + b;
    }
  }

  /**
   * The pieces of `s` between occurrences of `sep` (PHP's `explode`):
   * never empty, and no piece holds the separator.
   */
  function Split(s: string, sep: char): (parts: seq<string>)
    ensures |parts| >= 1
    ensures forall i :: 0 <= i < |parts| ==> sep !in parts[i]
    decreases |s|
  {
    match Find(s, sep)
    case None => [s]
    case Some(k) => [s[..k]] + Split(s[k + 1..], sep)
  }

  /** A string without the separator splits into itself alone. */
  lemma SplitNone(s: string, sep: char)
    requires sep !in s
    ensures Split(s, sep) == [s]
  {
  }

  /** A split peels off the piece before the first separator. */
  lemma SplitCons(a: string, sep: char, b: string)
    requires sep !in a
    ensures Split(a + [sep] + b, sep) == [a] + Split(b, sep)
  {
    FindAfter(a, sep, b);
    var s := a + [sep] + b;
    assert s[..|a|] == a;
    assert s[|a| + 1..] == b;
  }

  /** The pieces glued back with `sep` between them (PHP's `implode`). */
  function Join(parts: seq<string>, sep: char): string
  {
    if |parts| == 0 then ""
    else if |parts| == 1 then parts[0]
    else parts[0] + [sep] + Join(parts[1..], sep)
  }

  /** Joining the pieces of a split gives back the original string. */
  lemma {:induction false} JoinSplit(s: string, sep: char)
    ensures Join(Split(s, sep), sep) == s
    decreases |s|
  {
    match Find(s, sep)
    case None =>
      assert Split(s, sep) == [s];
    case Some(k) =>
      var rest := Split(s[k + 1..], sep);
      JoinSplit(s[k + 1..], sep);
      var parts := [s[..k]] + rest;
      assert Split(s, sep) == parts;
      assert parts[1..] == rest;
      assert Join(parts, sep) == s[..k] + [sep] + Join(rest, sep);
      assert s == s[..k] + [sep] + s[k + 1..];
  }

  /** Splitting a join of separator-free pieces gives back the pieces. */
  lemma {:induction false} SplitJoin(parts: seq<string>, sep: char)
    requires |parts| >= 1
    requires forall i :: 0 <= i < |parts| ==> sep !in parts[i]
    ensures Split(Join(parts, sep), sep) == parts
  {
    if |parts| > 1 {
      var rest := Join(parts[1..], sep);
      FindAfter(parts[0], sep, rest);
      var s := parts[0] + [sep] + rest;
      assert s[..|parts[0]|] == parts[0];
      assert s[|parts[0]| + 1..] == rest;
      SplitJoin(parts[1..], sep);
    } else {
      assert Join(parts, sep) == parts[0];
    }
  }

  lemma {:induction false} JoinAppend(parts: seq<string>, sep: char, last: string)
    requires |parts| >= 1
    ensures Join(parts + [last], sep) == Join(parts, sep) + [sep] + last
  {
    if |parts| > 1 {
      JoinAppend(parts[1..], sep, last);
      assert (parts + [last])[1..] == parts[1..] + [last];
    }
  }

  /** Appending a separator-free piece after a separator adds exactly one piece to a split. */
  lemma SplitAppend(s: string, sep: char, last: string)
    requires sep !in last
    ensures Split(s + [sep] + last, sep) == Split(s, sep) + [last]
  {
    var parts := Split(s, sep) + [last];
    JoinSplit(s, sep);
    JoinAppend(Split(s, sep), sep, last);
    SplitJoin(parts, sep);
  }

  predicate IsDigit(c: char) {
    '0' <= c <= '9'
  }

  /** The value of a string of decimal digits, most significant first. */
  function DigitsValue(s: string): nat
    requires forall i :: 0 <= i < |s| ==> IsDigit(s[i])
  {
    if |s| == 0 then 0
    else
      var last := s[|s| - 1];
      assert IsDigit(last);
      DigitsValue(s[..|s| - 1]) * 10 + (last as int - '0' as int)
  }

  /** A non-empty run of decimal digits read as a number; anything else is rejected. */
  function ParseNat(s: string): (r: Option<nat>)
    ensures r.Some? <==> |s| > 0 && forall i :: 0 <= i < |s| ==> IsDigit(s[i])
  {
    if |s| > 0 && forall i :: 0 <= i < |s| ==> IsDigit(s[i]) then Some(DigitsValue(s)) else None
  }

  /** The decimal numeral of `n`, without leading zeros. */
  function ShowNat(n: nat): (s: string)
    ensures |s| > 0 && forall i :: 0 <= i < |s| ==> IsDigit(s[i])
  {
    if n < 10 then [('0' as int + n) as char]
    else ShowNat(n / 10) + [('0' as int + n % 10) as char]
  }

  /** Reading back a rendered numeral yields the number. */
  lemma {:induction false} ParseShowNat(n: nat)
    ensures ParseNat(ShowNat(n)) == Some(n)
  {
    if n >= 10 {
      ParseShowNat(n / 10);
      var s := ShowNat(n);
      assert s[..|s| - 1] == ShowNat(n / 10);
      assert DigitsValue(s) == DigitsValue(ShowNat(n / 10)) * 10 + n % 10;
    }
  }
}
