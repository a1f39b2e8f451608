/** Unsigned decimal printing and the parser at the other end. */
module Decimal {
  import opened Text

  predicate IsDigit(c: char) { '0' <= c <= '9' }

  function DigitChar(d: nat): (c: char)
    requires d < 10
    ensures IsDigit(c) && c == "0123456789"[d]
  {
    '0' + d as char
  }

  function DigitValue(c: char): (d: nat)
    requires IsDigit(c)
    ensures d < 10 && c == "0123456789"[d]
  {
    (c - '0') as nat
  }

  // printf's %lu: no leading zeros.
  function Print(v: nat): (s: string)
    ensures s != "" && forall i :: 0 <= i < |s| ==> IsDigit(s[i])
    ensures v < 10 <==> |s| == 1
    ensures v > 0 ==> s[0] != '0'
  {
    if v < 10 then [DigitChar(v)] else Print(v / 10) + [DigitChar(v % 10)]
  }

  // The leading digits of a string taken as a number behind those already read.
  function ParseFrom(acc: nat, s: string): nat
    decreases |s|
  {
    if s == "" || !IsDigit(s[0]) then acc else ParseFrom(10 * acc + DigitValue(s[0]), s[1..])
  }

  // atoi
  function Atoi(s: string): int {
    var t := SkipSpace(s);
    if t != "" && t[0] == '-' then 0 - ParseFrom(0, t[1..])
    else if t != "" && t[0] == '+' then ParseFrom(0, t[1..])
    else ParseFrom(0, t)
  }

  lemma {:induction false} ParsePrinted(v: nat, rest: string)
    ensures ParseFrom(0, Print(v) + rest) == ParseFrom(v, rest)
    decreases v
  {
    if v < 10 {
      assert Print(v) == [DigitChar(v)];
      assert (Print(v) + rest)[1..] == rest;
    } else {
      var d := [DigitChar(v % 10)];
      assert Print(v) + rest == Print(v / 10) + (d + rest);
      ParsePrinted(v / 10, d + rest);
      assert (d + rest)[1..] == rest && (d + rest)[0] == DigitChar(v % 10);
      assert 10 * (v / 10) + v % 10 == v;
    }
  }

  /** A printed number followed by anything but a digit parses back to itself. */
  lemma AtoiReadsPrinted(v: nat, rest: string)
    requires rest == "" || !IsDigit(rest[0])
    ensures Atoi(Print(v) + rest) == v
  {
    ParsePrinted(v, rest);
    assert IsDigit((Print(v) + rest)[0]);
  }

  // Blanks in front make no difference.
  lemma AtoiSkipsBlanks(blanks: string, t: string)
    requires forall i :: 0 <= i < |blanks| ==> IsSpace(blanks[i])
    ensures Atoi(blanks + t) == Atoi(t)
  {
    SkipsBlanks(blanks, t);
  }

  /** ... a sign in front counts ... */
  lemma AtoiReadsSigned(v: nat, rest: string)
    requires rest == "" || !IsDigit(rest[0])
    ensures Atoi("-" + (Print(v) + rest)) == 0 - v && Atoi("+" + (Print(v) + rest)) == v
  {
    ParsePrinted(v, rest);
    SignApart('-', Print(v) + rest);
    SignApart('+', Print(v) + rest);
  }

  lemma SignApart(c: char, n: string)
    requires !IsSpace(c)
    ensures SkipSpace([c] + n) == [c] + n && ([c] + n)[0] == c && ([c] + n)[1..] == n
  {
    BlanksAre([c] + n, 0);
  }

  /** ... and a string that begins with no number reads as 0. */
  lemma AtoiOfNoNumber(rest: string)
    requires rest == "" || (!IsDigit(rest[0]) && !IsSpace(rest[0]) && rest[0] != '-' && rest[0] != '+')
    ensures Atoi(rest) == 0
  {
    BlanksAre(rest, 0);
    assert rest[0..] == rest;
  }

  lemma {:induction false} ParseOneMore(acc: nat, s: string, c: char)
    requires (forall i :: 0 <= i < |s| ==> IsDigit(s[i])) && IsDigit(c)
    ensures ParseFrom(acc, s + [c]) == 10 * ParseFrom(acc, s) + DigitValue(c)
    decreases |s|
  {
    if s == "" {
      assert (s + [c])[1..] == "";
    } else {
      ParseOneMore(10 * acc + DigitValue(s[0]), s[1..], c);
      assert (s + [c])[1..] == s[1..] + [c];
    }
  }

  /** Print(v) is the only digit string without leading zeros that is read as v. */
  lemma {:induction false} PrintIsTheNumeral(s: string)
    requires s != "" && (forall i :: 0 <= i < |s| ==> IsDigit(s[i])) && (|s| == 1 || s[0] != '0')
    ensures s == Print(ParseFrom(0, s))
    decreases |s|
  {
    var n := |s| - 1;
    var init, c := s[..n], s[n];
    assert s == init + [c];
    ParseOneMore(0, init, c);
    if n > 0 {
      PrintIsTheNumeral(init);
      NoLeadingZeroIsPositive(init);
      OneMoreDigit(ParseFrom(0, init), DigitValue(c));
    }
  }

  lemma OneMoreDigit(v: nat, d: nat)
    requires v > 0 && d < 10
    ensures Print(10 * v + d) == Print(v) + [DigitChar(d)]
  {}

  lemma NoLeadingZeroIsPositive(s: string)
    requires s != "" && IsDigit(s[0]) && s[0] != '0'
    ensures ParseFrom(0, s) > 0
  {
    ParseGrows(DigitValue(s[0]), s[1..]);
  }

  lemma {:induction false} ParseGrows(acc: nat, s: string)
    ensures ParseFrom(acc, s) >= acc
    decreases |s|
  {
    if s != "" && IsDigit(s[0]) { ParseGrows(10 * acc + DigitValue(s[0]), s[1..]); }
  }
}
