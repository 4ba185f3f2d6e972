/** Numbers as config.cpp prints and parses them: std::to_string, "%016lX" and strtoul. */
module ConfigText {
  import opened MachineInts

  // ---- Parsing ----------------------------------------------------------------------

  predicate IsSpace(c: char) { c == ' ' || c == '\t' || c == '\n' || c == 11 as char || c == 12 as char || c == '\r' }

  /** The value of a digit or letter; 36 for anything else. */
  function Digit(c: char): (d: nat)
    ensures d <= 36
  {
    if '0' <= c <= '9' then c as nat - '0' as nat
    else if 'a' <= c <= 'z' then c as nat - 'a' as nat + 10
    else if 'A' <= c <= 'Z' then c as nat - 'A' as nat + 10
    else 36
  }

  function SkipSpaces(s: string): string {
    if s != [] && IsSpace(s[0]) then SkipSpaces(s[1..]) else s
  }

  /** The digits that s starts with, appended to those already read. */
  function DigitsValue(s: string, b: nat, read: nat): nat {
    if s != [] && Digit(s[0]) < b then DigitsValue(s[1..], b, read * b + Digit(s[0])) else read
  }

  predicate HasHexPrefix(s: string) { |s| >= 2 && s[0] == '0' && (s[1] == 'x' || s[1] == 'X') }

  function Magnitude(s: string, b: nat): nat {
    if (b == 0 || b == 16) && HasHexPrefix(s) then DigitsValue(s[2..], 16, 0)
    else if b != 0 then DigitsValue(s, b, 0)
    else DigitsValue(s, if s != [] && s[0] == '0' then 8 else 10, 0)
  }

  /** strtoul: spaces, a sign, an optional prefix, digits up to the first other character;
      too large values saturate and a minus sign negates modulo 2^64. */
  function Strtoul(s: string, b: nat): (r: u64) {
    var t := SkipSpaces(s);
    var signed := t != [] && (t[0] == '+' || t[0] == '-');
    var m := Magnitude(if signed then t[1..] else t, b);
    if m >= TWO_64 then TWO_64 - 1
    else if signed && t[0] == '-' then (TWO_64 - m) % TWO_64
    else m
  }

  /** Leading white space does not count, and text that starts like no number is 0. */
  lemma SpacesIgnored(c: char, s: string, b: nat)
    requires c in {' ', '\t', '\n', '\r', 11 as char, 12 as char}
    ensures Strtoul([c] + s, b) == Strtoul(s, b)
  {
    assert ([c] + s)[1..] == s;
  }

  lemma NoNumber(s: string, b: nat)
    requires s == [] || (!IsSpace(s[0]) && s[0] != '+' && s[0] != '-' && Digit(s[0]) >= 10)
    requires b == 0 || b == 10
    ensures Strtoul(s, b) == 0
  {
  }

  // ---- Printing ---------------------------------------------------------------------

  function DigitChar(d: nat): (c: char)
    requires d < 16
    ensures c == "0123456789ABCDEF"[d]
    ensures Digit(c) == d && !IsSpace(c) && c != '+' && c != '-' && c != 'x' && c != 'X' && (c == '0' <==> d == 0)
  {
    if d < 10 then (d + '0' as nat) as char else (d - 10 + 'A' as nat) as char
  }

  /** std::to_string. */
  function Dec(n: nat): (s: string)
    ensures s != []
  {
    if n < 10 then [DigitChar(n)] else Dec(n / 10) + [DigitChar(n % 10)]
  }

  /** The low `width` hexadecimal digits; "%016lX" is HexPad(n, 16). */
  function HexPad(n: nat, width: nat): (s: string)
    ensures |s| == width
  {
    if width == 0 then "" else HexPad(n / 16, width - 1) + [DigitChar(n % 16)]
  }

  // ---- Round trips ------------------------------------------------------------------

  ghost predicate Plain(s: string, b: nat) {
    forall i :: 0 <= i < |s| ==>
                  Digit(s[i]) < b && !IsSpace(s[i]) && s[i] != '+' && s[i] != '-' && s[i] != 'x' && s[i] != 'X'
  }

  lemma {:induction false} DigitsValueAppend(s: string, c: char, b: nat, read: nat)
    requires Plain(s, b) && Digit(c) < b
    ensures DigitsValue(s + [c], b, read) == DigitsValue(s, b, read) * b + Digit(c)
  {
    var t := s + [c];
    if s == [] {
      assert t[1..] == [];
    } else {
      assert t[1..] == s[1..] + [c];
      DigitsValueAppend(s[1..], c, b, read * b + Digit(s[0]));
    }
  }

  lemma {:induction false} DecValue(n: nat)
    ensures Plain(Dec(n), 10) && DigitsValue(Dec(n), 10, 0) == n
    ensures Dec(n)[0] == '0' <==> n == 0
  {
    if n < 10 {
      assert Dec(n)[1..] == [];
    } else {
      DecValue(n / 10);
      DigitsValueAppend(Dec(n / 10), DigitChar(n % 10), 10, 0);
    }
  }

  function Pow16(width: nat): nat { if width == 0 then 1 else 16 * Pow16(width - 1) }

  lemma {:induction false} HexValue(n: nat, width: nat)
    requires n < Pow16(width)
    ensures Plain(HexPad(n, width), 16) && DigitsValue(HexPad(n, width), 16, 0) == n
  {
    if width > 0 {
      HexValue(n / 16, width - 1);
      DigitsValueAppend(HexPad(n / 16, width - 1), DigitChar(n % 16), 16, 0);
    }
  }

  /** A printed number parses to itself, in base 10 and with the base left to strtoul. */
  lemma DecRoundTrip(n: u64)
    ensures Strtoul(Dec(n), 10) == n && Strtoul(Dec(n), 0) == n
  {
    var s := Dec(n);
    DecValue(n);
    assert SkipSpaces(s) == s && !HasHexPrefix(s);
    if n == 0 {
      assert s == ['0'] && s[1..] == [];
      assert DigitsValue(s, 8, 0) == 0;
    }
  }

  lemma HexRoundTrip(n: u64)
    ensures Strtoul(HexPad(n, 16), 16) == n && |HexPad(n, 16)| == 16
  {
    var s := HexPad(n, 16);
    assert Pow16(8) == 0x1_0000_0000;
    assert Pow16(16) == TWO_64;
    HexValue(n, 16);
    assert SkipSpaces(s) == s && !HasHexPrefix(s);
  }

  // ---- Other texts that strtoul takes -----------------------------------------------

  /** Numbers beyond 64 bits give the largest one, and a plus changes nothing. */
  lemma LargeParses(n: nat)
    ensures Strtoul(Dec(n), 10) == Strtoul("+" + Dec(n), 10) == if n < TWO_64 then n else TWO_64 - 1
  {
    var s := Dec(n);
    DecValue(n);
    assert ("+" + s)[1..] == s;
    assert SkipSpaces(s) == s;
  }

  /** A minus negates modulo 2^64. */
  lemma NegativeParses(n: nat)
    ensures Strtoul("-" + Dec(n), 10) == if n == 0 then 0 else if n < TWO_64 then TWO_64 - n else TWO_64 - 1
  {
    DecValue(n);
    assert ("-" + Dec(n))[1..] == Dec(n);
  }

  /** An x behind a leading zero makes a number hexadecimal where the base allows it. */
  lemma PrefixedHexParses(n: u64, x: char, b: nat)
    requires x in {'x', 'X'} && b in {0, 16}
    ensures Strtoul(['0', x] + HexPad(n, 16), b) == n
  {
    var s := HexPad(n, 16);
    var t := ['0', x] + s;
    assert Pow16(8) == 0x1_0000_0000;
    assert Pow16(16) == TWO_64;
    HexValue(n, 16);
    assert t[2..] == s && HasHexPrefix(t) && SkipSpaces(t) == t;
  }

  /** With the base left to strtoul a leading zero makes it octal. */
  lemma OctalParses(s: string)
    requires Plain(s, 8)
    ensures Strtoul("0" + s, 0) == if DigitsValue(s, 8, 0) < TWO_64 then DigitsValue(s, 8, 0) else TWO_64 - 1
  {
    var t := "0" + s;
    assert t[1..] == s && SkipSpaces(t) == t && !HasHexPrefix(t);
  }

  /** Letters are digits from 10 on, in either case. */
  lemma LettersAreDigits(i: nat)
    requires i < 26
    ensures Digit(('a' as nat + i) as char) == Digit(('A' as nat + i) as char) == 10 + i
  {
  }
}
