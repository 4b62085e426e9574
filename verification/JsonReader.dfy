/** A reader of JSON string bodies (section 7 of RFC 8259), which undoes the escaping of canonical JSON. */
module JsonReader {
  import opened Wrappers
  import opened PrefixCode
  import opened CanonicalJson

  function HexValue(c: char): nat {
    if '0' <= c <= '9' then c as int - '0' as int
    else if 'a' <= c <= 'f' then c as int - 'a' as int + 10
    else if 'A' <= c <= 'F' then c as int - 'A' as int + 10
    else 0
  }

  function UnitAt(s: string, i: nat): nat
    requires i + 4 <= |s|
  {
    0x1000 * HexValue(s[i]) + 0x100 * HexValue(s[i + 1]) + 0x10 * HexValue(s[i + 2]) + HexValue(s[i + 3])
  }

  /** The code point that a body starts with, and how many characters stand for it. */
  function ReadChar(s: string): Option<(int, nat)> {
    if s == "" then None
    else if s[0] != '\\' then Some((s[0] as int, 1))
    else if |s| < 2 then None
    else if s[1] == '\"' || s[1] == '\\' || s[1] == '/' then Some((s[1] as int, 2))
    else if s[1] == 'b' then Some((8, 2))
    else if s[1] == 't' then Some((9, 2))
    else if s[1] == 'n' then Some((10, 2))
    else if s[1] == 'f' then Some((12, 2))
    else if s[1] == 'r' then Some((13, 2))
    else if s[1] == 'u' && |s| >= 6 then
      var high := UnitAt(s, 2);
      if 0xd800 <= high < 0xdc00 && |s| >= 12 && s[6] == '\\' && s[7] == 'u' && 0xdc00 <= UnitAt(s, 8) < 0xe000
      then Some((0x1_0000 + 0x400 * (high - 0xd800) + (UnitAt(s, 8) - 0xdc00), 12))
      else Some((high, 6))
    else None
  }

  lemma DigitReads(n: nat)
    requires n < 16
    ensures HexValue(HexDigit(n)) == n
  {
  }

  lemma Hex4Reads(n: nat)
    requires n < 0x1_0000
    ensures |Hex4(n)| == 4
    ensures 0x1000 * HexValue(Hex4(n)[0]) + 0x100 * HexValue(Hex4(n)[1]) + 0x10 * HexValue(Hex4(n)[2]) + HexValue(Hex4(n)[3]) == n
  {
    hide HexValue, HexDigit;
    DigitReads(n / 0x100 / 0x10);
    DigitReads(n / 0x100 % 0x10);
    DigitReads(n / 0x10 % 0x10);
    DigitReads(n % 0x10);
    Quotients(n);
  }

  lemma Quotients(n: nat)
    ensures n / 0x100 == (n / 0x10) / 0x10
  {
  }

  lemma UnitReads(n: nat, before: string, t: string)
    requires n < 0x1_0000
    ensures |UnicodeEscape(n)| == 6 && UnicodeEscape(n)[0] == '\\' && UnicodeEscape(n)[1] == 'u'
    ensures var s := before + UnicodeEscape(n) + t; |s| >= |before| + 6 && UnitAt(s, |before| + 2) == n
  {
    hide HexValue, Hex4;
    Hex4Reads(n);
    var s := before + UnicodeEscape(n) + t;
    assert forall i :: 0 <= i < 4 ==> s[|before| + 2 + i] == Hex4(n)[i];
  }

  lemma SingleReads(n: nat, t: string)
    requires n < 0x1_0000 && !(0xd800 <= n < 0xdc00)
    ensures ReadChar(UnicodeEscape(n) + t) == Some((n as int, 6))
  {
    hide UnicodeEscape, UnitAt;
    UnitReads(n, "", t);
    assert "" + UnicodeEscape(n) + t == UnicodeEscape(n) + t;
  }

  lemma SurrogatesRead(n: nat, t: string)
    requires 0x1_0000 <= n < 0x11_0000
    ensures ReadChar(UnicodeEscape(HighSurrogate(n)) + UnicodeEscape(LowSurrogate(n)) + t) == Some((n as int, 12))
  {
    hide UnicodeEscape, UnitAt;
    PairReads(n);
    var first, rest := UnicodeEscape(HighSurrogate(n)), UnicodeEscape(LowSurrogate(n));
    var s := first + rest + t;
    UnitReads(LowSurrogate(n), first, t);
    UnitReads(HighSurrogate(n), "", rest + t);
    assert s == "" + first + (rest + t);
    assert s[0] == first[0] && s[1] == first[1] && s[6] == rest[0] && s[7] == rest[1];
  }

  /** A character beyond printable ASCII reads back. */
  lemma NumericReads(c: char, t: string)
    requires Numeric(c)
    ensures ReadChar(EscapeChar(c) + t) == Some((c as int, |EscapeChar(c)|))
  {
    NumericEscape(c);
    hide EscapeChar, UnicodeEscape, ReadChar;
    UnitReads(FirstUnit(c), "", t);
    if c as int >= 0x1_0000 {
      UnitReads(LowSurrogate(c as int), "", t);
      SurrogatesRead(c as int, t);
    } else {
      SingleReads(c as int, t);
      assert UnicodeEscape(FirstUnit(c)) + "" == UnicodeEscape(FirstUnit(c));
    }
  }

  lemma PairReads(n: nat)
    requires 0x1_0000 <= n < 0x11_0000
    ensures 0xd800 <= HighSurrogate(n) < 0xdc00 && 0xdc00 <= LowSurrogate(n) < 0xe000
    ensures 0x1_0000 + 0x400 * (HighSurrogate(n) - 0xd800) + (LowSurrogate(n) - 0xdc00) == n
  {
  }

  /** Every escape reads back as its character, whatever follows. */
  lemma EscapeReads(c: char, t: string)
    ensures ReadChar(EscapeChar(c) + t) == Some((c as int, |EscapeChar(c)|))
  {
    if Numeric(c) {
      NumericReads(c, t);
    } else {
      hide UnicodeEscape, UnitAt;
      var s := EscapeChar(c) + t;
      assert s[0] == EscapeChar(c)[0];
      assert |EscapeChar(c)| == 2 ==> s[1] == EscapeChar(c)[1];
    }
  }

  predicate Ascii(s: string) {
    forall i :: 0 <= i < |s| ==> 0x20 <= s[i] as int <= 0x7e
  }

  lemma DigitIsAscii(n: nat)
    requires n < 16
    ensures 0x20 <= HexDigit(n) as int <= 0x7e
  {
  }

  lemma UnicodeIsAscii(n: nat)
    requires n < 0x1_0000
    ensures Ascii(UnicodeEscape(n))
  {
    hide HexDigit;
    DigitIsAscii(n / 0x100 / 0x10);
    DigitIsAscii(n / 0x100 % 0x10);
    DigitIsAscii(n / 0x10 % 0x10);
    DigitIsAscii(n % 0x10);
  }

  /** Only printable ASCII is written. */
  lemma EscapeIsAscii(c: char)
    ensures Ascii(EscapeChar(c))
  {
    if Numeric(c) {
      NumericEscape(c);
      UnicodeIsAscii(FirstUnit(c));
      if c as int >= 0x1_0000 {
        UnicodeIsAscii(LowSurrogate(c as int));
      }
      hide UnicodeEscape, EscapeChar;
    } else {
      hide UnicodeEscape;
    }
  }

  /** The code points of a whole body. */
  function ReadText(s: string): Option<seq<int>>
    decreases |s|
  {
    if s == "" then Some([])
    else
      var first := ReadChar(s);
      if first.None? || first.value.1 == 0 || first.value.1 > |s| then None
      else
        var rest := ReadText(s[first.value.1..]);
        if rest.None? then None else Some([first.value.0] + rest.value)
  }

  function CodePoints(s: string): seq<int> {
    seq(|s|, i requires 0 <= i < |s| => s[i] as int)
  }

  /** Canonical JSON says of every string what the standard says it does. */
  lemma {:induction false} TextReads(s: string)
    ensures ReadText(Encode(ESCAPE, s)) == Some(CodePoints(s))
  {
    if s == "" {
      assert Encode(ESCAPE, s) == "";
    } else {
      hide EscapeChar, ReadChar;
      TextReads(s[1..]);
      var rest := Encode(ESCAPE, s[1..]);
      EscapeBegins(s[0]);
      EscapeReads(s[0], rest);
      assert Encode(ESCAPE, s) == EscapeChar(s[0]) + rest;
      assert (EscapeChar(s[0]) + rest)[|EscapeChar(s[0])|..] == rest;
      assert CodePoints(s) == [s[0] as int] + CodePoints(s[1..]);
    }
  }
}
