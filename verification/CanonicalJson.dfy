/** `json.dumps(..., sort_keys=True)` for objects whose members are all strings (section 7 of RFC 8259,
    with every character outside printable ASCII escaped, as Python's default encoder does). */
module CanonicalJson {
  import opened PrefixCode
  import opened SortedKeys

  function HexDigit(n: nat): char
    requires n < 16
  {
    "0123456789abcdef"[n]
  }

  function Hex4(n: nat): string
    requires n < 0x1_0000
  {
    var high, mid := n / 0x100, n / 0x10;
    [HexDigit(high / 0x10), HexDigit(high % 0x10), HexDigit(mid % 0x10), HexDigit(n % 0x10)]
  }

  function UnicodeEscape(n: nat): string
    requires n < 0x1_0000
  {
    "\\u" + Hex4(n)
  }

  /** The high and low surrogates of a character beyond the basic plane. */
  function HighSurrogate(n: nat): nat
    requires 0x1_0000 <= n < 0x11_0000
  {
    0xd800 + (n - 0x1_0000) / 0x400
  }

  function LowSurrogate(n: nat): nat
    requires 0x1_0000 <= n < 0x11_0000
  {
    0xdc00 + (n - 0x1_0000) % 0x400
  }

  function EscapeChar(c: char): string {
    var n := c as int;
    if c == '\"' then "\\\""
    else if c == '\\' then "\\\\"
    else if c == '\n' then "\\n"
    else if c == '\r' then "\\r"
    else if c == '\t' then "\\t"
    else if n == 0x0c then "\\f"
    else if n == 0x08 then "\\b"
    else if 0x20 <= n <= 0x7e then [c]
    else if n < 0x1_0000 then UnicodeEscape(n)
    else UnicodeEscape(HighSurrogate(n)) + UnicodeEscape(LowSurrogate(n))
  }

  const ESCAPE: Code := c => EscapeChar(c)

  function Quote(s: string): string {
    "\"" + Encode(ESCAPE, s) + "\""
  }

  function Member(pair: (string, string)): string {
    Quote(pair.0) + ": " + Quote(pair.1)
  }

  function Members(pairs: seq<(string, string)>): string
    requires pairs != []
  {
    if |pairs| == 1 then Member(pairs[0]) else Member(pairs[0]) + ", " + Members(pairs[1..])
  }

  function Object(pairs: seq<(string, string)>): string
    requires pairs != []
  {
    "{" + Members(pairs) + "}"
  }

  /** `json.dumps(…, sort_keys=True)` of a dictionary with the given items. */
  function Dumps(items: seq<(string, string)>): string
    requires items != []
  {
    Object(SortKeys(items))
  }

  /* ----- The escape table is a prefix code ----- */

  lemma HexDigitInjective(m: nat, n: nat)
    requires m < 16 && n < 16 && HexDigit(m) == HexDigit(n)
    ensures m == n
  {
  }

  lemma SameQuotient(m: nat, n: nat)
    requires m / 0x10 == n / 0x10 && m % 0x10 == n % 0x10
    ensures m == n
  {
  }

  lemma Hex4Injective(m: nat, n: nat)
    requires m < 0x1_0000 && n < 0x1_0000 && Hex4(m) == Hex4(n)
    ensures m == n
  {
    var s, t := Hex4(m), Hex4(n);
    assert s[0] == t[0] && s[1] == t[1] && s[2] == t[2] && s[3] == t[3];
    HexDigitInjective(m / 0x100 / 0x10, n / 0x100 / 0x10);
    HexDigitInjective(m / 0x100 % 0x10, n / 0x100 % 0x10);
    HexDigitInjective(m / 0x10 % 0x10, n / 0x10 % 0x10);
    HexDigitInjective(m % 0x10, n % 0x10);
    SameQuotient(m / 0x100, n / 0x100);
    assert m / 0x10 / 0x10 == m / 0x100 && n / 0x10 / 0x10 == n / 0x100;
    SameQuotient(m / 0x10, n / 0x10);
    SameQuotient(m, n);
  }

  lemma UnicodeEscapeInjective(m: nat, n: nat, s: string, t: string)
    requires m < 0x1_0000 && n < 0x1_0000
    requires UnicodeEscape(m) + s <= UnicodeEscape(n) + t
    ensures m == n
  {
    assert (UnicodeEscape(n) + t)[..6] == UnicodeEscape(n);
    assert (UnicodeEscape(m) + s)[..6] == UnicodeEscape(m);
    assert UnicodeEscape(m)[2..] == Hex4(m) && UnicodeEscape(n)[2..] == Hex4(n);
    Hex4Injective(m, n);
  }

  /** The characters written with a `\uXXXX` escape, once or as a surrogate pair. */
  predicate Numeric(c: char) {
    var n := c as int;
    (n < 0x20 && c !in "\n\r\t" && n != 0x0c && n != 0x08) || n > 0x7e
  }

  /** The number in the first `\uXXXX` escape of a numeric character, and what follows that escape. */
  function FirstUnit(c: char): nat {
    var n := c as int;
    if n < 0x1_0000 then n else HighSurrogate(n)
  }

  function AfterFirstUnit(c: char): string {
    var n := c as int;
    if n < 0x1_0000 then "" else UnicodeEscape(LowSurrogate(n))
  }

  lemma NumericEscape(c: char)
    requires Numeric(c)
    ensures EscapeChar(c) == UnicodeEscape(FirstUnit(c)) + AfterFirstUnit(c)
  {
  }

  lemma SurrogatesInjective(m: nat, n: nat)
    requires 0x1_0000 <= m < 0x11_0000 && 0x1_0000 <= n < 0x11_0000
    requires HighSurrogate(m) == HighSurrogate(n) && LowSurrogate(m) == LowSurrogate(n)
    ensures m == n
  {
  }

  lemma EscapePairInjective(c: char, d: char)
    requires Numeric(c) && Numeric(d)
    requires EscapeChar(c) <= EscapeChar(d)
    ensures c == d
  {
    NumericEscape(c);
    NumericEscape(d);
    hide EscapeChar, UnicodeEscape, AfterFirstUnit;
    UnicodeEscapeInjective(FirstUnit(c), FirstUnit(d), AfterFirstUnit(c), AfterFirstUnit(d));
    if c as int >= 0x1_0000 {
      SecondUnit(c, d);
      SurrogatesInjective(c as int, d as int);
    }
  }

  lemma SecondUnit(c: char, d: char)
    requires c as int >= 0x1_0000 && d as int >= 0x1_0000 && FirstUnit(c) == FirstUnit(d)
    requires UnicodeEscape(FirstUnit(c)) + AfterFirstUnit(c) <= UnicodeEscape(FirstUnit(d)) + AfterFirstUnit(d)
    ensures LowSurrogate(c as int) == LowSurrogate(d as int)
  {
    var x, y, z := UnicodeEscape(FirstUnit(c)), AfterFirstUnit(c), AfterFirstUnit(d);
    assert |x| == |y| == |z| == 6;
    assert y == (x + y)[6..] == (x + z)[6..] == z;
    UnicodeEscapeInjective(LowSurrogate(c as int), LowSurrogate(d as int), "", "");
  }

  /** The letter of a two-character escape, or a space for characters that have none. */
  function Letter(c: char): char {
    var n := c as int;
    if c == '\"' || c == '\\' then c
    else if c == '\n' then 'n'
    else if c == '\r' then 'r'
    else if c == '\t' then 't'
    else if n == 0x0c then 'f'
    else if n == 0x08 then 'b'
    else ' '
  }

  /** How the escape of a character begins. */
  lemma EscapeBegins(c: char)
    ensures Numeric(c) ==> |EscapeChar(c)| >= 2 && EscapeChar(c)[0] == '\\' && EscapeChar(c)[1] == 'u'
    ensures !Numeric(c) && Letter(c) != ' ' ==>
              |EscapeChar(c)| == 2 && EscapeChar(c)[0] == '\\' && EscapeChar(c)[1] == Letter(c) != 'u'
    ensures !Numeric(c) && Letter(c) == ' ' ==> |EscapeChar(c)| == 1 && EscapeChar(c)[0] == c && c != '\\' && c != '\"'
    ensures EscapeChar(c)[0] != '\"'
  {
    hide Hex4;
  }

  lemma LetterInjective(c: char, d: char)
    requires Letter(c) == Letter(d) != ' '
    ensures c == d
  {
  }

  lemma EscapesApart(c: char, d: char)
    requires EscapeChar(c) <= EscapeChar(d)
    ensures c == d
  {
    hide EscapeChar, Numeric, Letter;
    EscapeBegins(c);
    EscapeBegins(d);
    assert EscapeChar(c)[0] == EscapeChar(d)[0];
    if Numeric(c) {
      assert EscapeChar(c)[1] == EscapeChar(d)[1];
      EscapePairInjective(c, d);
    } else if Letter(c) != ' ' {
      assert EscapeChar(c)[1] == EscapeChar(d)[1];
      LetterInjective(c, d);
    }
  }

  lemma EscapeIsPrefixFree()
    ensures PrefixFree(ESCAPE) && Avoids(ESCAPE, '\"')
  {
    hide EscapeChar;
    forall c ensures ESCAPE(c) == EscapeChar(c) && ESCAPE(c) != "" && ESCAPE(c)[0] != '\"' {
      EscapeBegins(c);
    }
    forall c, d | ESCAPE(c) <= ESCAPE(d) ensures c == d {
      EscapesApart(c, d);
    }
  }

  /* ----- Objects with the same keys are equal only if their values are ----- */

  lemma {:induction false} ValueInjective(x: string, u: string, y: string, v: string)
    requires Encode(ESCAPE, x) + ['\"'] + u == Encode(ESCAPE, y) + ['\"'] + v
    ensures x == y && u == v
  {
    EscapeIsPrefixFree();
    hide EscapeChar;
    UniqueReading(ESCAPE, '\"', x, u, y, v);
  }

  lemma MemberInjective(key: string, x: string, u: string, y: string, v: string)
    requires Member((key, x)) + u == Member((key, y)) + v
    ensures x == y && u == v
  {
    hide Encode;
    var start := Quote(key) + ": " + "\"";
    var a, b := Encode(ESCAPE, x) + ['\"'] + u, Encode(ESCAPE, y) + ['\"'] + v;
    assert Member((key, x)) + u == start + a && Member((key, y)) + v == start + b;
    assert (start + a)[|start|..] == a && (start + b)[|start|..] == b;
    ValueInjective(x, u, y, v);
  }

  function AfterFirst(pairs: seq<(string, string)>, u: string): string
    requires pairs != []
  {
    if |pairs| == 1 then u else ", " + (Members(pairs[1..]) + u)
  }

  lemma {:induction false} MembersUnfold(pairs: seq<(string, string)>, u: string)
    requires pairs != []
    ensures Members(pairs) + u == Member(pairs[0]) + AfterFirst(pairs, u)
  {
    hide Member;
    if |pairs| > 1 {
      var m, rest := Member(pairs[0]), Members(pairs[1..]);
      assert m + ", " + rest + u == m + (", " + (rest + u));
    }
  }

  lemma {:induction false} MembersInjective(p: seq<(string, string)>, q: seq<(string, string)>, u: string, v: string)
    requires |p| == |q| > 0
    requires forall i :: 0 <= i < |p| ==> p[i].0 == q[i].0
    requires Members(p) + u == Members(q) + v
    ensures p == q && u == v
    decreases |p|
  {
    MembersUnfold(p, u);
    MembersUnfold(q, v);
    MemberInjective(p[0].0, p[0].1, AfterFirst(p, u), q[0].1, AfterFirst(q, v));
    if |p| > 1 {
      assert AfterFirst(p, u)[2..] == Members(p[1..]) + u && AfterFirst(q, v)[2..] == Members(q[1..]) + v;
      MembersInjective(p[1..], q[1..], u, v);
    }
    assert p == [p[0]] + p[1..] && q == [q[0]] + q[1..];
  }

  /** Canonical JSON determines the values: the printed text of two objects with the same keys, in the same
      order, is equal only when every value is. */
  lemma ObjectInjective(p: seq<(string, string)>, q: seq<(string, string)>)
    requires |p| == |q| > 0
    requires forall i :: 0 <= i < |p| ==> p[i].0 == q[i].0
    requires Object(p) == Object(q)
    ensures p == q
  {
    hide Members;
    assert Object(p)[1..] == Members(p) + "}" && Object(q)[1..] == Members(q) + "}";
    MembersInjective(p, q, "}", "}");
  }
}
