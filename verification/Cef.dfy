/** The CEF printer (`core/siem.py`) and a reader that undoes it. */
module Cef {
  import opened Wrappers
  import opened PrefixCode

  datatype SiemEvent = SiemEvent(
    eventType: string,
    severity: int,
    traceId: string,
    actorId: string,
    tenantId: string,
    timestamp: string,
    details: seq<Pair>)

  /** What a reader of a line gets back. */
  datatype CefLine = CefLine(eventType: string, severity: string, extensions: seq<Pair>)

  /* ----- Escaping ----- */

  /** `s.replace(c, word)` for a single character `c`. */
  function Replace(s: string, c: char, word: string): string {
    if s == "" then "" else (if s[0] == c then word else [s[0]]) + Replace(s[1..], c, word)
  }

  /** The printer's `esc`: three replacements, one after the other. */
  function Esc(s: string): string {
    Replace(Replace(Replace(s, '\\', "\\\\"), '=', "\\="), '\n', "\\n")
  }

  function EscChar(c: char): string {
    if c == '\\' then "\\\\" else if c == '=' then "\\=" else if c == '\n' then "\\n" else [c]
  }

  const ESC: Code := c => EscChar(c)

  function Unescape(s: string): string {
    if s == "" then ""
    else if s[0] == '\\' && |s| >= 2 then [if s[1] == 'n' then '\n' else s[1]] + Unescape(s[2..])
    else [s[0]] + Unescape(s[1..])
  }

  lemma {:induction false} ReplaceConcat(s: string, t: string, c: char, word: string)
    ensures Replace(s + t, c, word) == Replace(s, c, word) + Replace(t, c, word)
  {
    if s == "" {
      assert s + t == t;
    } else {
      assert (s + t)[1..] == s[1..] + t;
      ReplaceConcat(s[1..], t, c, word);
    }
  }

  lemma EscOfChar(c: char)
    ensures Esc([c]) == EscChar(c)
  {
    assert [c][1..] == "";
    if c == '\\' {
      assert Replace([c], '\\', "\\\\") == "\\\\";
      assert "\\\\"[1..] == "\\";
    } else if c == '=' {
      assert Replace([c], '=', "\\=") == "\\=";
      assert "\\="[1..] == "=";
    }
  }

  /** The three replacements amount to one code word per character: none of them touches what an earlier one
      inserted. */
  lemma {:induction false} EscIsPerCharacter(s: string)
    ensures Esc(s) == Encode(ESC, s)
  {
    if s != "" {
      assert s == [s[0]] + s[1..];
      var a := Replace([s[0]], '\\', "\\\\");
      var b := Replace(a, '=', "\\=");
      ReplaceConcat([s[0]], s[1..], '\\', "\\\\");
      ReplaceConcat(a, Replace(s[1..], '\\', "\\\\"), '=', "\\=");
      ReplaceConcat(b, Replace(Replace(s[1..], '\\', "\\\\"), '=', "\\="), '\n', "\\n");
      EscOfChar(s[0]);
      EscIsPerCharacter(s[1..]);
    }
  }

  lemma {:induction false} UnescapeStep(c: char, t: string)
    ensures Unescape(EscChar(c) + t) == [c] + Unescape(t)
  {
    assert (EscChar(c) + t)[|EscChar(c)|..] == t;
  }

  lemma {:induction false} UnescapeInverts(s: string)
    ensures Unescape(Encode(ESC, s)) == s
  {
    if s != "" {
      UnescapeInverts(s[1..]);
      UnescapeStep(s[0], Encode(ESC, s[1..]));
      hide Unescape, EscChar;
      assert Encode(ESC, s) == EscChar(s[0]) + Encode(ESC, s[1..]);
    }
  }

  /* ----- Printing ----- */

  function Join(parts: seq<string>): string {
    if parts == [] then "" else if |parts| == 1 then parts[0] else parts[0] + " " + Join(parts[1..])
  }

  function Assignment(p: Pair): string {
    p.0 + "=" + Esc(p.1)
  }

  /** The extension pairs of an event: four fixed ones, then the details under prefixed keys. */
  function Extensions(e: SiemEvent): seq<Pair> {
    FixedPairs(e) + DetailPairs(e.details)
  }

  function FixedPairs(e: SiemEvent): seq<Pair> {
    [("trace_id", e.traceId), ("actor_id", e.actorId), ("tenant_id", e.tenantId), ("rt", e.timestamp)]
  }

  function DetailPairs(details: seq<Pair>): (pairs: seq<Pair>)
    ensures |pairs| == |details|
    ensures forall i :: 0 <= i < |details| ==> pairs[i] == ("cs_" + details[i].0, details[i].1)
  {
    seq(|details|, i requires 0 <= i < |details| => ("cs_" + details[i].0, details[i].1))
  }

  function Assignments(pairs: seq<Pair>): (parts: seq<string>)
    ensures |parts| == |pairs|
    ensures forall i :: 0 <= i < |pairs| ==> parts[i] == Assignment(pairs[i])
  {
    seq(|pairs|, i requires 0 <= i < |pairs| => Assignment(pairs[i]))
  }

  const PRODUCT: seq<string> := ["CEF:0", "SafeContext", "SafeContext", "1.1.0"]

  const PREFIX: string := "CEF:0" + "|" + "SafeContext" + "|" + "SafeContext" + "|" + "1.1.0" + "|"

  function Line(e: SiemEvent): string {
    PREFIX + e.eventType + "|" + e.eventType + "|" + Decimal(e.severity) + "|"
      + Join(Assignments(Extensions(e)))
  }

  /** `str(n)` of an integer. */
  function Decimal(n: int): string {
    if n < 0 then "-" + Digits(-n) else Digits(n)
  }

  function Digits(n: nat): string {
    if n < 10 then ["0123456789"[n]] else Digits(n / 10) + ["0123456789"[n % 10]]
  }

  /** One line: no value breaks it. Where all keys are readable and the event type holds no pipe, the reader below gets
      every field of the event back from it. */
  method FormatCef(e: SiemEvent) returns (line: string)
    ensures line == Line(e)
    ensures "CEF:0|SafeContext|SafeContext|1.1.0|" + e.eventType + "|" + e.eventType + "|" <= line
    ensures (forall i :: 0 <= i < |e.details| ==> '\n' !in e.details[i].0) && '\n' !in e.eventType ==> '\n' !in line
    ensures ReadableKeys(e.details) && '|' !in e.eventType ==>
              && ReadLine(line).Some?
              && Recovers(ReadLine(line).value, e)
  {
    hide Esc, Decimal, Join, ReadLine, ReadableKeys;
    LineBegins(e);
    if (forall i :: 0 <= i < |e.details| ==> '\n' !in e.details[i].0) && '\n' !in e.eventType {
      OneLine(e);
    }
    if ReadableKeys(e.details) && '|' !in e.eventType {
      FieldsRecovered(e);
    }
    var extensions := [
      "trace_id=" + Esc(e.traceId),
      "actor_id=" + Esc(e.actorId),
      "tenant_id=" + Esc(e.tenantId),
      "rt=" + Esc(e.timestamp)];
    ghost var all := Assignments(Extensions(e));
    var i := 0;
    while i < |e.details|
      invariant 0 <= i <= |e.details|
      invariant |extensions| == i + 4
      invariant forall j :: 0 <= j < |extensions| ==> extensions[j] == all[j]
    {
      var (key, value) := e.details[i];
      extensions := extensions + ["cs_" + key + "=" + Esc(value)];
      i := i + 1;
    }
    assert extensions == all;
    line := PREFIX + e.eventType + "|" + e.eventType + "|" + Decimal(e.severity) + "|"
      + Join(extensions);
  }

  /* ----- Reading ----- */

  /** The index of the first equals sign that is not escaped, or the length of `s`. */
  function KeyEnd(s: string): (i: nat)
    ensures i <= |s|
    ensures i < |s| ==> s[i] == '='
  {
    if s == "" || s[0] == '=' then 0
    else if s[0] == '\\' && |s| >= 2 then 2 + KeyEnd(s[2..])
    else 1 + KeyEnd(s[1..])
  }

  /** What stands after the last space. */
  function LastWord(s: string): (w: string)
    ensures |w| <= |s| && s[|s| - |w|..] == w
  {
    if s == "" || s[|s| - 1] == ' ' then "" else LastWord(s[..|s| - 1]) + [s[|s| - 1]]
  }

  /** Reads the value of `key` and the pairs after it: up to the next unescaped equals sign, the last word is the
      next key and the rest, less one space, is the value. */
  function ReadFrom(key: string, s: string): Option<seq<Pair>>
    decreases |s|
  {
    var e := KeyEnd(s);
    if e == |s| then Some([(key, Unescape(s))])
    else
      var next := LastWord(s[..e]);
      if |next| == e then None
      else
        var tail := ReadFrom(next, s[e + 1..]);
        if tail.None? then None else Some([(key, Unescape(s[..e - |next| - 1]))] + tail.value)
  }

  function ReadExtensions(s: string): Option<seq<Pair>> {
    var e := KeyEnd(s);
    if e == |s| then None else ReadFrom(s[..e], s[e + 1..])
  }

  /** The first `n` fields that end in a pipe, and the rest. */
  function Fields(s: string, n: nat): (r: Option<(seq<string>, string)>)
    ensures r.Some? ==> |r.value.0| == n
    decreases n
  {
    if n == 0 then Some(([], s))
    else
      var i := PipeAt(s);
      if i == |s| then None
      else
        var tail := Fields(s[i + 1..], n - 1);
        if tail.None? then None else Some(([s[..i]] + tail.value.0, tail.value.1))
  }

  function PipeAt(s: string): (i: nat)
    ensures i <= |s|
  {
    if s == "" || s[0] == '|' then 0 else 1 + PipeAt(s[1..])
  }

  function ReadLine(line: string): Option<CefLine> {
    var fields := Fields(line, 7);
    if fields.None? || fields.value.0[..4] != PRODUCT || fields.value.0[4] != fields.value.0[5] then None
    else
      var extensions := ReadExtensions(fields.value.1);
      if extensions.None? then None
      else Some(CefLine(fields.value.0[4], fields.value.0[6], extensions.value))
  }

  /* ----- Reading undoes printing ----- */

  /** A key that a reader can tell from the value before it: it holds no space, and no equals sign that would end it
      early, nor does it escape the one behind it. */
  predicate Readable(key: string) {
    ' ' !in key && KeyEnd(key + "=") == |key|
  }

  ghost predicate ReadableKeys(pairs: seq<Pair>) {
    forall i :: 0 <= i < |pairs| ==> Readable(pairs[i].0)
  }

  /** What stands behind an unescaped equals sign does not matter. */
  lemma {:induction false} KeyEndExtends(s: string, t: string)
    requires KeyEnd(s) < |s|
    ensures KeyEnd(s + t) == KeyEnd(s)
  {
    if s[0] != '=' {
      var n := if s[0] == '\\' then 2 else 1;
      assert (s + t)[n..] == s[n..] + t;
      KeyEndExtends(s[n..], t);
    }
  }

  lemma {:induction false} KeyEndSkipsWord(c: char, t: string)
    ensures KeyEnd(EscChar(c) + t) == |EscChar(c)| + KeyEnd(t)
  {
    var s := EscChar(c) + t;
    if |EscChar(c)| == 2 {
      assert s[2..] == t && s[0] == '\\';
    } else {
      assert s[1..] == t && s[0] == c;
    }
  }

  lemma {:induction false} KeyEndSkipsValue(v: string, t: string)
    ensures KeyEnd(Encode(ESC, v) + t) == |Encode(ESC, v)| + KeyEnd(t)
  {
    if v == "" {
      assert Encode(ESC, v) + t == t;
    } else {
      hide KeyEnd, EscChar;
      assert Encode(ESC, v) + t == EscChar(v[0]) + (Encode(ESC, v[1..]) + t);
      KeyEndSkipsWord(v[0], Encode(ESC, v[1..]) + t);
      KeyEndSkipsValue(v[1..], t);
    }
  }

  lemma {:induction false} KeyEndFindsKey(key: string, t: string)
    requires Readable(key)
    ensures KeyEnd(key + "=" + t) == |key|
  {
    hide KeyEnd;
    KeyEndExtends(key + "=", t);
  }

  /** Keys without spaces, equals signs and backslashes are readable. */
  lemma {:induction false} PlainKey(key: string)
    requires ' ' !in key && '=' !in key && '\\' !in key
    ensures Readable(key)
  {
    if key != "" {
      assert (key + "=")[1..] == key[1..] + "=";
      assert key[0] in key;
      PlainKey(key[1..]);
    } else {
      assert key + "=" == "=";
    }
  }

  lemma {:induction false} LastWordFindsKey(s: string, key: string)
    requires ' ' !in key
    ensures LastWord(s + " " + key) == key
    decreases |key|
  {
    var t := s + " " + key;
    if key == "" {
      assert t[|t| - 1] == ' ';
    } else {
      var n := |key| - 1;
      assert t[..|t| - 1] == s + " " + key[..n];
      assert t[|t| - 1] == key[n] && key[n] in key;
      LastWordFindsKey(s, key[..n]);
    }
  }

  /** What follows the equals sign of a pair: its value and the pairs after it. */
  function After(v: string, pairs: seq<Pair>): string {
    Esc(v) + if pairs == [] then "" else " " + Join(Assignments(pairs))
  }

  lemma JoinUnfolds(pairs: seq<Pair>)
    requires pairs != []
    ensures Join(Assignments(pairs)) == pairs[0].0 + "=" + After(pairs[0].1, pairs[1..])
  {
    assert Assignments(pairs)[1..] == Assignments(pairs[1..]);
  }

  lemma {:induction false} KeyEndFindsNext(v: string, next: string, t: string)
    requires Readable(next)
    ensures KeyEnd(Esc(v) + " " + next + "=" + t) == |Esc(v)| + 1 + |next|
  {
    hide Esc, Encode;
    var rest := next + "=" + t;
    EscIsPerCharacter(v);
    KeyEndSkipsValue(v, " " + rest);
    assert (" " + rest)[1..] == rest;
    KeyEndFindsKey(next, t);
    assert Esc(v) + " " + next + "=" + t == Esc(v) + (" " + rest);
  }

  lemma UnescapeInvertsEsc(v: string)
    ensures Unescape(Esc(v)) == v
  {
    EscIsPerCharacter(v);
    UnescapeInverts(v);
  }

  function Prepend(p: Pair, tail: Option<seq<Pair>>): Option<seq<Pair>> {
    if tail.None? then None else Some([p] + tail.value)
  }

  /** One step of the reader: value, space, next key. */
  lemma {:induction false} ReadStep(key: string, v: string, next: string, t: string)
    requires Readable(next)
    ensures ReadFrom(key, Esc(v) + " " + next + "=" + t) == Prepend((key, v), ReadFrom(next, t))
  {
    hide Esc, Unescape, KeyEnd, LastWord;
    KeyEndFindsNext(v, next, t);
    UnescapeInvertsEsc(v);
    LastWordFindsKey(Esc(v), next);
    var s, e := Esc(v) + " " + next + "=" + t, |Esc(v)| + 1 + |next|;
    assert s[..e] == Esc(v) + " " + next;
    assert s[e + 1..] == t;
    assert s[..e - |next| - 1] == Esc(v);
  }

  /** The last value runs to the end. */
  lemma {:induction false} ReadLast(key: string, v: string)
    ensures ReadFrom(key, Esc(v)) == Some([(key, v)])
  {
    EscIsPerCharacter(v);
    KeyEndSkipsValue(v, "");
    UnescapeInvertsEsc(v);
    hide Esc, Unescape, Encode;
    assert Encode(ESC, v) + "" == Encode(ESC, v);
  }

  lemma {:induction false} ReadFromInverts(key: string, v: string, pairs: seq<Pair>)
    requires ReadableKeys(pairs)
    ensures ReadFrom(key, After(v, pairs)) == Some([(key, v)] + pairs)
    decreases |pairs|
  {
    hide Esc, ReadFrom, Assignments;
    if pairs == [] {
      ReadLast(key, v);
      assert After(v, pairs) == Esc(v) && [(key, v)] + pairs == [(key, v)];
    } else {
      var next, value, rest := pairs[0].0, pairs[0].1, pairs[1..];
      JoinUnfolds(pairs);
      hide Join;
      assert After(v, pairs) == Esc(v) + " " + next + "=" + After(value, rest);
      ReadStep(key, v, next, After(value, rest));
      ReadFromInverts(next, value, rest);
      assert pairs == [(next, value)] + rest;
    }
  }

  lemma ExtensionsRoundTrip(pairs: seq<Pair>)
    requires pairs != [] && ReadableKeys(pairs)
    ensures ReadExtensions(Join(Assignments(pairs))) == Some(pairs)
  {
    hide Esc, ReadFrom, After;
    var key, t := pairs[0].0, After(pairs[0].1, pairs[1..]);
    JoinUnfolds(pairs);
    KeyEndFindsKey(key, t);
    assert (key + "=" + t)[..|key|] == key && (key + "=" + t)[|key| + 1..] == t;
    ReadFromInverts(key, pairs[0].1, pairs[1..]);
    assert pairs == [(pairs[0].0, pairs[0].1)] + pairs[1..];
  }

  lemma {:induction false} PipeAtEnd(field: string, rest: string)
    requires '|' !in field
    ensures PipeAt(field + "|" + rest) == |field|
  {
    if field == "" {
      assert field + "|" + rest == "|" + rest;
    } else {
      assert (field + "|" + rest)[1..] == field[1..] + "|" + rest;
      assert field[0] in field;
      PipeAtEnd(field[1..], rest);
    }
  }

  /** The fields in front of `rest`, each closed by a pipe. */
  function Header(fields: seq<string>, rest: string): string {
    if fields == [] then rest else fields[0] + "|" + Header(fields[1..], rest)
  }

  lemma {:induction false} FieldsStep(field: string, rest: string, n: nat)
    requires '|' !in field
    ensures Fields(field + "|" + rest, n + 1)
         == var tail := Fields(rest, n); if tail.None? then None else Some(([field] + tail.value.0, tail.value.1))
  {
    hide PipeAt;
    PipeAtEnd(field, rest);
    var s := field + "|" + rest;
    assert s[..|field|] == field && s[|field| + 1..] == rest;
  }

  lemma {:induction false} FieldsInvertHeader(fields: seq<string>, rest: string)
    requires forall i :: 0 <= i < |fields| ==> '|' !in fields[i]
    ensures Fields(Header(fields, rest), |fields|) == Some((fields, rest))
    decreases |fields|
  {
    if fields != [] {
      hide Fields;
      var tail := Header(fields[1..], rest);
      FieldsInvertHeader(fields[1..], rest);
      FieldsStep(fields[0], tail, |fields| - 1);
      assert Header(fields, rest) == fields[0] + "|" + tail;
      assert fields == [fields[0]] + fields[1..];
    }
  }

  /** The value of a digit string. */
  function ReadDigits(s: string): int {
    if s == "" then 0 else 10 * ReadDigits(s[..|s| - 1]) + (s[|s| - 1] as int - '0' as int)
  }

  function ReadDecimal(s: string): int {
    if s != "" && s[0] == '-' then -ReadDigits(s[1..]) else ReadDigits(s)
  }

  lemma {:induction false} DigitsRoundTrip(n: nat)
    ensures ReadDigits(Digits(n)) == n
    ensures Digits(n) != "" && Digits(n)[0] != '-' && '|' !in Digits(n)
  {
    if n >= 10 {
      DigitsRoundTrip(n / 10);
      assert Digits(n)[..|Digits(n)| - 1] == Digits(n / 10);
    } else {
      assert Digits(n)[..0] == "";
    }
  }

  lemma DecimalRoundTrip(n: int)
    ensures ReadDecimal(Decimal(n)) == n && '|' !in Decimal(n)
  {
    DigitsRoundTrip(if n < 0 then -n else n);
    if n < 0 {
      assert Decimal(n)[1..] == Digits(-n);
    }
  }

  lemma {:induction false} HeaderUnfolds(field: string, fields: seq<string>, rest: string)
    ensures Header([field] + fields, rest) == field + "|" + Header(fields, rest)
  {
    assert ([field] + fields)[1..] == fields;
  }

  lemma {:induction false} ProductHeader(fields: seq<string>, rest: string)
    ensures Header(PRODUCT + fields, rest) == PREFIX + Header(fields, rest)
  {
    var p := PRODUCT;
    HeaderUnfolds(p[0], [p[1]] + ([p[2]] + ([p[3]] + fields)), rest);
    HeaderUnfolds(p[1], [p[2]] + ([p[3]] + fields), rest);
    HeaderUnfolds(p[2], [p[3]] + fields, rest);
    HeaderUnfolds(p[3], fields, rest);
    hide Header;
    assert p + fields == [p[0]] + ([p[1]] + ([p[2]] + ([p[3]] + fields)));
  }

  lemma LineIsHeader(e: SiemEvent)
    ensures Line(e) == Header(PRODUCT + [e.eventType, e.eventType, Decimal(e.severity)], Join(Assignments(Extensions(e))))
  {
    hide Extensions, Assignments, Decimal, Join;
    var sev, ext, et := Decimal(e.severity), Join(Assignments(Extensions(e))), e.eventType;
    ProductHeader([et, et, sev], ext);
    HeaderUnfolds(et, [et, sev], ext);
    HeaderUnfolds(et, [sev], ext);
    HeaderUnfolds(sev, [], ext);
    assert Header([], ext) == ext;
    hide Header, PREFIX;
    assert Line(e) == PREFIX + (et + "|" + (et + "|" + (sev + "|" + ext)));
    assert [et] + [et, sev] == [et, et, sev] && [et] + [sev] == [et, sev] && [sev] + [] == [sev];
  }

  lemma {:induction false} PrefixedKey(key: string)
    ensures Readable("cs_" + key) <==> Readable(key)
  {
    hide KeyEnd;
    var k := "cs_" + key;
    assert k + "=" == ['c'] + (['s'] + (['_'] + (key + "=")));
    OneMore('c', ['s'] + (['_'] + (key + "=")));
    OneMore('s', ['_'] + (key + "="));
    OneMore('_', key + "=");
    InConcat("cs_", key);
  }

  lemma InConcat(prefix: string, key: string)
    requires ' ' !in prefix
    ensures ' ' in prefix + key <==> ' ' in key
  {
  }

  lemma {:induction false} OneMore(c: char, t: string)
    requires c != '=' && c != '\\'
    ensures KeyEnd([c] + t) == 1 + KeyEnd(t)
  {
    assert ([c] + t)[1..] == t;
  }

  lemma FixedKeys()
    ensures Readable("trace_id") && Readable("actor_id") && Readable("tenant_id") && Readable("rt")
  {
    hide Readable;
    PlainKey("trace_id");
    PlainKey("actor_id");
    PlainKey("tenant_id");
    PlainKey("rt");
  }

  lemma {:induction false} ExtensionKeysAreReadable(e: SiemEvent)
    ensures ReadableKeys(Extensions(e)) <==> ReadableKeys(e.details)
  {
    hide Readable;
    var fixed, details := FixedPairs(e), DetailPairs(e.details);
    FixedKeys();
    assert ReadableKeys(fixed);
    hide FixedPairs;
    ReadableConcat(fixed, details);
    forall i | 0 <= i < |e.details| ensures Readable(details[i].0) <==> Readable(e.details[i].0) {
      PrefixedKey(e.details[i].0);
    }
  }

  lemma ReadableConcat(a: seq<Pair>, b: seq<Pair>)
    ensures ReadableKeys(a + b) <==> ReadableKeys(a) && ReadableKeys(b)
  {
    hide Readable;
    var all := a + b;
    if ReadableKeys(all) {
      forall i | 0 <= i < |a| ensures Readable(a[i].0) { assert all[i] == a[i]; }
      forall i | 0 <= i < |b| ensures Readable(b[i].0) { assert all[|a| + i] == b[i]; }
    }
  }

  /** Reading a printed line gives back the event type, the severity and every key and value, whatever the values
      contain, if every detail key is readable and the event type holds no pipe. */
  lemma {:induction false} CefRoundTrip(e: SiemEvent)
    requires ReadableKeys(e.details) && '|' !in e.eventType
    ensures ReadLine(Line(e)) == Some(CefLine(e.eventType, Decimal(e.severity), Extensions(e)))
    ensures ReadDecimal(Decimal(e.severity)) == e.severity
  {
    hide Decimal, Assignments, Line, Join, ReadExtensions, Header, Fields, ReadableKeys;
    DecimalRoundTrip(e.severity);
    LineIsHeader(e);
    var fields := PRODUCT + [e.eventType, e.eventType, Decimal(e.severity)];
    var x := Extensions(e);
    ExtensionKeysAreReadable(e);
    ExtensionsRoundTrip(x);
    FieldsInvertHeader(fields, Join(Assignments(x)));
    assert fields[..4] == PRODUCT;
  }

  /* ----- What a reader can get back at all ----- */

  lemma {:induction false} LastWordHasNoSpace(s: string)
    ensures ' ' !in LastWord(s)
  {
    if s != "" {
      LastWordHasNoSpace(s[..|s| - 1]);
    }
  }

  /** Where the last word of the first `e` characters starts. */
  function WordStart(s: string, e: nat): (j: nat)
    requires e <= |s|
    ensures j <= e
  {
    if e == 0 || s[e - 1] == ' ' then e else WordStart(s, e - 1)
  }

  lemma {:induction false} LastWordLength(s: string, e: nat)
    requires e <= |s|
    ensures |LastWord(s[..e])| == e - WordStart(s, e)
    decreases e
  {
    if e > 0 {
      assert s[..e][..e - 1] == s[..e - 1];
      LastWordLength(s, e - 1);
    }
  }

  lemma {:induction false} LastWordStarts(s: string, e: nat)
    requires e <= |s|
    ensures LastWord(s[..e]) == s[WordStart(s, e)..e]
  {
    hide LastWord, WordStart;
    LastWordLength(s, e);
    assert s[..e][WordStart(s, e)..] == s[WordStart(s, e)..e];
  }

  /** Cutting off the first `n` characters moves the start of the last word, or uncovers that it lies before. */
  lemma {:induction false} WordStartShifts(s: string, n: nat, e: nat)
    requires n <= e <= |s|
    ensures WordStart(s, e) == if WordStart(s[n..], e - n) > 0 then n + WordStart(s[n..], e - n) else WordStart(s, n)
    decreases e
  {
    if e > n {
      assert s[n..][e - n - 1] == s[e - 1];
      if s[e - 1] != ' ' {
        WordStartShifts(s, n, e - 1);
      }
    }
  }

  /** The search for an unescaped equals sign steps over one character, or over a backslash and the one behind it. */
  lemma {:induction false} FirstStep(s: string) returns (n: nat)
    requires KeyEnd(s) < |s| && s[0] != '='
    ensures 0 < n <= KeyEnd(s) && KeyEnd(s) == n + KeyEnd(s[n..])
    ensures WordStart(s, n) == 0 || WordStart(s, n) == n
  {
    n := if s[0] == '\\' then 2 else 1;
    assert WordStart(s, 0) == 0;
    assert WordStart(s, 1) == if s[0] == ' ' then 1 else 0;
  }

  /** Searched from the start of its last word, a text has its equals sign in the same place. */
  lemma {:induction false} WordEndsThere(s: string)
    requires KeyEnd(s) < |s|
    ensures KeyEnd(s[WordStart(s, KeyEnd(s))..]) == KeyEnd(s) - WordStart(s, KeyEnd(s))
  {
    hide KeyEnd, WordStart;
    DropNothing(s);
    if s[0] == '=' {
      EqualsFirst(s);
    } else {
      var e := KeyEnd(s);
      var n := FirstStep(s);
      WordEndsThere(s[n..]);
      WordStartShifts(s, n, e);
      DropTwice(s, n, WordStart(s[n..], e - n));
    }
  }

  lemma {:induction false} EqualsFirst(s: string)
    requires s != "" && s[0] == '='
    ensures KeyEnd(s) == WordStart(s, 0) == 0
  {
  }

  lemma DropNothing(s: string)
    ensures s[0..] == s
  {
  }

  lemma DropTwice(s: string, n: nat, k: nat)
    requires n + k <= |s|
    ensures s[n..][k..] == s[n + k..]
  {
  }

  lemma {:induction false} KeyEndOfPrefix(t: string)
    requires KeyEnd(t) < |t|
    ensures KeyEnd(t[..KeyEnd(t) + 1]) == KeyEnd(t)
  {
    var e := KeyEnd(t);
    if t[0] != '=' {
      var n := if t[0] == '\\' then 2 else 1;
      KeyEndOfPrefix(t[n..]);
      assert t[..e + 1][n..] == t[n..][..e - n + 1];
    }
  }

  /** The word before an unescaped equals sign is a readable key. */
  lemma {:induction false} WordIsReadable(s: string)
    requires KeyEnd(s) < |s|
    ensures Readable(LastWord(s[..KeyEnd(s)]))
  {
    hide KeyEnd, WordStart, LastWord;
    var e := KeyEnd(s);
    var j := WordStart(s, e);
    LastWordHasNoSpace(s[..e]);
    LastWordStarts(s, e);
    WordEndsThere(s);
    KeyEndOfPrefix(s[j..]);
    assert s[j..][..e - j + 1] == s[j..e] + "=";
  }

  /** Every key after the first that a reader returns is readable. */
  lemma {:induction false} ReadKeysAreReadable(key: string, s: string)
    requires ReadFrom(key, s).Some?
    ensures forall i :: 1 <= i < |ReadFrom(key, s).value| ==> Readable(ReadFrom(key, s).value[i].0)
    ensures ReadFrom(key, s).value != [] && ReadFrom(key, s).value[0].0 == key
    decreases |s|
  {
    hide KeyEnd, Readable, LastWord, Unescape;
    var e := KeyEnd(s);
    if e < |s| {
      var next := LastWord(s[..e]);
      WordIsReadable(s);
      ReadKeysAreReadable(next, s[e + 1..]);
      var all, rest := ReadFrom(key, s).value, ReadFrom(next, s[e + 1..]).value;
      assert all[1..] == rest;
      forall i | 1 <= i < |all| ensures Readable(all[i].0) {
        assert all[i] == rest[i - 1];
      }
    }
  }

  lemma {:induction false} PipeAtFirst(s: string)
    ensures '|' !in s[..PipeAt(s)]
  {
    if s != "" && s[0] != '|' {
      PipeAtFirst(s[1..]);
      assert s[..PipeAt(s)] == [s[0]] + s[1..][..PipeAt(s[1..])];
    }
  }

  lemma {:induction false} FieldsHaveNoPipe(s: string, n: nat)
    requires Fields(s, n).Some?
    ensures forall i :: 0 <= i < n ==> '|' !in Fields(s, n).value.0[i]
    decreases n
  {
    if n > 0 {
      hide PipeAt;
      var i := PipeAt(s);
      PipeAtFirst(s);
      FieldsHaveNoPipe(s[i + 1..], n - 1);
    }
  }

  lemma ReadLineIsReadable(line: string)
    requires ReadLine(line).Some?
    ensures '|' !in ReadLine(line).value.eventType
    ensures forall i :: 1 <= i < |ReadLine(line).value.extensions| ==> Readable(ReadLine(line).value.extensions[i].0)
  {
    hide Readable, KeyEnd, ReadFrom, Fields;
    FieldsHaveNoPipe(line, 7);
    var rest := Fields(line, 7).value.1;
    var e := KeyEnd(rest);
    ReadKeysAreReadable(rest[..e], rest[e + 1..]);
  }

  /** A printed line can be read back if and only if every detail key is readable and the event type holds no pipe. */
  lemma {:induction false} CefRoundTripExact(e: SiemEvent)
    ensures ReadLine(Line(e)) == Some(CefLine(e.eventType, Decimal(e.severity), Extensions(e)))
       <==> ReadableKeys(e.details) && '|' !in e.eventType
  {
    hide Decimal, Assignments, Line, Join, ReadLine, Readable, Extensions;
    if ReadableKeys(e.details) && '|' !in e.eventType {
      CefRoundTrip(e);
    }
    if ReadLine(Line(e)) == Some(CefLine(e.eventType, Decimal(e.severity), Extensions(e))) {
      ReadLineIsReadable(Line(e));
      FirstKeyIsReadable(e);
      ExtensionKeysAreReadable(e);
    }
  }

  lemma FirstKeyIsReadable(e: SiemEvent)
    ensures |Extensions(e)| >= 1 && Readable(Extensions(e)[0].0)
  {
    hide Readable;
    FixedKeys();
  }

  /** A line read back holds the fields of the event. */
  ghost predicate Recovers(l: CefLine, e: SiemEvent) {
    && l.eventType == e.eventType && ReadDecimal(l.severity) == e.severity
    && |l.extensions| == 4 + |e.details|
    && l.extensions[0] == ("trace_id", e.traceId) && l.extensions[1] == ("actor_id", e.actorId)
    && l.extensions[2] == ("tenant_id", e.tenantId) && l.extensions[3] == ("rt", e.timestamp)
    && forall i :: 0 <= i < |e.details| ==> l.extensions[4 + i] == ("cs_" + e.details[i].0, e.details[i].1)
  }

  lemma {:induction false} FieldsRecovered(e: SiemEvent)
    requires ReadableKeys(e.details) && '|' !in e.eventType
    ensures ReadLine(Line(e)).Some? && Recovers(ReadLine(Line(e)).value, e)
  {
    hide Line, ReadLine, Decimal, ReadDecimal, ReadableKeys;
    CefRoundTrip(e);
  }

  lemma LineBegins(e: SiemEvent)
    ensures "CEF:0|SafeContext|SafeContext|1.1.0|" + e.eventType + "|" + e.eventType + "|" <= Line(e)
  {
    hide Join, Decimal;
    PrefixText();
  }

  lemma {:induction false} EscHasNoNewline(s: string)
    ensures '\n' !in Encode(ESC, s)
  {
    if s != "" {
      EscHasNoNewline(s[1..]);
    }
  }

  lemma {:induction false} JoinHasNoNewline(parts: seq<string>)
    requires forall i :: 0 <= i < |parts| ==> '\n' !in parts[i]
    ensures '\n' !in Join(parts)
  {
    if |parts| > 1 {
      JoinHasNoNewline(parts[1..]);
    }
  }

  lemma {:induction false} DigitsHaveNoNewline(n: nat)
    ensures '\n' !in Digits(n)
  {
    if n >= 10 {
      DigitsHaveNoNewline(n / 10);
    }
  }

  lemma AssignmentHasNoNewline(p: Pair)
    requires '\n' !in p.0
    ensures '\n' !in Assignment(p)
  {
    hide Esc;
    EscIsPerCharacter(p.1);
    EscHasNoNewline(p.1);
  }

  /** Only a line break in a key or in the event type breaks the line. */
  lemma {:induction false} OneLine(e: SiemEvent)
    requires '\n' !in e.eventType && forall i :: 0 <= i < |e.details| ==> '\n' !in e.details[i].0
    ensures '\n' !in Line(e)
  {
    hide Join, Digits, Assignment, PREFIX;
    PrefixText();
    DigitsHaveNoNewline(if e.severity < 0 then -e.severity else e.severity);
    var pairs := Extensions(e);
    forall i | 0 <= i < |pairs| ensures '\n' !in Assignments(pairs)[i] {
      AssignmentHasNoNewline(pairs[i]);
    }
    JoinHasNoNewline(Assignments(pairs));
  }

  lemma PrefixText()
    ensures PREFIX == "CEF:0|SafeContext|SafeContext|1.1.0|"
  {
  }

  lemma EscConcat(s: string, t: string)
    ensures Esc(s + t) == Esc(s) + Esc(t)
  {
    hide Esc;
    EscIsPerCharacter(s);
    EscIsPerCharacter(t);
    EscIsPerCharacter(s + t);
    EncodeConcat(ESC, s, t);
  }

  lemma JoinOfTwo(p: Pair, q: Pair)
    ensures Join(Assignments([p, q])) == Assignment(p) + " " + Assignment(q)
  {
    assert Assignments([p, q]) == [Assignment(p), Assignment(q)];
  }

  /** With a space in a key, two different lists of pairs print the same. */
  lemma SpacedKeyIsAmbiguous(key: string, v: string, word: string, next: string, value: string)
    requires Esc(word) == word
    ensures Join(Assignments([(key, v), (word + " " + next, value)]))
         == Join(Assignments([(key, v + " " + word), (next, value)]))
  {
    JoinOfTwo((key, v), (word + " " + next, value));
    JoinOfTwo((key, v + " " + word), (next, value));
    hide Esc, Assignments;
    EscConcat(v + " ", word);
    EscConcat(v, " ");
    EscOfChar(' ');
  }
}
