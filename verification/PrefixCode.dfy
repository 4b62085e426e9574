/** Strings written character by character through a code table, as `json.dumps` and the CEF printer do. */
module PrefixCode {

  type Code = char -> string

  /** The concatenation of the code words of the characters of `s`. */
  function Encode(code: Code, s: string): string {
    if s == "" then "" else code(s[0]) + Encode(code, s[1..])
  }

  /** No code word is empty or a prefix of another one. */
  ghost predicate PrefixFree(code: Code) {
    && (forall c :: code(c) != "")
    && (forall c, d :: code(c) <= code(d) ==> c == d)
  }

  /** No code word starts with the closing character `quote`. */
  ghost predicate Avoids(code: Code, quote: char) {
    forall c :: code(c) != "" && code(c)[0] != quote
  }

  lemma {:induction false} EncodeConcat(code: Code, s: string, t: string)
    ensures Encode(code, s + t) == Encode(code, s) + Encode(code, t)
  {
    if s == "" {
      assert s + t == t;
    } else {
      var w, a, b := code(s[0]), Encode(code, s[1..]), Encode(code, t);
      assert (s + t)[0] == s[0] && (s + t)[1..] == s[1..] + t;
      EncodeConcat(code, s[1..], t);
      assert w + (a + b) == (w + a) + b;
    }
  }

  /** Two prefixes of one string are comparable. */
  lemma PrefixesCompare(x: string, y: string, u: string, v: string)
    requires x + u == y + v
    ensures x <= y || y <= x
  {
    var w := x + u;
    if |x| <= |y| {
      assert x == w[..|x|] == (y + v)[..|x|] == y[..|x|];
    } else {
      assert y == w[..|y|] == (x + u)[..|y|] == x[..|y|];
    }
  }

  lemma {:induction false} ClosingQuote(code: Code, quote: char, s: string, u: string)
    requires Avoids(code, quote)
    ensures (Encode(code, s) + [quote] + u)[0] == quote <==> s == ""
  {
    if s != "" {
      assert (Encode(code, s) + [quote] + u)[0] == code(s[0])[0];
    }
  }

  lemma FirstWordsAgree(code: Code, c: char, u: string, d: char, v: string)
    requires PrefixFree(code)
    requires code(c) + u == code(d) + v
    ensures c == d && u == v
  {
    PrefixesCompare(code(c), code(d), u, v);
    assert u == (code(c) + u)[|code(c)|..] && v == (code(d) + v)[|code(d)|..];
  }

  /** A prefix-free code followed by its closing quote can be read back in only one way. */
  lemma {:induction false} UniqueReading(code: Code, quote: char, s: string, u: string, t: string, v: string)
    requires PrefixFree(code) && Avoids(code, quote)
    requires Encode(code, s) + [quote] + u == Encode(code, t) + [quote] + v
    ensures s == t && u == v
    decreases |s|
  {
    hide PrefixFree, Avoids;
    var left, right := Encode(code, s) + [quote] + u, Encode(code, t) + [quote] + v;
    ClosingQuote(code, quote, s, u);
    ClosingQuote(code, quote, t, v);
    if s == "" {
      assert u == left[1..] && v == right[1..];
    } else {
      var u', v' := Encode(code, s[1..]) + [quote] + u, Encode(code, t[1..]) + [quote] + v;
      assert left == code(s[0]) + u' && right == code(t[0]) + v';
      FirstWordsAgree(code, s[0], u', t[0], v');
      UniqueReading(code, quote, s[1..], u, t[1..], v);
    }
  }
}
