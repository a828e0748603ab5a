/*******************************************************************************
 *  The submissions page's `escapeHtml`, the entity decoding a browser applies
 *  to text and attribute values, and the single-quoted JavaScript string
 *  literal used in the cards' delete buttons.
 *******************************************************************************/

module Html {
  import opened Js

  /** The characters the page never lets through raw. */
  predicate Unsafe(c: char) {
    c == '<' || c == '>' || c == '"' || c == '\''
  }

  /** The replacement of one character: never an unsafe character, and as
      long as the character plus the extra length its entity needs. */
  function EscapeChar(c: char): (r: string)
    ensures forall i | 0 <= i < |r| :: !Unsafe(r[i])
    ensures |r| == 1 + (if c == '&' then 4 else if c == '<' || c == '>' then 3
                        else if c == '"' || c == '\'' then 5 else 0)
  {
    if c == '&' then "&amp;"
    else if c == '<' then "&lt;"
    else if c == '>' then "&gt;"
    else if c == '"' then "&quot;"
    else if c == '\'' then "&#039;"
    else [c]
  }

  /** Occurrences of c in s. */
  function Count(s: string, c: char): nat
    decreases |s|
  {
    if |s| == 0 then 0 else (if s[0] == c then 1 else 0) + Count(s[1..], c)
  }

  /** `escapeHtml(text)`: the five characters `& < > " '` become entities in a
      single pass; every other character is copied. The output holds no raw
      `< > " '`, and grows by 4 per `&`, 3 per `<` or `>` and 5 per `"` or `'`. */
  function EscapeHtml(s: string): (r: string)
    ensures forall i | 0 <= i < |r| :: !Unsafe(r[i])
    ensures |r| == |s| + 4 * Count(s, '&') + 3 * (Count(s, '<') + Count(s, '>'))
                      + 5 * (Count(s, '"') + Count(s, '\''))
    decreases |s|
  {
    if |s| == 0 then [] else EscapeChar(s[0]) + EscapeHtml(s[1..])
  }

  /** Escaping distributes over concatenation. */
  lemma {:induction false} EscapeAppend(a: string, b: string)
    ensures EscapeHtml(a + b) == EscapeHtml(a) + EscapeHtml(b)
    decreases |a|
  {
    if |a| > 0 {
      assert (a + b)[1..] == a[1..] + b;
      EscapeAppend(a[1..], b);
    } else {
      assert a + b == b;
    }
  }

  /** Text with none of the five characters is left exactly as it is. */
  lemma {:induction false} EscapeKeepsPlainText(s: string)
    requires forall i | 0 <= i < |s| :: !Unsafe(s[i]) && s[i] != '&'
    ensures EscapeHtml(s) == s
    decreases |s|
  {
    if |s| > 0 {
      EscapeKeepsPlainText(s[1..]);
    }
  }

  /** The character reference at the front of s, restricted to the five the
      escaper writes: the character it stands for and its length. */
  function EntityAt(s: string): Option<(char, nat)> {
    if |s| >= 5 && s[0] == '&' && s[1] == 'a' && s[2] == 'm' && s[3] == 'p' && s[4] == ';' then Some(('&', 5))
    else if |s| >= 4 && s[0] == '&' && s[1] == 'l' && s[2] == 't' && s[3] == ';' then Some(('<', 4))
    else if |s| >= 4 && s[0] == '&' && s[1] == 'g' && s[2] == 't' && s[3] == ';' then Some(('>', 4))
    else if |s| >= 6 && s[0] == '&' && s[1] == 'q' && s[2] == 'u' && s[3] == 'o' && s[4] == 't' && s[5] == ';' then Some(('"', 6))
    else if |s| >= 6 && s[0] == '&' && s[1] == '#' && s[2] == '0' && s[3] == '3' && s[4] == '9' && s[5] == ';' then Some(('\'', 6))
    else None
  }

  /** The character references a browser decodes in text and attribute
      values, restricted to the five the escaper writes; any other `&` is
      kept as it is. */
  function DecodeEntities(s: string): string
    decreases |s|
  {
    if |s| == 0 then []
    else match EntityAt(s)
      case Some((c, n)) => if 0 < n <= |s| then [c] + DecodeEntities(s[n..]) else []
      case None => [s[0]] + DecodeEntities(s[1..])
  }

  lemma DecodeEscapedChar(c: char, t: string)
    ensures DecodeEntities(EscapeChar(c) + t) == [c] + DecodeEntities(t)
  {
    var x := EscapeChar(c);
    var e := x + t;
    assert e[..|x|] == x && e[|x|..] == t;
    if c == '&' {
      assert e[0] == '&' && e[1] == 'a' && e[2] == 'm' && e[3] == 'p' && e[4] == ';';
      assert EntityAt(e) == Some((c, 5));
    } else if c == '<' {
      assert e[0] == '&' && e[1] == 'l' && e[2] == 't' && e[3] == ';';
      assert EntityAt(e) == Some((c, 4));
    } else if c == '>' {
      assert e[0] == '&' && e[1] == 'g' && e[2] == 't' && e[3] == ';';
      assert EntityAt(e) == Some((c, 4));
    } else if c == '"' {
      assert e[0] == '&' && e[1] == 'q' && e[2] == 'u' && e[3] == 'o' && e[4] == 't' && e[5] == ';';
      assert EntityAt(e) == Some((c, 6));
    } else if c == '\'' {
      assert e[0] == '&' && e[1] == '#' && e[2] == '0' && e[3] == '3' && e[4] == '9' && e[5] == ';';
      assert EntityAt(e) == Some((c, 6));
    } else {
      assert e[0] == c;
      assert EntityAt(e) == None;
    }
  }

  /** Decoding undoes escaping, whatever follows: the browser shows exactly the
      text that was escaped. */
  lemma {:induction false} DecodeEscaped(s: string, t: string)
    ensures DecodeEntities(EscapeHtml(s) + t) == s + DecodeEntities(t)
    decreases |s|
  {
    if |s| == 0 {
      assert EscapeHtml(s) + t == t;
    } else {
      DecodeEscaped(s[1..], t);
      DecodeEscapedStep(s, t);
    }
  }

  /** One step of the round trip: the first character, given the rest. */
  lemma DecodeEscapedStep(s: string, t: string)
    requires |s| > 0
    requires DecodeEntities(EscapeHtml(s[1..]) + t) == s[1..] + DecodeEntities(t)
    ensures DecodeEntities(EscapeHtml(s) + t) == s + DecodeEntities(t)
  {
    var u := EscapeHtml(s[1..]) + t;
    EscapeFront(s, t);
    DecodeEscapedChar(s[0], u);
    Cons(s, DecodeEntities(t));
  }

  /** Escaping s in front of t is escaping its first character in front of
      the rest. */
  lemma EscapeFront(s: string, t: string)
    requires |s| > 0
    ensures EscapeHtml(s) + t == EscapeChar(s[0]) + (EscapeHtml(s[1..]) + t)
  {
    Assoc(EscapeChar(s[0]), EscapeHtml(s[1..]), t);
  }

  lemma Assoc(a: string, b: string, c: string)
    ensures (a + b) + c == a + (b + c)
  {
  }

  lemma Cons(s: string, d: string)
    requires |s| > 0
    ensures [s[0]] + (s[1..] + d) == s + d
  {
    assert s == [s[0]] + s[1..];
  }

  /** The round trip on its own. */
  lemma EscapeRoundTrip(s: string)
    ensures DecodeEntities(EscapeHtml(s)) == s
  {
    DecodeEscaped(s, []);
    assert EscapeHtml(s) + [] == EscapeHtml(s);
  }

  /** Text without `&` decodes to itself, also in front of other text. */
  lemma {:induction false} DecodePlain(p: string, t: string)
    requires forall i | 0 <= i < |p| :: p[i] != '&'
    ensures DecodeEntities(p + t) == p + DecodeEntities(t)
    decreases |p|
  {
    if |p| > 0 {
      assert (p + t)[1..] == p[1..] + t;
      DecodePlain(p[1..], t);
    } else {
      assert p + t == t;
    }
  }

  // ---------------------------------------------------------------------------
  // Single-quoted JavaScript string literals
  // ---------------------------------------------------------------------------

  /** A literal read from source text: its value and the text after it. */
  datatype Lexed = Lexed(value: string, rest: string)

  /** Reads the body of a single-quoted literal whose opening quote has been
      consumed, up to the closing quote. None when the literal is unterminated
      (or broken by a line break), or uses an escape this model does not cover. */
  function ReadQuoted(s: string): (r: Option<Lexed>)
    decreases |s|
  {
    if |s| == 0 then None
    else if s[0] == '\'' then Some(Lexed([], s[1..]))
    else if s[0] == '\n' || s[0] == '\r' then None
    else if s[0] == '\\' then
      if |s| < 2 then None
      else
        var c := s[1];
        var decoded :=
          if c == 'n' then Some('\n') else if c == 'r' then Some('\r')
          else if c == '\\' || c == '\'' || c == '"' then Some(c) else None;
        match decoded
        case None => None
        case Some(d) =>
          match ReadQuoted(s[2..])
          case None => None
          case Some(l) => Some(Lexed([d] + l.value, l.rest))
    else
      match ReadQuoted(s[1..])
      case None => None
      case Some(l) => Some(Lexed([s[0]] + l.value, l.rest))
  }

  /** Escapes text for a single-quoted JavaScript literal: backslash, quote and
      the two line breaks get a backslash escape. */
  function QuoteChar(c: char): string {
    if c == '\\' then "\\\\"
    else if c == '\'' then "\\'"
    else if c == '\n' then "\\n"
    else if c == '\r' then "\\r"
    else [c]
  }

  function JsQuote(s: string): string
    decreases |s|
  {
    if |s| == 0 then [] else QuoteChar(s[0]) + JsQuote(s[1..])
  }

  /** A quoted text followed by the closing quote reads back as exactly that
      text, and the reader stops right after that quote. */
  lemma {:induction false} ReadJsQuoted(s: string, rest: string)
    ensures ReadQuoted(JsQuote(s) + "'" + rest) == Some(Lexed(s, rest))
    decreases |s|
  {
    if |s| == 0 {
      assert JsQuote(s) + "'" + rest == "'" + rest;
      assert ("'" + rest)[1..] == rest;
    } else {
      var tail := JsQuote(s[1..]) + "'" + rest;
      ReadJsQuoted(s[1..], rest);
      QuoteFront(s, rest);
      ReadQuotedChar(s[0], tail, s[1..], rest);
      assert [s[0]] + s[1..] == s;
    }
  }

  /** Quoting s in front of the closing quote is quoting its first character
      in front of the rest. */
  lemma QuoteFront(s: string, rest: string)
    requires |s| > 0
    ensures JsQuote(s) + "'" + rest == QuoteChar(s[0]) + (JsQuote(s[1..]) + "'" + rest)
  {
    Assoc(QuoteChar(s[0]), JsQuote(s[1..]), "'");
    Assoc(QuoteChar(s[0]), JsQuote(s[1..]) + "'", rest);
  }

  /** One quoted character in front of a literal body that reads as v. */
  lemma ReadQuotedChar(c: char, tail: string, v: string, rest: string)
    requires ReadQuoted(tail) == Some(Lexed(v, rest))
    ensures ReadQuoted(QuoteChar(c) + tail) == Some(Lexed([c] + v, rest))
  {
    var src := QuoteChar(c) + tail;
    if c == '\\' || c == '\'' || c == '\n' || c == '\r' {
      assert src[0] == '\\' && src[2..] == tail;
      assert c == '\\' ==> src[1] == '\\';
      assert c == '\'' ==> src[1] == '\'';
      assert c == '\n' ==> src[1] == 'n';
      assert c == '\r' ==> src[1] == 'r';
    } else {
      assert src[0] == c && src[1..] == tail;
    }
  }
}
