/** The quote escaping the progress callback of gui_app.py applies to a
    message before splicing it between double quotes into a JavaScript call,
    a reader for such a JavaScript string literal, and an escaping that the
    reader always decodes back to the message. */
module Escape {
  import opened Wrappers

  predicate IsQuote(c: char) {
    c == '"' || c == '\''
  }

  /** `s.replace(c, rep)` for a one-character pattern. */
  function ReplaceAll(s: string, c: char, rep: string): (r: string)
    ensures c !in s ==> r == s
    ensures c !in rep ==> c !in r
    decreases |s|
  {
    if |s| == 0 then []
    else (if s[0] == c then rep else [s[0]]) + ReplaceAll(s[1..], c, rep)
  }

  lemma {:induction false} ReplaceAllAppend(a: string, b: string, c: char, rep: string)
    ensures ReplaceAll(a + b, c, rep) == ReplaceAll(a, c, rep) + ReplaceAll(b, c, rep)
    decreases |a|
  {
    if |a| == 0 {
      assert a + b == b;
    } else {
      var x := if a[0] == c then rep else [a[0]];
      assert (a + b)[0] == a[0];
      assert (a + b)[1..] == a[1..] + b;
      ReplaceAllAppend(a[1..], b, c, rep);
      calc {
        ReplaceAll(a + b, c, rep);
        x + ReplaceAll(a[1..] + b, c, rep);
        x + (ReplaceAll(a[1..], c, rep) + ReplaceAll(b, c, rep));
        (x + ReplaceAll(a[1..], c, rep)) + ReplaceAll(b, c, rep);
      }
    }
  }

  /** The escaping as written: `"` becomes `\"`, then `'` becomes `\'`. */
  function EscapeQuotes(message: string): string {
    ReplaceAll(ReplaceAll(message, '"', "\\\""), '\'', "\\'")
  }

  /** The per-character table the two replacements amount to. */
  function EscapeChar(c: char): (r: string)
    ensures |r| > 0 && !IsQuote(r[0])
  {
    if c == '"' then "\\\""
    else if c == '\'' then "\\'"
    else [c]
  }

  function EscapeEach(message: string): string
    decreases |message|
  {
    if |message| == 0 then []
    else EscapeChar(message[0]) + EscapeEach(message[1..])
  }

  function QuoteCount(s: string): nat
    decreases |s|
  {
    if |s| == 0 then 0
    else (if IsQuote(s[0]) then 1 else 0) + QuoteCount(s[1..])
  }

  /** The two chained replacements work character by character: each `"`
      becomes `\"`, each `'` becomes `\'`, and every other character is kept.
      The second replacement never meets a `'` that the first one made. */
  lemma {:induction false} EscapeQuotesPerChar(message: string)
    ensures EscapeQuotes(message) == EscapeEach(message)
    decreases |message|
  {
    if |message| > 0 {
      var c, t := message[0], message[1..];
      assert message == [c] + t;
      ReplaceAllAppend([c], t, '"', "\\\"");
      var first := ReplaceAll([c], '"', "\\\"");
      ReplaceAllAppend(first, ReplaceAll(t, '"', "\\\""), '\'', "\\'");
      EscapeQuotesPerChar(t);
      if c == '"' {
        assert ReplaceAll("\\\"", '\'', "\\'") == "\\\"";
      }
    }
  }

  /** Escaping a single character follows the table. */
  lemma EscapeSingleChar(c: char)
    ensures EscapeQuotes([c]) == EscapeChar(c)
    ensures c == '"' ==> EscapeQuotes([c]) == ['\\', '"']
    ensures c == '\'' ==> EscapeQuotes([c]) == ['\\', '\'']
    ensures !IsQuote(c) ==> EscapeQuotes([c]) == [c]
  {
    EscapeQuotesPerChar([c]);
    assert EscapeEach([c]) == EscapeChar(c) + EscapeEach([]);
  }

  /** Escaping distributes over concatenation. */
  lemma EscapeQuotesAppend(a: string, b: string)
    ensures EscapeQuotes(a + b) == EscapeQuotes(a) + EscapeQuotes(b)
  {
    ReplaceAllAppend(a, b, '"', "\\\"");
    ReplaceAllAppend(ReplaceAll(a, '"', "\\\""), ReplaceAll(b, '"', "\\\""), '\'', "\\'");
  }

  lemma {:induction false} EscapeEachLength(message: string)
    ensures |EscapeEach(message)| == |message| + QuoteCount(message)
    decreases |message|
  {
    if |message| > 0 {
      EscapeEachLength(message[1..]);
    }
  }

  /** Each quote adds one backslash and nothing else changes length. */
  lemma EscapeQuotesLength(message: string)
    ensures |EscapeQuotes(message)| == |message| + QuoteCount(message)
  {
    EscapeQuotesPerChar(message);
    EscapeEachLength(message);
  }

  /** A message without quotes is passed through unchanged. */
  lemma EscapeQuotesFixesQuoteFree(message: string)
    requires forall i :: 0 <= i < |message| ==> !IsQuote(message[i])
    ensures EscapeQuotes(message) == message
  {
    assert '"' !in message;
    assert '\'' !in ReplaceAll(message, '"', "\\\"");
  }

  /** Every quote in the text is immediately preceded by a backslash. This
      is what the escaping guarantees, and it is not enough for JavaScript:
      that backslash may itself be escaped by one copied from the message
      (see `EscapeQuotesEarlyClose`). */
  predicate QuotesPrecededByBackslash(s: string) {
    forall i :: 0 <= i < |s| && IsQuote(s[i]) ==> i > 0 && s[i - 1] == '\\'
  }

  lemma {:induction false} EscapeEachQuotesPrecededByBackslash(message: string)
    ensures QuotesPrecededByBackslash(EscapeEach(message))
    decreases |message|
  {
    if |message| > 0 {
      var head, tail := EscapeChar(message[0]), EscapeEach(message[1..]);
      EscapeEachQuotesPrecededByBackslash(message[1..]);
      var s := head + tail;
      forall i | 0 <= i < |s| && IsQuote(s[i])
        ensures i > 0 && s[i - 1] == '\\'
      {
        if i >= |head| {
          assert s[i] == tail[i - |head|];
          if i - |head| > 0 {
            assert s[i - 1] == tail[i - |head| - 1];
          }
        }
      }
    }
  }

  /** No quote of the escaped text is left without a backslash before it. */
  lemma EscapeQuotesLeavesNoBareQuote(message: string)
    ensures QuotesPrecededByBackslash(EscapeQuotes(message))
  {
    EscapeQuotesPerChar(message);
    EscapeEachQuotesPrecededByBackslash(message);
  }

  /** Drops each backslash that stands right before a quote. */
  function Unescape(s: string): string
    decreases |s|
  {
    if |s| == 0 then []
    else if |s| >= 2 && s[0] == '\\' && IsQuote(s[1]) then [s[1]] + Unescape(s[2..])
    else [s[0]] + Unescape(s[1..])
  }

  lemma EscapeEachStart(message: string)
    requires |message| > 0
    ensures |EscapeEach(message)| > 0 && !IsQuote(EscapeEach(message)[0])
  {
    assert EscapeEach(message) == EscapeChar(message[0]) + EscapeEach(message[1..]);
  }

  lemma {:induction false} UnescapeEscapeEach(message: string)
    ensures Unescape(EscapeEach(message)) == message
    decreases |message|
  {
    if |message| > 0 {
      var c, t := message[0], message[1..];
      var s := EscapeEach(message);
      assert s == EscapeChar(c) + EscapeEach(t);
      UnescapeEscapeEach(t);
      if IsQuote(c) {
        assert s[2..] == EscapeEach(t);
      } else {
        assert s[1..] == EscapeEach(t);
        if |t| > 0 {
          EscapeEachStart(t);
          assert s[1] == EscapeEach(t)[0];
        }
      }
    }
  }

  /** The escaping loses nothing: dropping the inserted backslashes gives
      the message back, so distinct messages stay distinct. */
  lemma UnescapeEscapeQuotes(message: string)
    ensures Unescape(EscapeQuotes(message)) == message
  {
    EscapeQuotesPerChar(message);
    UnescapeEscapeEach(message);
  }

  // ---------------------------------------------------------------------------
  // Reading the escaped text back as a double-quoted JavaScript string literal
  // (section 12.9.4 of ECMA-262). The reader covers the single-character
  // escapes; hexadecimal, Unicode, octal and line-continuation escapes are
  // reported as `UnsupportedEscape` rather than decoded.

  datatype LiteralError = Unterminated | LineBreak | UnsupportedEscape

  /** A message the escaping as written already handles: no backslash and no
      line break. */
  predicate PlainMessage(message: string) {
    forall i :: 0 <= i < |message| ==> message[i] != '\\' && message[i] != '\n' && message[i] != '\r'
  }

  /** The character a backslash followed by `c` stands for. */
  function EscapeSequenceValue(c: char): Option<char> {
    if c == 'n' then Some('\n')
    else if c == 'r' then Some('\r')
    else if c == 't' then Some('\t')
    else if c == 'b' then Some('\U{8}')
    else if c == 'f' then Some('\U{C}')
    else if c == 'v' then Some('\U{B}')
    else if '0' <= c <= '9' || c == 'x' || c == 'u' || c == '\n' || c == '\r'
         || c == '\U{2028}' || c == '\U{2029}' then None
    else Some(c)
  }

  function Prepend(c: char, r: Result<(string, string), LiteralError>): Result<(string, string), LiteralError> {
    match r
    case Ok((body, rest)) => Ok(([c] + body, rest))
    case Err(e) => Err(e)
  }

  /** Reads the text that follows an opening `"`: on success, the literal's
      value and the source text after its closing `"`. */
  function ReadLiteral(s: string): (r: Result<(string, string), LiteralError>)
    ensures r.Ok? ==> |r.value.1| < |s| && r.value.1 == s[|s| - |r.value.1|..]
    decreases |s|
  {
    if |s| == 0 then Err(Unterminated)
    else if s[0] == '"' then Ok(([], s[1..]))
    else if s[0] == '\n' || s[0] == '\r' then Err(LineBreak)
    else if s[0] == '\\' then
      if |s| == 1 then Err(Unterminated)
      else
        match EscapeSequenceValue(s[1])
        case None => Err(UnsupportedEscape)
        case Some(c) => Prepend(c, ReadLiteral(s[2..]))
    else Prepend(s[0], ReadLiteral(s[1..]))
  }

  lemma SpliceAssoc(head: string, body: string, rest: string)
    ensures (head + body) + ['"'] + rest == head + (body + ['"'] + rest)
  {
  }

  /** One ordinary character of a literal stands for itself. */
  lemma ReadPlainChar(c: char, tail: string)
    requires c != '"' && c != '\\' && c != '\n' && c != '\r'
    ensures ReadLiteral([c] + tail) == Prepend(c, ReadLiteral(tail))
  {
    assert ([c] + tail)[0] == c;
    assert ([c] + tail)[1..] == tail;
  }

  /** A backslash and `x` stand for the character `x` escapes. */
  lemma ReadEscapedChar(x: char, c: char, tail: string)
    requires EscapeSequenceValue(x) == Some(c)
    ensures ReadLiteral(['\\', x] + tail) == Prepend(c, ReadLiteral(tail))
  {
    var s := ['\\', x] + tail;
    assert s[0] == '\\' && s[1] == x;
    assert s[2..] == tail;
  }

  lemma ReadClosingQuote(rest: string)
    ensures ReadLiteral(['"'] + rest) == Ok(([], rest))
  {
    assert (['"'] + rest)[1..] == rest;
  }

  /** Each entry of the table as written reads back as its character,
      provided the character is not a backslash or a line break. */
  lemma ReadEscapeChar(c: char, tail: string)
    requires c != '\\' && c != '\n' && c != '\r'
    ensures ReadLiteral(EscapeChar(c) + tail) == Prepend(c, ReadLiteral(tail))
  {
    if IsQuote(c) {
      ReadEscapedChar(c, c, tail);
    } else {
      ReadPlainChar(c, tail);
    }
  }

  lemma EscapeEachReadsBackStep(message: string, rest: string)
    requires |message| > 0
    requires message[0] != '\\' && message[0] != '\n' && message[0] != '\r'
    requires ReadLiteral(EscapeEach(message[1..]) + ['"'] + rest) == Ok((message[1..], rest))
    ensures ReadLiteral(EscapeEach(message) + ['"'] + rest) == Ok((message, rest))
  {
    var c, t := message[0], message[1..];
    SpliceAssoc(EscapeChar(c), EscapeEach(t), rest);
    ReadEscapeChar(c, EscapeEach(t) + ['"'] + rest);
    assert [c] + t == message;
  }

  lemma {:induction false} EscapeEachReadsBack(message: string, rest: string)
    requires PlainMessage(message)
    ensures ReadLiteral(EscapeEach(message) + ['"'] + rest) == Ok((message, rest))
    decreases |message|
  {
    if |message| == 0 {
      assert EscapeEach(message) + ['"'] + rest == ['"'] + rest;
      ReadClosingQuote(rest);
    } else {
      var t := message[1..];
      assert forall i :: 0 <= i < |t| ==> t[i] == message[i + 1];
      EscapeEachReadsBack(t, rest);
      EscapeEachReadsBackStep(message, rest);
    }
  }

  /** The escaping as written is sound for messages that hold no backslash
      and no line break: the literal reads back as the message and ends
      where the splice put its closing quote. */
  lemma EscapeQuotesReadsBack(message: string, rest: string)
    requires PlainMessage(message)
    ensures ReadLiteral(EscapeQuotes(message) + ['"'] + rest) == Ok((message, rest))
  {
    EscapeQuotesPerChar(message);
    EscapeEachReadsBack(message, rest);
  }

  /** A message ending in a backslash, such as the Windows folder `C:\`,
      escapes to text whose last backslash swallows the closing quote: the
      spliced literal never ends. */
  lemma EscapeQuotesTrailingBackslash()
    ensures EscapeQuotes("C:\\") == "C:\\"
    ensures ReadLiteral(EscapeQuotes("C:\\") + "\")") == Err(Unterminated)
  {
    EscapeQuotesFixesQuoteFree("C:\\");
    assert EscapeQuotes("C:\\") + "\")" == "C:\\\")";
    assert ReadLiteral([]) == Err(Unterminated);
    assert ReadLiteral(")") == Prepend(')', ReadLiteral([])) == Err(Unterminated);
    assert ReadLiteral("\\\")") == Prepend('"', ReadLiteral(")")) == Err(Unterminated);
    assert ReadLiteral(":\\\")") == Prepend(':', ReadLiteral("\\\")")) == Err(Unterminated);
    assert ReadLiteral("C:\\\")") == Prepend('C', ReadLiteral(":\\\")")) == Err(Unterminated);
  }

  /** A message holding `\"` escapes to `\\"`: the message's backslash
      escapes the inserted one, so the message's own quote closes the literal
      early and the text after it is read as script. */
  lemma EscapeQuotesEarlyClose()
    ensures EscapeQuotes("\\\"") == "\\\\\""
    ensures ReadLiteral(EscapeQuotes("\\\"") + "\")") == Ok(("\\", "\")"))
  {
    EscapeQuotesPerChar("\\\"");
    assert EscapeEach("\\\"") == "\\" + EscapeEach("\"");
    assert EscapeEach("\"") == "\\\"" + EscapeEach([]);
    assert EscapeQuotes("\\\"") + "\")" == ['\\', '\\', '"', '"', ')'];
    ReadEscapedChar('\\', '\\', ['"', '"', ')']);
    ReadClosingQuote(['"', ')']);
    assert ['\\', '\\'] + ['"', '"', ')'] == EscapeQuotes("\\\"") + "\")";
    var closed: Result<(string, string), LiteralError> := Ok(([], ['"', ')']));
    assert ['\\'] + [] == ['\\'];
    assert Prepend('\\', closed) == Ok((['\\'], ['"', ')']));
  }

  /** The corrected table: the backslash itself and the line breaks are
      escaped as well as the quotes. */
  function JsEscapeChar(c: char): (r: string)
    ensures |r| > 0 && !IsQuote(r[0]) && r[0] !in {'\n', '\r'}
  {
    if c == '\\' then "\\\\"
    else if c == '"' then "\\\""
    else if c == '\'' then "\\'"
    else if c == '\n' then "\\n"
    else if c == '\r' then "\\r"
    else [c]
  }

  /** The corrected escaping, used in place of `EscapeQuotes`. */
  function EscapeForJs(message: string): string
    decreases |message|
  {
    if |message| == 0 then []
    else JsEscapeChar(message[0]) + EscapeForJs(message[1..])
  }

  /** Each entry of the corrected table reads back as its character. */
  lemma ReadJsEscapeChar(c: char, tail: string)
    ensures ReadLiteral(JsEscapeChar(c) + tail) == Prepend(c, ReadLiteral(tail))
  {
    if c == '\\' {
      ReadEscapedChar('\\', c, tail);
    } else if c == '"' {
      ReadEscapedChar('"', c, tail);
    } else if c == '\'' {
      ReadEscapedChar('\'', c, tail);
    } else if c == '\n' {
      ReadEscapedChar('n', c, tail);
    } else if c == '\r' {
      ReadEscapedChar('r', c, tail);
    } else {
      ReadPlainChar(c, tail);
    }
  }

  lemma EscapeForJsReadsBackStep(message: string, rest: string)
    requires |message| > 0
    requires ReadLiteral(EscapeForJs(message[1..]) + ['"'] + rest) == Ok((message[1..], rest))
    ensures ReadLiteral(EscapeForJs(message) + ['"'] + rest) == Ok((message, rest))
  {
    var c, t := message[0], message[1..];
    SpliceAssoc(JsEscapeChar(c), EscapeForJs(t), rest);
    ReadJsEscapeChar(c, EscapeForJs(t) + ['"'] + rest);
    assert [c] + t == message;
  }

  /** Every message survives the corrected escaping: the spliced literal
      reads back as exactly the message and ends at the splice's quote. */
  lemma {:induction false} EscapeForJsReadsBack(message: string, rest: string)
    ensures ReadLiteral(EscapeForJs(message) + ['"'] + rest) == Ok((message, rest))
    decreases |message|
  {
    if |message| == 0 {
      assert EscapeForJs(message) + ['"'] + rest == ['"'] + rest;
      ReadClosingQuote(rest);
    } else {
      EscapeForJsReadsBack(message[1..], rest);
      EscapeForJsReadsBackStep(message, rest);
    }
  }

  /** The correction changes nothing for the messages the original escaping
      already handled. */
  lemma {:induction false} EscapeForJsAgreesWithoutBackslash(message: string)
    requires PlainMessage(message)
    ensures EscapeForJs(message) == EscapeQuotes(message)
    decreases |message|
  {
    EscapeQuotesPerChar(message);
    if |message| > 0 {
      EscapeForJsAgreesWithoutBackslash(message[1..]);
      EscapeQuotesPerChar(message[1..]);
    }
  }
}
