/**
 * `fsh_escape`: makes a string safe to place between the double quotes of
 * an FSH string literal.
 */
module Escape {
  import opened Wrappers
  import opened Text

  /** Reference meaning of the first two replacements: CRLF and bare CR become LF. */
  function NormalizeNewlines(s: string): (r: string)
    ensures '\r' !in r
  {
    if s == [] then []
    else if s[0] == '\r' then "\n" + NormalizeNewlines(if |s| > 1 && s[1] == '\n' then s[2..] else s[1..])
    else [s[0]] + NormalizeNewlines(s[1..])
  }

  /** How one character is written inside a quoted literal. */
  function EscapeChar(c: char): string {
    if c == '\\' then "\\\\" else if c == '"' then "\\\"" else [c]
  }

  /** Reference meaning of the last two replacements: backslash and quote get a backslash. */
  function QuoteEscaped(s: string): string {
    if s == [] then [] else EscapeChar(s[0]) + QuoteEscaped(s[1..])
  }

  /** What a reader of the literal does: `\\` gives `\`, `\"` gives `"`. */
  function Unescape(s: string): string {
    if s == [] then []
    else if |s| >= 2 && s[0] == '\\' && (s[1] == '\\' || s[1] == '"') then [s[1]] + Unescape(s[2..])
    else [s[0]] + Unescape(s[1..])
  }

  /**
   * Where a reader that has just passed an opening quote finds the closing
   * one: the index of the first quote not preceded by an escaping backslash.
   */
  function ClosingQuote(s: string): Option<nat> {
    if s == [] then None
    else if s[0] == '"' then Some(0)
    else if s[0] == '\\' then
      (if |s| < 2 then None
       else match ClosingQuote(s[2..]) case None => None case Some(n) => Some(n + 2))
    else match ClosingQuote(s[1..]) case None => None case Some(n) => Some(n + 1)
  }

  /** The escaping applied to a string: four `str.replace` calls, in the source's order. */
  function FshEscapeText(s: string): (r: string)
    ensures r == QuoteEscaped(NormalizeNewlines(s))
  {
    var lf := ReplaceAll(ReplaceAll(s, "\r\n", "\n"), "\r", "\n");
    ReplaceNewlinesIsNormalize(s);
    ReplaceQuotingIsQuoteEscaped(lf);
    ReplaceAll(ReplaceAll(lf, "\\", "\\\\"), "\"", "\\\"")
  }

  /** `fsh_escape(value)`: `None` gives the empty string. */
  function FshEscape(value: Option<string>): (r: string)
    ensures value.None? ==> r == ""
    ensures '\r' !in r
    ensures value.Some? ==> Unescape(r) == NormalizeNewlines(value.value)
  {
    match value
    case None => ""
    case Some(s) =>
      EscapedHasNoCR(s);
      EscapeRoundTrip(s);
      FshEscapeText(s)
  }

  lemma {:induction false} ReplaceNewlinesIsNormalize(s: string)
    ensures ReplaceAll(ReplaceAll(s, "\r\n", "\n"), "\r", "\n") == NormalizeNewlines(s)
    decreases |s|
  {
    if s == [] {
    } else if |s| >= 2 && s[..2] == "\r\n" {
      assert s[0] == '\r' && s[1] == '\n';
      var t := ReplaceAll(s[2..], "\r\n", "\n");
      assert ReplaceAll(s, "\r\n", "\n") == "\n" + t;
      ReplaceCharCons('\n', t, '\r', "\n");
      ReplaceNewlinesIsNormalize(s[2..]);
    } else {
      var t := ReplaceAll(s[1..], "\r\n", "\n");
      assert ReplaceAll(s, "\r\n", "\n") == [s[0]] + t;
      ReplaceCharCons(s[0], t, '\r', "\n");
      ReplaceNewlinesIsNormalize(s[1..]);
      if s[0] == '\r' {
        assert !(|s| > 1 && s[1] == '\n');
      }
    }
  }

  lemma {:induction false} ReplaceQuotingIsQuoteEscaped(s: string)
    ensures ReplaceAll(ReplaceAll(s, "\\", "\\\\"), "\"", "\\\"") == QuoteEscaped(s)
    decreases |s|
  {
    if s != [] {
      var c := s[0];
      var t := ReplaceAll(s[1..], "\\", "\\\\");
      assert s == [c] + s[1..];
      ReplaceCharCons(c, s[1..], '\\', "\\\\");
      var e := if c == '\\' then "\\\\" else [c];
      ReplaceCharConcat(e, t, '"', "\\\"");
      if c == '\\' {
        ReplaceAbsent(e, "\"", "\\\"");
      } else {
        ReplaceCharCons(c, [], '"', "\\\"");
        assert [c] + [] == [c];
      }
      ReplaceQuotingIsQuoteEscaped(s[1..]);
    }
  }

  /** Reading the literal back gives the escaped text. */
  lemma {:induction false} UnescapeQuoteEscaped(s: string)
    ensures Unescape(QuoteEscaped(s)) == s
    decreases |s|
  {
    if s != [] {
      var rest := QuoteEscaped(s[1..]);
      assert QuoteEscaped(s) == EscapeChar(s[0]) + rest;
      if s[0] == '\\' || s[0] == '"' {
        assert (EscapeChar(s[0]) + rest)[2..] == rest;
      } else {
        assert (EscapeChar(s[0]) + rest)[1..] == rest;
      }
      UnescapeQuoteEscaped(s[1..]);
    }
  }

  /** Escaping adds no character except backslashes. */
  lemma {:induction false} QuoteEscapedKeeps(s: string, c: char)
    requires c != '\\' && c !in s
    ensures c !in QuoteEscaped(s)
    decreases |s|
  {
    if s != [] {
      assert c !in s[1..];
      QuoteEscapedKeeps(s[1..], c);
    }
  }

  /** The escaped text contains no CR. */
  lemma EscapedHasNoCR(s: string)
    ensures '\r' !in FshEscapeText(s)
  {
    QuoteEscapedKeeps(NormalizeNewlines(s), '\r');
  }

  /** Un-escaping gives back the input with CRLF and bare CR turned into LF. */
  lemma EscapeRoundTrip(s: string)
    ensures Unescape(FshEscapeText(s)) == NormalizeNewlines(s)
  {
    UnescapeQuoteEscaped(NormalizeNewlines(s));
  }

  /**
   * Embedding is safe: after the escaped text, the quote the emitter writes is
   * the one that closes the literal, whatever follows it.
   */
  lemma {:induction false} QuoteEscapedClosesAtQuote(s: string, rest: string)
    ensures ClosingQuote(QuoteEscaped(s) + "\"" + rest) == Some(|QuoteEscaped(s)|)
    decreases |s|
  {
    if s == [] {
      assert QuoteEscaped(s) + "\"" + rest == "\"" + rest;
    } else {
      var tail := QuoteEscaped(s[1..]) + "\"" + rest;
      var e := EscapeChar(s[0]);
      assert QuoteEscaped(s) + "\"" + rest == e + tail;
      if s[0] == '\\' || s[0] == '"' {
        assert (e + tail)[2..] == tail;
      } else {
        assert (e + tail)[1..] == tail;
      }
      QuoteEscapedClosesAtQuote(s[1..], rest);
    }
  }

  lemma EscapedLiteralIsClosedByQuote(s: string, rest: string)
    ensures ClosingQuote(FshEscapeText(s) + "\"" + rest) == Some(|FshEscapeText(s)|)
  {
    QuoteEscapedClosesAtQuote(NormalizeNewlines(s), rest);
  }

  /** Normalising a string without CR changes nothing. */
  lemma {:induction false} NormalizeWithoutCR(s: string)
    requires '\r' !in s
    ensures NormalizeNewlines(s) == s
    decreases |s|
  {
    if s != [] {
      assert '\r' !in s[1..];
      NormalizeWithoutCR(s[1..]);
    }
  }

  /** Quoting a string without backslash or quote changes nothing. */
  lemma {:induction false} QuoteEscapedPlain(s: string)
    requires '\\' !in s && '"' !in s
    ensures QuoteEscaped(s) == s
    decreases |s|
  {
    if s != [] {
      assert '\\' !in s[1..] && '"' !in s[1..];
      QuoteEscapedPlain(s[1..]);
    }
  }

  /** A string with no backslash, quote or CR is returned unchanged. */
  lemma EscapeLeavesPlainText(s: string)
    requires '\\' !in s && '"' !in s && '\r' !in s
    ensures FshEscapeText(s) == s
  {
    NormalizeWithoutCR(s);
    QuoteEscapedPlain(s);
  }
}
