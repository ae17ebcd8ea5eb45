/**
 * HTML escaping: `escapeHTML` of the gated browser script (a chain of global
 * replacements) and Python's `html.escape`, which the uploader applies to a
 * note's content.
 */
module Escape {

  /** `s` with every character `c` replaced by the string `f(c)`. */
  function FlatMap(s: string, f: char -> string): string
  {
    if s == [] then [] else f(s[0]) + FlatMap(s[1..], f)
  }

  /** A per-character map distributes over concatenation. */
  lemma {:induction false} FlatMapConcat(a: string, b: string, f: char -> string)
    ensures FlatMap(a + b, f) == FlatMap(a, f) + FlatMap(b, f)
  {
    if a != [] {
      calc {
        FlatMap(a + b, f);
        f(a[0]) + FlatMap((a + b)[1..], f);
        { assert (a + b)[1..] == a[1..] + b; }
        f(a[0]) + FlatMap(a[1..] + b, f);
        { FlatMapConcat(a[1..], b, f); }
        f(a[0]) + (FlatMap(a[1..], f) + FlatMap(b, f));
      }
    } else {
      assert a + b == b;
    }
  }

  /** `str.replace(/c/g, by)`: every occurrence of `c` replaced by `by`. */
  function ReplaceAll(s: string, c: char, replacement: string): string
  {
    if s == [] then [] else (if s[0] == c then replacement else [s[0]]) + ReplaceAll(s[1..], c, replacement)
  }

  lemma {:induction false} ReplaceAllConcat(a: string, b: string, c: char, replacement: string)
    ensures ReplaceAll(a + b, c, replacement) == ReplaceAll(a, c, replacement) + ReplaceAll(b, c, replacement)
  {
    if a != [] {
      var head := if a[0] == c then replacement else [a[0]];
      calc {
        ReplaceAll(a + b, c, replacement);
        head + ReplaceAll((a + b)[1..], c, replacement);
        { assert (a + b)[1..] == a[1..] + b; }
        head + ReplaceAll(a[1..] + b, c, replacement);
        { ReplaceAllConcat(a[1..], b, c, replacement); }
        head + (ReplaceAll(a[1..], c, replacement) + ReplaceAll(b, c, replacement));
      }
    } else {
      assert a + b == b;
    }
  }

  // ---------------------------------------------------------------------------
  // escapeHTML (gated browser script)
  // ---------------------------------------------------------------------------

  /** `escapeHTML` as written: six global replacements, `&` first and the
      newline last. */
  function EscapeHtmlChain(s: string): string
  {
    var amp := ReplaceAll(s, '&', "&amp;");
    var lt := ReplaceAll(amp, '<', "&lt;");
    var gt := ReplaceAll(lt, '>', "&gt;");
    var quot := ReplaceAll(gt, '"', "&quot;");
    var apos := ReplaceAll(quot, '\'', "&#039;");
    ReplaceAll(apos, '\n', "<br>")
  }

  /** What `escapeHTML` does to one character. */
  function EscapeChar(c: char): string
  {
    match c
    case '&' => "&amp;"
    case '<' => "&lt;"
    case '>' => "&gt;"
    case '"' => "&quot;"
    case '\'' => "&#039;"
    case '\n' => "<br>"
    case _ => [c]
  }

  /** `escapeHTML` as a per-character map. */
  function EscapeHtml(s: string): string
  {
    FlatMap(s, EscapeChar)
  }

  lemma EscapeHtmlChainConcat(a: string, b: string)
    ensures EscapeHtmlChain(a + b) == EscapeHtmlChain(a) + EscapeHtmlChain(b)
  {
    var a1, b1 := ReplaceAll(a, '&', "&amp;"), ReplaceAll(b, '&', "&amp;");
    ReplaceAllConcat(a, b, '&', "&amp;");
    var a2, b2 := ReplaceAll(a1, '<', "&lt;"), ReplaceAll(b1, '<', "&lt;");
    ReplaceAllConcat(a1, b1, '<', "&lt;");
    var a3, b3 := ReplaceAll(a2, '>', "&gt;"), ReplaceAll(b2, '>', "&gt;");
    ReplaceAllConcat(a2, b2, '>', "&gt;");
    var a4, b4 := ReplaceAll(a3, '"', "&quot;"), ReplaceAll(b3, '"', "&quot;");
    ReplaceAllConcat(a3, b3, '"', "&quot;");
    var a5, b5 := ReplaceAll(a4, '\'', "&#039;"), ReplaceAll(b4, '\'', "&#039;");
    ReplaceAllConcat(a4, b4, '\'', "&#039;");
    ReplaceAllConcat(a5, b5, '\n', "<br>");
  }

  /** One replacement step applied to a one-character string. */
  lemma ReplaceAllChar(c: char, target: char, replacement: string)
    ensures ReplaceAll([c], target, replacement) == if c == target then replacement else [c]
  {
    assert [c][1..] == [];
  }

  // The chain on each of the six special characters, step by step.

  lemma EscapeHtmlChainAmpersand()
    ensures EscapeHtmlChain("&") == "&amp;"
  {
    assert ReplaceAll("&", '&', "&amp;") == "&amp;";
    assert ReplaceAll("&amp;", '<', "&lt;") == "&amp;";
    assert ReplaceAll("&amp;", '>', "&gt;") == "&amp;";
    assert ReplaceAll("&amp;", '"', "&quot;") == "&amp;";
    assert ReplaceAll("&amp;", '\'', "&#039;") == "&amp;";
    assert ReplaceAll("&amp;", '\n', "<br>") == "&amp;";
  }

  lemma EscapeHtmlChainLessThan()
    ensures EscapeHtmlChain("<") == "&lt;"
  {
    assert ReplaceAll("<", '&', "&amp;") == "<";
    assert ReplaceAll("<", '<', "&lt;") == "&lt;";
    assert ReplaceAll("&lt;", '>', "&gt;") == "&lt;";
    assert ReplaceAll("&lt;", '"', "&quot;") == "&lt;";
    assert ReplaceAll("&lt;", '\'', "&#039;") == "&lt;";
    assert ReplaceAll("&lt;", '\n', "<br>") == "&lt;";
  }

  lemma EscapeHtmlChainGreaterThan()
    ensures EscapeHtmlChain(">") == "&gt;"
  {
    assert ReplaceAll(">", '&', "&amp;") == ">";
    assert ReplaceAll(">", '<', "&lt;") == ">";
    assert ReplaceAll(">", '>', "&gt;") == "&gt;";
    assert ReplaceAll("&gt;", '"', "&quot;") == "&gt;";
    assert ReplaceAll("&gt;", '\'', "&#039;") == "&gt;";
    assert ReplaceAll("&gt;", '\n', "<br>") == "&gt;";
  }

  lemma EscapeHtmlChainQuote()
    ensures EscapeHtmlChain("\"") == "&quot;"
  {
    assert ReplaceAll("\"", '&', "&amp;") == "\"";
    assert ReplaceAll("\"", '<', "&lt;") == "\"";
    assert ReplaceAll("\"", '>', "&gt;") == "\"";
    assert ReplaceAll("\"", '"', "&quot;") == "&quot;";
    assert ReplaceAll("&quot;", '\'', "&#039;") == "&quot;";
    assert ReplaceAll("&quot;", '\n', "<br>") == "&quot;";
  }

  lemma EscapeHtmlChainApostrophe()
    ensures EscapeHtmlChain("'") == "&#039;"
  {
    assert ReplaceAll("'", '&', "&amp;") == "'";
    assert ReplaceAll("'", '<', "&lt;") == "'";
    assert ReplaceAll("'", '>', "&gt;") == "'";
    assert ReplaceAll("'", '"', "&quot;") == "'";
    assert ReplaceAll("'", '\'', "&#039;") == "&#039;";
    assert ReplaceAll("&#039;", '\n', "<br>") == "&#039;";
  }

  lemma EscapeHtmlChainNewline()
    ensures EscapeHtmlChain("\n") == "<br>"
  {
    assert ReplaceAll("\n", '&', "&amp;") == "\n";
    assert ReplaceAll("\n", '<', "&lt;") == "\n";
    assert ReplaceAll("\n", '>', "&gt;") == "\n";
    assert ReplaceAll("\n", '"', "&quot;") == "\n";
    assert ReplaceAll("\n", '\'', "&#039;") == "\n";
    assert ReplaceAll("\n", '\n', "<br>") == "<br>";
  }

  /** On a single character the replacement chain yields `EscapeChar`: no
      replacement text contains a character that a later step replaces. */
  lemma EscapeHtmlChainChar(c: char)
    ensures EscapeHtmlChain([c]) == EscapeChar(c)
  {
    match c
    case '&' =>
      assert [c] == "&";
      EscapeHtmlChainAmpersand();
    case '<' =>
      assert [c] == "<";
      EscapeHtmlChainLessThan();
    case '>' =>
      assert [c] == ">";
      EscapeHtmlChainGreaterThan();
    case '"' =>
      assert [c] == "\"";
      EscapeHtmlChainQuote();
    case '\'' =>
      assert [c] == "'";
      EscapeHtmlChainApostrophe();
    case '\n' =>
      assert [c] == "\n";
      EscapeHtmlChainNewline();
    case _ =>
      ReplaceAllChar(c, '&', "&amp;");
      ReplaceAllChar(c, '<', "&lt;");
      ReplaceAllChar(c, '>', "&gt;");
      ReplaceAllChar(c, '"', "&quot;");
      ReplaceAllChar(c, '\'', "&#039;");
      ReplaceAllChar(c, '\n', "<br>");
  }

  /** The replacement chain written in the source is exactly the per-character
      map: because `&` is replaced first and the newline last, no character
      is escaped twice. */
  lemma {:induction false} EscapeHtmlChainIsCharMap(s: string)
    ensures EscapeHtmlChain(s) == EscapeHtml(s)
  {
    if s != [] {
      assert s == [s[0]] + s[1..];
      EscapeHtmlChainConcat([s[0]], s[1..]);
      EscapeHtmlChainChar(s[0]);
      EscapeHtmlChainIsCharMap(s[1..]);
    }
  }

  /** Escaping a concatenation escapes each part. */
  lemma EscapeHtmlConcat(a: string, b: string)
    ensures EscapeHtml(a + b) == EscapeHtml(a) + EscapeHtml(b)
  {
    FlatMapConcat(a, b, EscapeChar);
  }

  /** The escaped text holds no quote, apostrophe or newline, and it is never
      shorter than the input. */
  lemma {:induction false} EscapeHtmlSafe(s: string)
    ensures '"' !in EscapeHtml(s) && '\'' !in EscapeHtml(s) && '\n' !in EscapeHtml(s)
    ensures |EscapeHtml(s)| >= |s|
  {
    if s != [] {
      EscapeHtmlSafe(s[1..]);
    }
  }

  /** Text without any of the six special characters is left unchanged. */
  lemma {:induction false} EscapeHtmlPlain(s: string)
    requires forall i :: 0 <= i < |s| ==> EscapeChar(s[i]) == [s[i]]
    ensures EscapeHtml(s) == s
  {
    if s != [] {
      EscapeHtmlPlain(s[1..]);
      assert s == [s[0]] + s[1..];
    }
  }

  // ---------------------------------------------------------------------------
  // html.escape (Python standard library, quote=True)
  // ---------------------------------------------------------------------------

  /** What Python's `html.escape` does to one character. */
  function HtmlEscapeChar(c: char): string
  {
    match c
    case '&' => "&amp;"
    case '<' => "&lt;"
    case '>' => "&gt;"
    case '"' => "&quot;"
    case '\'' => "&#x27;"
    case _ => [c]
  }

  function HtmlEscape(s: string): string
  {
    FlatMap(s, HtmlEscapeChar)
  }

  /** Content escaped by `html.escape` holds no `<`, `>`, quote or apostrophe,
      so it can contain no markup tag, and it is never shorter than the input. */
  lemma {:induction false} HtmlEscapeSafe(s: string)
    ensures '<' !in HtmlEscape(s) && '>' !in HtmlEscape(s)
    ensures '"' !in HtmlEscape(s) && '\'' !in HtmlEscape(s)
    ensures |HtmlEscape(s)| >= |s|
  {
    if s != [] {
      HtmlEscapeSafe(s[1..]);
    }
  }
}
