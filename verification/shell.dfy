/** Quoting of command-line arguments for the POSIX shell that runs the
    backup and restore jobs. */
module Shell {

  /** The inside of a single-quoted word: every `'` is closed, escaped and reopened. */
  function QuoteBody(s: string): string
    decreases |s|
  {
    if |s| == 0 then ""
    else (if s[0] == '\'' then "'\\''" else [s[0]]) + QuoteBody(s[1..])
  }

  /** PHP's `escapeshellarg()` on POSIX systems. */
  function EscapeShellArg(s: string): (r: string)
    ensures |r| >= 2 && r[0] == '\'' && r[|r| - 1] == '\''
    ensures |r| >= |s| + 2
  {
    QuoteBodyLength(s);
    "'" + QuoteBody(s) + "'"
  }

  lemma {:induction false} QuoteBodyLength(s: string)
    ensures |QuoteBody(s)| >= |s|
    decreases |s|
  {
    if |s| > 0 {
      QuoteBodyLength(s[1..]);
    }
  }

  /** How the shell reads a word outside quotes: `'` opens a quoted part,
      a backslash takes the next character literally. */
  function DecodeUnquoted(w: string): string
    decreases |w|
  {
    if |w| == 0 then ""
    else if w[0] == '\'' then DecodeQuoted(w[1..])
    else if w[0] == '\\' && |w| >= 2 then [w[1]] + DecodeUnquoted(w[2..])
    else [w[0]] + DecodeUnquoted(w[1..])
  }

  /** How the shell reads the inside of a single-quoted part: literally, up to the closing `'`. */
  function DecodeQuoted(w: string): string
    decreases |w|
  {
    if |w| == 0 then ""
    else if w[0] == '\'' then DecodeUnquoted(w[1..])
    else [w[0]] + DecodeQuoted(w[1..])
  }

  lemma DecodeQuotedPlain(c: char, t: string)
    requires c != '\''
    ensures DecodeQuoted([c] + t) == [c] + DecodeQuoted(t)
  {
    assert ([c] + t)[1..] == t;
  }

  /** The four characters `'\''` inside a quoted part stand for one quote. */
  lemma DecodeQuotedEscape(t: string)
    ensures DecodeQuoted("'\\''" + t) == "'" + DecodeQuoted(t)
  {
    var w := "'\\''" + t;
    assert w[1..] == "\\''" + t;
    assert w[1..][2..] == "'" + t;
    assert w[1..][2..][1..] == t;
    assert DecodeQuoted(w) == DecodeUnquoted(w[1..]);
    assert w[1..][0] == '\\' && w[1..][1] == '\'';
    assert DecodeUnquoted(w[1..]) == "'" + DecodeUnquoted(w[1..][2..]);
    assert DecodeUnquoted(w[1..][2..]) == DecodeQuoted(t);
  }

  lemma {:induction false} DecodeQuoteBody(s: string, rest: string)
    ensures DecodeQuoted(QuoteBody(s) + "'" + rest) == s + DecodeUnquoted(rest)
    decreases |s|
  {
    if |s| == 0 {
      assert QuoteBody(s) + "'" + rest == "'" + rest;
      assert ("'" + rest)[1..] == rest;
    } else {
      DecodeQuoteBody(s[1..], rest);
      if s[0] == '\'' {
        DecodeQuoteBodyQuote(s, rest);
      } else {
        DecodeQuoteBodyPlain(s, rest);
      }
    }
  }

  /** A quote is written as `'\''` and read back as one quote. */
  lemma DecodeQuoteBodyQuote(s: string, rest: string)
    requires |s| > 0 && s[0] == '\''
    requires DecodeQuoted(QuoteBody(s[1..]) + "'" + rest) == s[1..] + DecodeUnquoted(rest)
    ensures DecodeQuoted(QuoteBody(s) + "'" + rest) == s + DecodeUnquoted(rest)
  {
    var tail := QuoteBody(s[1..]) + "'" + rest;
    assert QuoteBody(s) + "'" + rest == "'\\''" + tail;
    DecodeQuotedEscape(tail);
    ConsSplit(s, DecodeUnquoted(rest));
  }

  /** Any other character is written and read back as itself. */
  lemma DecodeQuoteBodyPlain(s: string, rest: string)
    requires |s| > 0 && s[0] != '\''
    requires DecodeQuoted(QuoteBody(s[1..]) + "'" + rest) == s[1..] + DecodeUnquoted(rest)
    ensures DecodeQuoted(QuoteBody(s) + "'" + rest) == s + DecodeUnquoted(rest)
  {
    var tail := QuoteBody(s[1..]) + "'" + rest;
    assert QuoteBody(s) + "'" + rest == [s[0]] + tail;
    DecodeQuotedPlain(s[0], tail);
    ConsSplit(s, DecodeUnquoted(rest));
  }

  lemma ConsSplit(x: string, t: string)
    requires |x| > 0
    ensures [x[0]] + (x[1..] + t) == x + t
  {
    assert [x[0]] + x[1..] == x;
  }

  /** The shell hands the job exactly the text that was escaped. */
  lemma EscapeRoundTrip(s: string)
    ensures DecodeUnquoted(EscapeShellArg(s)) == s
  {
    var w := EscapeShellArg(s);
    assert w[1..] == QuoteBody(s) + "'" + "";
    DecodeQuoteBody(s, "");
    assert s + "" == s;
  }

  /** Characters other than quotes and backslashes read as themselves. */
  lemma {:induction false} DecodePlainPrefix(p: string, w: string)
    requires forall k :: 0 <= k < |p| ==> p[k] != '\'' && p[k] != '\\'
    ensures DecodeUnquoted(p + w) == p + DecodeUnquoted(w)
    decreases |p|
  {
    if |p| == 0 {
      assert p + w == w;
    } else {
      var t := p + w;
      assert t[0] == p[0] && t[0] != '\'' && t[0] != '\\';
      assert t[1..] == p[1..] + w;
      assert DecodeUnquoted(t) == [p[0]] + DecodeUnquoted(t[1..]);
      assert forall k :: 0 <= k < |p[1..]| ==> p[1..][k] == p[k + 1];
      DecodePlainPrefix(p[1..], w);
      assert [p[0]] + (p[1..] + DecodeUnquoted(w)) == p + DecodeUnquoted(w);
    }
  }
}
