/**
 * Quoting a job id for the `cancel` command line.
 *
 * The dev edition's `shell_escape` wraps the id in single quotes and
 * replaces every single quote in it by `'"'"'` (close the quotes, a quote
 * inside double quotes, reopen).  The release edition puts the id between
 * single quotes unchanged.
 *
 * `Unquote` reads a word the way a POSIX shell reads quoted text, for the
 * quoting forms used here: single-quoted runs taken literally, and
 * double-quoted runs of characters that need no escape.  It is the inverse
 * the quoting is checked against.
 */
module Shell {
  import opened Wrappers

  const Quote: char := '\''
  const DoubleQuote: char := '"'

  /** What `shell_escape` writes for one character of the id. */
  function EscapeChar(c: char): string {
    if c == Quote then [Quote, DoubleQuote, Quote, DoubleQuote, Quote] else [c]
  }

  /** What `shell_escape` writes between its opening and closing quote. */
  function EscapedBody(s: string): string
    decreases |s|
  {
    if s == [] then [] else EscapeChar(s[0]) + EscapedBody(s[1..])
  }

  lemma {:induction false} EscapedBodyAppend(a: string, b: string)
    ensures EscapedBody(a + b) == EscapedBody(a) + EscapedBody(b)
    decreases |a|
  {
    if a == [] {
      assert a + b == b;
    } else {
      assert (a + b)[0] == a[0] && (a + b)[1..] == a[1..] + b;
      EscapedBodyAppend(a[1..], b);
    }
  }

  /** `shell_escape`: the loop appending to `out`. */
  method ShellEscape(s: string) returns (out: string)
    ensures out == [Quote] + EscapedBody(s) + [Quote]
  {
    out := [Quote];
    for i := 0 to |s|
      invariant out == [Quote] + EscapedBody(s[..i])
    {
      assert EscapedBody(s[..i + 1]) == EscapedBody(s[..i]) + EscapeChar(s[i]) by {
        assert s[..i + 1] == s[..i] + [s[i]];
        EscapedBodyAppend(s[..i], [s[i]]);
        assert EscapedBody([s[i]]) == EscapeChar(s[i]) + EscapedBody([]);
      }
      if s[i] == Quote {
        out := out + [Quote, DoubleQuote, Quote, DoubleQuote, Quote];
      } else {
        out := out + [s[i]];
      }
    }
    assert s[..|s|] == s;
    out := out + [Quote];
  }

  /** The quoted form `shell_escape` produces. */
  function ShellQuote(s: string): string {
    [Quote] + EscapedBody(s) + [Quote]
  }

  /** Where the shell reader is: outside quotes, inside '...', or inside "...". */
  datatype QuoteMode = Bare | InSingle | InDouble

  /** Characters that keep a special meaning inside double quotes. */
  predicate SpecialInDouble(c: char) {
    c == '\\' || c == '$' || c == '`'
  }

  /**
   * The word a shell reads from `w`, for words made only of quoted runs.
   * An unterminated quote, a character outside quotes, or a character
   * that would be expanded inside double quotes gives None.
   */
  function Unquote(w: string, mode: QuoteMode): Option<string>
    decreases |w|
  {
    if w == [] then (if mode == Bare then Some([]) else None)
    else
      var c := w[0];
      match mode
        case Bare =>
          if c == Quote then Unquote(w[1..], InSingle)
          else if c == DoubleQuote then Unquote(w[1..], InDouble)
          else None
        case InSingle =>
          if c == Quote then Unquote(w[1..], Bare)
          else Prepend(c, Unquote(w[1..], InSingle))
        case InDouble =>
          if c == DoubleQuote then Unquote(w[1..], Bare)
          else if SpecialInDouble(c) then None
          else Prepend(c, Unquote(w[1..], InDouble))
  }

  function Prepend(c: char, r: Option<string>): Option<string> {
    if r.Some? then Some([c] + r.value) else None
  }

  /** Inside single quotes, the escaped body and the closing quote read back as the original text. */
  lemma {:induction false} EscapedBodyReadsBack(s: string)
    ensures Unquote(EscapedBody(s) + [Quote], InSingle) == Some(s)
    decreases |s|
  {
    var w := EscapedBody(s) + [Quote];
    if s == [] {
      assert w == [Quote];
      assert w[1..] == [];
    } else {
      EscapedBodyReadsBack(s[1..]);
      var tail := EscapedBody(s[1..]) + [Quote];
      assert w == EscapeChar(s[0]) + tail;
      if s[0] == Quote {
        // close the quotes, read a quote inside double quotes, reopen
        assert w[0] == Quote && w[1] == DoubleQuote && w[2] == Quote && w[3] == DoubleQuote && w[4] == Quote;
        assert Unquote(w, InSingle) == Unquote(w[1..], Bare);
        assert Unquote(w[1..], Bare) == Unquote(w[2..], InDouble) by { assert w[1..][1..] == w[2..]; }
        assert Unquote(w[2..], InDouble) == Prepend(Quote, Unquote(w[3..], InDouble)) by { assert w[2..][1..] == w[3..]; }
        assert Unquote(w[3..], InDouble) == Unquote(w[4..], Bare) by { assert w[3..][1..] == w[4..]; }
        assert Unquote(w[4..], Bare) == Unquote(tail, InSingle) by { assert w[4..][1..] == tail; }
      } else {
        assert w[0] == s[0] && w[1..] == tail;
      }
      assert [s[0]] + s[1..] == s;
    }
  }

  /** The dev quoting is exact: the shell reads back the very id, whatever characters it holds. */
  lemma ShellQuoteRoundTrip(s: string)
    ensures Unquote(ShellQuote(s), Bare) == Some(s)
  {
    var w := ShellQuote(s);
    assert w[0] == Quote && w[1..] == EscapedBody(s) + [Quote];
    EscapedBodyReadsBack(s);
  }

  /** The release quoting: the id between single quotes, unchanged. */
  function PlainQuote(s: string): string {
    [Quote] + s + [Quote]
  }

  /** The release quoting reads back exactly when the id has no single quote. */
  lemma {:induction false} PlainQuoteReadsBack(s: string)
    requires Quote !in s
    ensures Unquote(PlainQuote(s), Bare) == Some(s)
  {
    var w := PlainQuote(s);
    assert w[1..] == s + [Quote];
    LiteralRunReadsBack(s);
  }

  lemma {:induction false} LiteralRunReadsBack(s: string)
    requires Quote !in s
    ensures Unquote(s + [Quote], InSingle) == Some(s)
    decreases |s|
  {
    var w := s + [Quote];
    if s == [] {
      assert w == [Quote] && w[1..] == [];
    } else {
      assert w[0] == s[0] && w[1..] == s[1..] + [Quote];
      LiteralRunReadsBack(s[1..]);
      assert [s[0]] + s[1..] == s;
    }
  }

  /** An id with a quote breaks out of the release quoting: the shell does not read it back. */
  lemma PlainQuoteBreaksOnQuote()
    ensures Unquote(PlainQuote("a'b"), Bare) != Some("a'b")
    ensures Unquote(ShellQuote("a'b"), Bare) == Some("a'b")
  {
    var w := PlainQuote("a'b");
    assert w[1..] == "a'b'";
    assert w[1..][1..] == "'b'";
    assert w[1..][1..][1..] == "b'";
    ShellQuoteRoundTrip("a'b");
  }
}
