/**
 * `strip_ansi`: drops terminal escape sequences from command output before
 * it is shown.  An ESC byte opens a sequence; inside a sequence every byte
 * is dropped, and a byte in '@'..'~' closes it.
 *
 * `StripFrom` is the byte loop as written and `StripAnsi` the loop itself.
 * Because '[' (0x5B) lies in '@'..'~', the introducer of a control sequence
 * ("ESC [") already closes the sequence, so its parameters leak into the
 * output.  `StripCsiFrom` is the evidently intended behaviour, which skips
 * "ESC [" parameters up to the final byte.
 */
module Ansi {
  const Esc: char := '\U{1B}'

  /** Bytes that end an escape sequence: '@' (0x40) through '~' (0x7E). */
  predicate IsFinal(c: char) {
    '@' <= c <= '~'
  }

  /** What the byte loop appends for the rest `s`, entered with `in_escape` set as given. */
  function StripFrom(s: string, inEscape: bool): string
    decreases |s|
  {
    if s == [] then []
    else if s[0] == Esc then StripFrom(s[1..], true)
    else if inEscape then StripFrom(s[1..], !IsFinal(s[0]))
    else [s[0]] + StripFrom(s[1..], false)
  }

  /** `strip_ansi`, as written. */
  method StripAnsi(input: string) returns (output: string)
    ensures output == StripFrom(input, false)
  {
    output := [];
    var inEscape := false;
    for i := 0 to |input|
      invariant output + StripFrom(input[i..], inEscape) == StripFrom(input, false)
    {
      var c := input[i];
      assert StripFrom(input[i..], inEscape) ==
        if c == Esc then StripFrom(input[i + 1..], true)
        else if inEscape then StripFrom(input[i + 1..], !IsFinal(c))
        else [c] + StripFrom(input[i + 1..], false)
      by {
        assert input[i..][0] == c && input[i..][1..] == input[i + 1..];
      }
      if c == Esc {
        inEscape := true;
        continue;
      }
      if inEscape {
        if IsFinal(c) { inEscape := false; }
        continue;
      }
      output := output + [c];
    }
    assert input[|input|..] == [];
  }

  /** The output never holds an ESC byte. */
  lemma {:induction false} StripRemovesEsc(s: string, inEscape: bool)
    ensures Esc !in StripFrom(s, inEscape)
    decreases |s|
  {
    if s != [] {
      StripRemovesEsc(s[1..], s[0] == Esc || (inEscape && !IsFinal(s[0])));
    }
  }

  /** The output is never longer than the input. */
  lemma {:induction false} StripNoLonger(s: string, inEscape: bool)
    ensures |StripFrom(s, inEscape)| <= |s|
    decreases |s|
  {
    if s != [] {
      StripNoLonger(s[1..], s[0] == Esc || (inEscape && !IsFinal(s[0])));
    }
  }

  /** Text without an ESC byte comes back unchanged. */
  lemma {:induction false} StripKeepsPlainText(s: string)
    requires Esc !in s
    ensures StripFrom(s, false) == s
    decreases |s|
  {
    if s != [] {
      assert s[0] != Esc;
      StripKeepsPlainText(s[1..]);
    }
  }

  /** Bytes that neither open nor close a sequence. */
  predicate Inside(mid: string) {
    forall k :: 0 <= k < |mid| ==> mid[k] != Esc && !IsFinal(mid[k])
  }

  /**
   * After an ESC the bytes are dropped up to and including the first byte in
   * '@'..'~'; what follows is copied as if nothing had come before.
   */
  lemma EscapeSequenceDropped(mid: string, f: char, post: string, inEscape: bool)
    requires Inside(mid) && IsFinal(f)
    ensures StripFrom([Esc] + mid + [f] + post, inEscape) == StripFrom(post, false)
  {
    var s := [Esc] + mid + [f] + post;
    assert s[1..] == mid + [f] + post;
    DroppedUntilFinal(mid, f, post);
  }

  lemma {:induction false} DroppedUntilFinal(mid: string, f: char, post: string)
    requires Inside(mid) && IsFinal(f)
    ensures StripFrom(mid + [f] + post, true) == StripFrom(post, false)
    decreases |mid|
  {
    var s := mid + [f] + post;
    if mid == [] {
      assert s[0] == f && s[1..] == post;
      assert f != Esc;
    } else {
      assert s[0] == mid[0] && s[1..] == mid[1..] + [f] + post;
      DroppedUntilFinal(mid[1..], f, post);
    }
  }

  // ---------------------------------------------------------------
  // Control sequences ("ESC [" ... final byte)
  // ---------------------------------------------------------------

  /** A colour change followed by one visible character. */
  const RedX: string := [Esc, '[', '3', '1', 'm', 'X']

  /** As written, the "[" ends the sequence and the parameters "31m" are kept. */
  lemma BracketEndsSequence()
    ensures StripFrom(RedX, false) == "31mX"
  {
    assert RedX[1..] == "[31mX";
    assert StripFrom("X", false) == "X";
    assert StripFrom("mX", false) == "mX";
    assert StripFrom("1mX", false) == "1mX";
    assert StripFrom("31mX", false) == "31mX";
  }

  datatype Mode = Plain | Escape | Control

  /** Stripping that reads "ESC [" as the start of a control sequence. */
  function StripCsiFrom(s: string, mode: Mode): string
    decreases |s|
  {
    if s == [] then []
    else if s[0] == Esc then StripCsiFrom(s[1..], Escape)
    else match mode
      case Plain => [s[0]] + StripCsiFrom(s[1..], Plain)
      case Escape =>
        if s[0] == '[' then StripCsiFrom(s[1..], Control)
        else StripCsiFrom(s[1..], if IsFinal(s[0]) then Plain else Escape)
      case Control => StripCsiFrom(s[1..], if IsFinal(s[0]) then Plain else Control)
  }

  function StripCsi(s: string): string {
    StripCsiFrom(s, Plain)
  }

  /** With control sequences read whole, the colour change disappears entirely. */
  lemma ControlSequenceRemoved()
    ensures StripCsi(RedX) == "X"
  {
    assert RedX == [Esc, '['] + "31" + ['m'] + "X";
    ControlSequenceDropped("31", 'm', "X", Plain);
    assert StripCsiFrom("X", Plain) == "X";
  }

  /** A whole control sequence, parameters and final byte included, is dropped. */
  lemma ControlSequenceDropped(params: string, f: char, post: string, mode: Mode)
    requires Inside(params) && IsFinal(f)
    ensures StripCsiFrom([Esc, '['] + params + [f] + post, mode) == StripCsiFrom(post, Plain)
  {
    var s := [Esc, '['] + params + [f] + post;
    assert s[0] == Esc && s[1..][0] == '[';
    assert s[1..][1..] == params + [f] + post;
    ControlDroppedUntilFinal(params, f, post);
  }

  lemma {:induction false} ControlDroppedUntilFinal(params: string, f: char, post: string)
    requires Inside(params) && IsFinal(f)
    ensures StripCsiFrom(params + [f] + post, Control) == StripCsiFrom(post, Plain)
    decreases |params|
  {
    var s := params + [f] + post;
    if params == [] {
      assert s[0] == f && s[1..] == post;
      assert f != Esc;
    } else {
      assert s[0] == params[0] && s[1..] == params[1..] + [f] + post;
      ControlDroppedUntilFinal(params[1..], f, post);
    }
  }

  /** The corrected stripping keeps the promises of the original: no ESC, no growth, plain text unchanged. */
  lemma {:induction false} StripCsiRemovesEsc(s: string, mode: Mode)
    ensures Esc !in StripCsiFrom(s, mode)
    ensures |StripCsiFrom(s, mode)| <= |s|
    ensures Esc !in s && mode == Plain ==> StripCsiFrom(s, mode) == s
    decreases |s|
  {
    if s != [] {
      var next :=
        if s[0] == Esc then Escape
        else match mode
          case Plain => Plain
          case Escape => if s[0] == '[' then Control else if IsFinal(s[0]) then Plain else Escape
          case Control => if IsFinal(s[0]) then Plain else Control;
      StripCsiRemovesEsc(s[1..], next);
      assert StripCsiFrom(s, mode) == (if s[0] != Esc && mode == Plain then [s[0]] else []) + StripCsiFrom(s[1..], next);
      if Esc !in s && mode == Plain {
        assert Esc !in s[1..];
      }
    }
  }
}
