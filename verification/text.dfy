/**
 * String helpers shared by the parser and the queue client:
 * `trim_copy`, the `std::string::find` searches, `std::getline` line splitting,
 * `operator>>` token extraction, ASCII `tolower` and `std::to_string`.
 * Strings stand for byte strings; every byte is a `char`.
 */
module Text {
  import opened Wrappers
  import Seqs

  /** `std::isspace` in the "C" locale: space, \t, \n, \v, \f and \r. */
  predicate IsSpace(c: char) {
    c == ' ' || c == '\t' || c == '\n' || c == '\r' || c == 11 as char || c == 12 as char
  }

  predicate AllSpace(s: string) {
    forall k :: 0 <= k < |s| ==> IsSpace(s[k])
  }

  predicate NoSpace(s: string) {
    forall k :: 0 <= k < |s| ==> !IsSpace(s[k])
  }

  // ---------------------------------------------------------------
  // trim_copy
  // ---------------------------------------------------------------

  /** What is left after erasing leading whitespace. */
  function TrimLeft(s: string): (r: string)
    ensures |r| <= |s| && r == s[|s| - |r|..]
    ensures forall k :: 0 <= k < |s| - |r| ==> IsSpace(s[k])
    ensures r == [] || !IsSpace(r[0])
  {
    if |s| > 0 && IsSpace(s[0]) then
      var r := TrimLeft(s[1..]);
      assert s[1..][|s| - 1 - |r|..] == s[|s| - |r|..];
      r
    else s
  }

  /** What is left after popping trailing whitespace. */
  function TrimRight(s: string): (r: string)
    ensures |r| <= |s| && r == s[..|r|]
    ensures forall k :: |r| <= k < |s| ==> IsSpace(s[k])
    ensures r == [] || !IsSpace(r[|r| - 1])
  {
    if |s| > 0 && IsSpace(s[|s| - 1]) then
      var r := TrimRight(s[..|s| - 1]);
      assert r == s[..|r|];
      r
    else s
  }

  /**
   * `trim_copy(s)`: what is left of `s` once leading and trailing whitespace
   * are cut away; it is empty exactly when `s` is all whitespace.
   */
  function Trim(s: string): (r: string)
    ensures |r| <= |s|
    ensures r == [] || (!IsSpace(r[0]) && !IsSpace(r[|r| - 1]))
    ensures r == [] <==> AllSpace(s)
  {
    NonSpaceSurvives(s);
    TrimRight(TrimLeft(s))
  }

  /** A string that is not all whitespace keeps a non-whitespace character after trimming. */
  lemma NonSpaceSurvives(s: string)
    ensures !AllSpace(s) ==> TrimLeft(s) != [] && TrimRight(TrimLeft(s)) != []
    ensures AllSpace(s) ==> TrimLeft(s) == []
  {
    var t := TrimLeft(s);
    if t != [] {
      assert s[|s| - |t|] == t[0];
    }
    if !AllSpace(s) {
      var k :| 0 <= k < |s| && !IsSpace(s[k]);
      TrimLeftStopsAt(s, k);
      assert t[k - (|s| - |t|)] == s[k];
      KeepsFirst(t);
    }
  }

  /** Popping trailing whitespace keeps a text whose first character is not whitespace non-empty. */
  lemma KeepsFirst(t: string)
    requires t != [] && !IsSpace(t[0])
    ensures TrimRight(t) != []
  {
  }

  /** Erasing leading whitespace stops at or before the first non-whitespace character. */
  lemma {:induction false} TrimLeftStopsAt(s: string, k: nat)
    requires k < |s| && !IsSpace(s[k])
    ensures |s| - |TrimLeft(s)| <= k
    decreases k
  {
    if IsSpace(s[0]) {
      assert s[1..][k - 1] == s[k];
      TrimLeftStopsAt(s[1..], k - 1);
    }
  }

  /**
   * `trim_copy(s)` is a contiguous piece of `s`, starting at `i`, and
   * everything cut away on either side of it is whitespace.
   */
  lemma TrimIsMiddle(s: string) returns (i: nat)
    ensures i + |Trim(s)| <= |s| && Trim(s) == s[i..i + |Trim(s)|]
    ensures forall k :: 0 <= k < i ==> IsSpace(s[k])
    ensures forall k :: i + |Trim(s)| <= k < |s| ==> IsSpace(s[k])
  {
    i := CutBothEnds(s, TrimLeft(s), Trim(s));
  }

  /**
   * Cutting whitespace from the front of `s` to get `t`, then from the back
   * of `t` to get `r`, leaves `r` in the middle of `s`, starting at `i`.
   */
  lemma CutBothEnds(s: string, t: string, r: string) returns (i: nat)
    requires |t| <= |s| && t == s[|s| - |t|..] && forall k :: 0 <= k < |s| - |t| ==> IsSpace(s[k])
    requires |r| <= |t| && r == t[..|r|] && forall k :: |r| <= k < |t| ==> IsSpace(t[k])
    ensures i + |r| <= |s| && r == s[i..i + |r|]
    ensures forall k :: 0 <= k < i ==> IsSpace(s[k])
    ensures forall k :: i + |r| <= k < |s| ==> IsSpace(s[k])
  {
    i := |s| - |t|;
    forall k | i + |r| <= k < |s| ensures IsSpace(s[k]) {
      assert s[k] == t[k - i];
    }
  }

  /** `trim_copy` is idempotent. */
  lemma TrimIdempotent(s: string)
    ensures Trim(Trim(s)) == Trim(s)
  {
    var r := Trim(s);
    assert TrimLeft(r) == r;
    assert TrimRight(r) == r;
  }

  /** Trimming never changes a string that has no whitespace at either end. */
  lemma TrimOfTrimmed(s: string)
    requires s == [] || (!IsSpace(s[0]) && !IsSpace(s[|s| - 1]))
    ensures Trim(s) == s
  {
    assert TrimLeft(s) == s;
    assert TrimRight(s) == s;
  }

  /** `trim_copy`, as written: erase whitespace from the front, then pop it from the back. */
  method TrimCopy(s: string) returns (r: string)
    ensures r == Trim(s)
  {
    r := s;
    while |r| > 0 && IsSpace(r[0])
      invariant TrimLeft(r) == TrimLeft(s)
    {
      r := r[1..];
    }
    while |r| > 0 && IsSpace(r[|r| - 1])
      invariant TrimRight(r) == Trim(s)
    {
      r := r[..|r| - 1];
    }
  }

  // ---------------------------------------------------------------
  // std::string::find
  // ---------------------------------------------------------------

  predicate OccursAt(s: string, pat: string, i: nat) {
    i + |pat| <= |s| && s[i..i + |pat|] == pat
  }

  /** `s.find(pat, from)`: the first position at or after `from` where `pat` occurs. */
  function FindFrom(s: string, pat: string, from: nat): (r: Option<nat>)
    decreases |s| - from
    ensures r.Some? ==> from <= r.value && OccursAt(s, pat, r.value)
    ensures r.Some? ==> forall j :: from <= j < r.value ==> !OccursAt(s, pat, j)
    ensures r.None? ==> forall j :: from <= j ==> !OccursAt(s, pat, j)
  {
    if from + |pat| > |s| then None
    else if s[from..from + |pat|] == pat then Some(from)
    else FindFrom(s, pat, from + 1)
  }

  /** `s.find(pat) != std::string::npos` */
  predicate Contains(s: string, pat: string) {
    FindFrom(s, pat, 0).Some?
  }

  lemma ContainsIff(s: string, pat: string)
    ensures Contains(s, pat) <==> exists i: nat :: OccursAt(s, pat, i)
  {
    if !Contains(s, pat) {
      assert forall i: nat :: !OccursAt(s, pat, i);
    }
  }

  /** `s.find(c, from)` for a single character. */
  function IndexOf(s: string, c: char, from: nat): (r: Option<nat>)
    decreases |s| - from
    ensures r.Some? ==> from <= r.value < |s| && s[r.value] == c
    ensures r.Some? ==> forall j :: from <= j < r.value ==> s[j] != c
    ensures r.None? ==> forall j :: from <= j < |s| ==> s[j] != c
  {
    if from >= |s| then None
    else if s[from] == c then Some(from)
    else IndexOf(s, c, from + 1)
  }

  // ---------------------------------------------------------------
  // std::getline
  // ---------------------------------------------------------------

  /**
   * The lines `std::getline` yields from an `istringstream` over `text`:
   * pieces between '\n' separators; a final empty piece (text empty or
   * ending in '\n') yields no line.
   */
  function Lines(text: string): seq<string>
    decreases |text|
  {
    if text == [] then []
    else match IndexOf(text, '\n', 0)
      case None => [text]
      case Some(k) => [text[..k]] + Lines(text[k + 1..])
  }

  /** Each line followed by its '\n'. */
  function Unlines(ls: seq<string>): string {
    if ls == [] then [] else ls[0] + "\n" + Unlines(ls[1..])
  }

  /** No line holds a '\n'. */
  lemma {:induction false} LinesHaveNoNewline(text: string)
    ensures forall k :: 0 <= k < |Lines(text)| ==> '\n' !in Lines(text)[k]
    decreases |text|
  {
    if text != [] {
      match IndexOf(text, '\n', 0)
      case None =>
      case Some(k) =>
        LinesHaveNoNewline(text[k + 1..]);
        var ls := Lines(text);
        assert ls == [text[..k]] + Lines(text[k + 1..]);
        forall j | 0 <= j < |ls| ensures '\n' !in ls[j] {
          if j > 0 { assert ls[j] == Lines(text[k + 1..])[j - 1]; }
        }
    }
  }

  /** Splitting into lines loses nothing but a missing final newline. */
  lemma {:induction false} LinesRoundTrip(text: string)
    ensures Unlines(Lines(text)) == if text == [] || text[|text| - 1] == '\n' then text else text + "\n"
    decreases |text|
  {
    if text != [] {
      match IndexOf(text, '\n', 0)
      case None =>
        assert Lines(text) == [text];
        UnlinesCons(text, []);
      case Some(k) =>
        var line, rest := text[..k], text[k + 1..];
        LinesStep(text, k);
        UnlinesCons(line, Lines(rest));
        LinesRoundTrip(rest);
        NewlineGlue(text, line, rest, Unlines(Lines(text)), Unlines(Lines(rest)));
    }
  }

  /** `Lines` unfolded at the first newline `k`, which splits the text around it. */
  lemma LinesStep(text: string, k: nat)
    requires text != [] && IndexOf(text, '\n', 0) == Some(k)
    ensures Lines(text) == [text[..k]] + Lines(text[k + 1..])
    ensures text == text[..k] + "\n" + text[k + 1..]
  {
  }

  lemma UnlinesCons(x: string, ls: seq<string>)
    ensures Unlines([x] + ls) == x + "\n" + Unlines(ls)
  {
    assert ([x] + ls)[1..] == ls;
  }

  /** Gluing a line, its newline and the round trip of the rest (on plain strings). */
  lemma NewlineGlue(text: string, line: string, rest: string, u: string, v: string)
    requires text == line + "\n" + rest
    requires u == line + "\n" + v
    requires v == if rest == [] || rest[|rest| - 1] == '\n' then rest else rest + "\n"
    ensures u == if text == [] || text[|text| - 1] == '\n' then text else text + "\n"
  {
    if rest != [] {
      assert rest[|rest| - 1] == text[|text| - 1];
      if rest[|rest| - 1] != '\n' {
        assert line + "\n" + (rest + "\n") == line + "\n" + rest + "\n";
      }
    }
  }

  // ---------------------------------------------------------------
  // operator>> on std::string
  // ---------------------------------------------------------------

  /** Length of the leading run of non-whitespace. */
  function SpanNonSpace(s: string): (n: nat)
    ensures n <= |s| && NoSpace(s[..n]) && (n == |s| || IsSpace(s[n]))
  {
    if s == [] || IsSpace(s[0]) then 0 else 1 + SpanNonSpace(s[1..])
  }

  /**
   * `in >> token`: skip whitespace, then take the longest run of
   * non-whitespace; the pair is (token, what is left to read).
   */
  function ReadToken(s: string): (r: (string, string))
    ensures |r.0| + |r.1| <= |s|
  {
    var t := TrimLeft(s);
    var n := SpanNonSpace(t);
    (t[..n], t[n..])
  }

  /**
   * The token is empty exactly when `s` is all whitespace (and then nothing
   * is left); otherwise it is a run of non-whitespace, and what is left is
   * the suffix of `s` after it, starting with whitespace if not empty.
   */
  lemma ReadTokenShape(s: string)
    ensures var r := ReadToken(s);
      r.1 == s[|s| - |r.1|..]
      && (r.0 == [] <==> AllSpace(s))
      && (r.0 == [] ==> r.1 == [])
      && NoSpace(r.0) && (r.1 == [] || IsSpace(r.1[0]))
  {
    NonSpaceSurvives(s);
    SplitToken(s, TrimLeft(s), SpanNonSpace(TrimLeft(s)), ReadToken(s));
  }

  /** Splitting the whitespace-free front `t[..n]` off a suffix `t` of `s`. */
  lemma SplitToken(s: string, t: string, n: nat, r: (string, string))
    requires |t| <= |s| && t == s[|s| - |t|..]
    requires (t == [] <==> AllSpace(s)) && (t == [] || !IsSpace(t[0]))
    requires n <= |t| && NoSpace(t[..n]) && (n == |t| || IsSpace(t[n]))
    requires r == (t[..n], t[n..])
    ensures r.1 == s[|s| - |r.1|..]
      && (r.0 == [] <==> AllSpace(s))
      && (r.0 == [] ==> r.1 == [])
      && NoSpace(r.0) && (r.1 == [] || IsSpace(r.1[0]))
  {
    assert t[n..] == s[|s| - |t| + n..];
    assert t != [] ==> n >= 1;
  }

  /** The whitespace-separated tokens `while (in >> t)` collects. */
  function Tokens(s: string): seq<string>
    decreases |s|
  {
    var r := ReadToken(s);
    if r.0 == [] then [] else [r.0] + Tokens(r.1)
  }

  /** `Tokens` unfolded once. */
  lemma TokensStep(s: string)
    ensures Tokens(s) == (if ReadToken(s).0 == [] then [] else [ReadToken(s).0] + Tokens(ReadToken(s).1))
  {
  }

  /** Every token is non-empty; there are none exactly when `s` is blank. */
  lemma {:induction false} TokensShape(s: string)
    ensures [] !in Tokens(s)
    ensures Tokens(s) == [] <==> AllSpace(s)
    decreases |s|
  {
    var r := ReadToken(s);
    ReadTokenShape(s);
    if r.0 != [] {
      TokensShape(r.1);
      var ts := Tokens(r.1);
      assert Tokens(s) == [r.0] + ts;
    }
  }

  /** A token read from a string ending in whitespace is unaffected by that whitespace. */
  lemma {:induction false} TokensIgnoreTrailingSpace(s: string, w: string)
    requires AllSpace(w)
    ensures Tokens(s + w) == Tokens(s)
    decreases |s|
  {
    if AllSpace(s) {
      assert AllSpace(s + w) by {
        forall k | 0 <= k < |s + w| ensures IsSpace((s + w)[k]) {
          if k >= |s| { assert (s + w)[k] == w[k - |s|]; }
        }
      }
    } else {
      var r := ReadToken(s);
      var r' := ReadToken(s + w);
      var t := TrimLeft(s);
      TrimLeftAppend(s, w);
      NonSpaceSurvives(s);
      SpanAppend(t, w);
      var n := SpanNonSpace(t);
      SliceOfAppend(t, w, n);
      assert r'.0 == r.0 && r'.1 == r.1 + w;
      TokensIgnoreTrailingSpace(r.1, w);
    }
  }

  lemma SliceOfAppend<T>(a: seq<T>, b: seq<T>, n: nat)
    requires n <= |a|
    ensures (a + b)[..n] == a[..n] && (a + b)[n..] == a[n..] + b
  {
  }

  lemma {:induction false} TrimLeftAppend(s: string, w: string)
    requires !AllSpace(s)
    ensures TrimLeft(s + w) == TrimLeft(s) + w
    decreases |s|
  {
    assert |s| > 0;
    assert (s + w)[0] == s[0];
    if IsSpace(s[0]) {
      assert (s + w)[1..] == s[1..] + w;
      assert !AllSpace(s[1..]) by {
        var k :| 0 <= k < |s| && !IsSpace(s[k]);
        assert k > 0 && s[1..][k - 1] == s[k];
      }
      TrimLeftAppend(s[1..], w);
    }
  }

  lemma {:induction false} SpanAppend(t: string, w: string)
    requires t != [] && !IsSpace(t[0])
    requires AllSpace(w)
    ensures SpanNonSpace(t + w) == SpanNonSpace(t)
    decreases |t|
  {
    assert (t + w)[0] == t[0];
    assert (t + w)[1..] == t[1..] + w;
    if |t| > 1 && !IsSpace(t[1]) {
      SpanAppend(t[1..], w);
    } else if |t| > 1 {
      assert (t[1..] + w)[0] == t[1];
    } else {
      assert t[1..] + w == w;
      if w != [] { assert IsSpace(w[0]); }
    }
  }

  /** Tokens are blind to whitespace trimmed from either end. */
  lemma TokensOfTrim(s: string)
    ensures Tokens(Trim(s)) == Tokens(s)
  {
    var t := TrimLeft(s);
    var r := TrimRight(t);
    var w := t[|r|..];
    calc {
      Tokens(Trim(s));
      Tokens(r);
      { TrailingCut(t); TokensIgnoreTrailingSpace(r, w); }
      Tokens(r + w);
      { TrailingCut(t); }
      Tokens(t);
      { TokensOfTrimLeft(s); }
      Tokens(s);
    }
  }

  /** What popping trailing whitespace cuts off is all whitespace. */
  lemma TrailingCut(t: string)
    ensures var r := TrimRight(t); t == r + t[|r|..] && AllSpace(t[|r|..])
  {
    var r := TrimRight(t);
    var w := t[|r|..];
    forall k | 0 <= k < |w| ensures IsSpace(w[k]) {
      assert w[k] == t[|r| + k];
    }
  }

  /** Leading whitespace makes no token. */
  lemma TokensOfTrimLeft(s: string)
    ensures Tokens(TrimLeft(s)) == Tokens(s)
  {
    var t := TrimLeft(s);
    assert TrimLeft(t) == t;
    assert ReadToken(t) == ReadToken(s);
  }

  /** Words joined by single spaces. */
  function Unwords(ws: seq<string>): string
    decreases |ws|
  {
    if ws == [] then [] else if |ws| == 1 then ws[0] else ws[0] + " " + Unwords(ws[1..])
  }

  /** Non-empty words without whitespace, joined by spaces, read back as themselves. */
  lemma {:induction false} TokensOfUnwords(ws: seq<string>)
    requires forall k :: 0 <= k < |ws| ==> ws[k] != [] && NoSpace(ws[k])
    ensures Tokens(Unwords(ws)) == ws
    decreases |ws|
  {
    if ws == [] {
      TokensOfNothing();
    } else if |ws| == 1 {
      TokensOfWord(ws[0]);
    } else {
      var w, tail := ws[0], ws[1..];
      var u := Unwords(tail);
      assert Unwords(ws) == w + " " + u;
      forall k | 0 <= k < |tail| ensures tail[k] != [] && NoSpace(tail[k]) {
        assert tail[k] == ws[k + 1];
      }
      TokensOfUnwords(tail);
      TokensCons(w, u);
      assert ws == [w] + tail;
    }
  }

  lemma TokensOfNothing()
    ensures Tokens([]) == []
  {
    assert ReadToken([]).0 == [];
  }

  /** A single word is its only token. */
  lemma TokensOfWord(w: string)
    requires w != [] && NoSpace(w)
    ensures Tokens(w) == [w]
  {
    ReadWord(w, []);
    Seqs.AppendEmpty(w);
    TokensStep(w);
    assert ReadToken([]).0 == [];
  }

  /** A word, a space and more text: the word is the first token, the text gives the rest. */
  lemma TokensCons(w: string, u: string)
    requires w != [] && NoSpace(w)
    ensures Tokens(w + " " + u) == [w] + Tokens(u)
  {
    ReadWord(w, " " + u);
    assert w + " " + u == w + (" " + u);
    TokensStep(w + " " + u);
    LeadingSpace(u);
  }

  /** A word followed by whitespace or the end is read as one token, leaving what follows. */
  lemma ReadWord(w: string, rest: string)
    requires w != [] && NoSpace(w) && (rest == [] || IsSpace(rest[0]))
    ensures ReadToken(w + rest) == (w, rest)
  {
    assert (w + rest)[0] == w[0];
    SpanWord(w, rest);
  }

  lemma {:induction false} SpanWord(w: string, rest: string)
    requires NoSpace(w) && (rest == [] || IsSpace(rest[0]))
    ensures SpanNonSpace(w + rest) == |w|
    decreases |w|
  {
    if w == [] {
      Seqs.AppendEmpty(rest);
    } else {
      assert (w + rest)[0] == w[0];
      assert (w + rest)[1..] == w[1..] + rest;
      SpanWord(w[1..], rest);
    }
  }

  /** A space in front makes no token. */
  lemma LeadingSpace(u: string)
    ensures Tokens(" " + u) == Tokens(u)
  {
    assert (" " + u)[1..] == u;
    assert ReadToken(" " + u) == ReadToken(u);
  }

  // ---------------------------------------------------------------
  // tolower (C locale)
  // ---------------------------------------------------------------

  predicate IsUpper(c: char) {
    'A' <= c <= 'Z'
  }

  /** `a` and `b` are the same character, or the two cases of one ASCII letter. */
  predicate SameIgnoringCase(a: char, b: char) {
    a == b || (IsUpper(a) && b as int == a as int + 32) || (IsUpper(b) && a as int == b as int + 32)
  }

  function LowerChar(c: char): char {
    if IsUpper(c) then (c as int + 32) as char else c
  }

  /**
   * `std::transform(..., tolower)` in the "C" locale: no upper-case letter
   * is left, every other character is kept, and each character of the
   * result is the input's character up to case.
   */
  function Lower(s: string): (r: string)
    ensures |r| == |s|
    ensures forall k :: 0 <= k < |r| ==> !IsUpper(r[k])
    ensures forall k :: 0 <= k < |s| && !IsUpper(s[k]) ==> r[k] == s[k]
    ensures forall k :: 0 <= k < |s| ==> SameIgnoringCase(s[k], r[k])
  {
    seq(|s|, k requires 0 <= k < |s| => LowerChar(s[k]))
  }

  /** Lower-casing twice is lower-casing once. */
  lemma LowerIdempotent(s: string)
    ensures Lower(Lower(s)) == Lower(s)
  {
  }

  /** `t` holds `pat` at position `p` up to ASCII case. */
  predicate OccursIgnoringCase(t: string, pat: string, p: nat) {
    p + |pat| <= |t| && forall k :: 0 <= k < |pat| ==> SameIgnoringCase(t[p + k], pat[k])
  }

  /**
   * Searching the lower-cased text for a lower-case pattern is a
   * case-insensitive search of the original text.
   */
  lemma ContainsLowerIff(t: string, pat: string)
    requires forall k :: 0 <= k < |pat| ==> !IsUpper(pat[k])
    ensures Contains(Lower(t), pat) <==> exists p: nat :: OccursIgnoringCase(t, pat, p)
  {
    var l := Lower(t);
    ContainsIff(l, pat);
    forall p: nat ensures OccursAt(l, pat, p) <==> OccursIgnoringCase(t, pat, p) {
      if p + |pat| <= |t| {
        assert OccursAt(l, pat, p) <==> forall k :: 0 <= k < |pat| ==> l[p + k] == pat[k] by {
          if forall k :: 0 <= k < |pat| ==> l[p + k] == pat[k] {
            assert l[p..p + |pat|] == pat;
          }
        }
        forall k | 0 <= k < |pat| ensures l[p + k] == pat[k] <==> SameIgnoringCase(t[p + k], pat[k]) {
          LowerMatches(t[p + k], l[p + k], pat[k]);
        }
      }
    }
  }

  /** Against a character with no upper case, `b` matches the lower-cased `a` exactly when it matches `a` up to case. */
  lemma LowerMatches(a: char, la: char, b: char)
    requires la == LowerChar(a) && !IsUpper(b)
    ensures la == b <==> SameIgnoringCase(a, b)
  {
  }

  // ---------------------------------------------------------------
  // Decimal numbers
  // ---------------------------------------------------------------

  predicate IsDigit(c: char) {
    '0' <= c <= '9'
  }

  predicate AllDigits(s: string) {
    forall k :: 0 <= k < |s| ==> IsDigit(s[k])
  }

  /** The number a string of decimal digits spells. */
  function DigitsValue(s: string): nat
    requires AllDigits(s)
  {
    if s == [] then 0 else 10 * DigitsValue(s[..|s| - 1]) + (s[|s| - 1] as int - '0' as int)
  }

  function DigitChar(d: nat): (c: char)
    requires d < 10
    ensures IsDigit(c) && c as int - '0' as int == d
  {
    ('0' as int + d) as char
  }

  /** `std::to_string` of a non-negative number: decimal digits without leading zeros. */
  function Decimal(n: nat): (r: string)
    ensures r != [] && AllDigits(r) && DigitsValue(r) == n
    ensures |r| > 1 ==> r[0] != '0'
  {
    if n < 10 then [DigitChar(n)]
    else
      var p := Decimal(n / 10);
      var r := p + [DigitChar(n % 10)];
      assert r[..|r| - 1] == p;
      r
  }
}
