/**
 `cstring::escapeJson` and the string case of the JSON reader: the quote and backslash rules
 of section 7 of RFC 8259, seen from both sides.
 */
module JsonStrings {

  const QUOTE: char := '"'
  const BACKSLASH: char := '\\'

  // ---------------------------------------------------------------- escaping

  function EscapedChar(c: char): string {
    if c == BACKSLASH || c == QUOTE then [BACKSLASH, c] else [c]
  }

  /** Every backslash and every quote gets a backslash in front. */
  function Escaped(s: string): string {
    if s == "" then "" else Escaped(s[..|s| - 1]) + EscapedChar(s[|s| - 1])
  }

  /** `escapeJson`. */
  method EscapeJson(s: string) returns (out: string)
    ensures out == Escaped(s)
  {
    out := "";
    var i := 0;
    while i < |s|
      invariant 0 <= i <= |s|
      invariant out == Escaped(s[..i])
    {
      var c := s[i];
      if c == BACKSLASH || c == QUOTE {
        out := out + [BACKSLASH];
      }
      out := out + [c];
      assert s[..i + 1][..i] == s[..i];
      i := i + 1;
    }
    assert s[..|s|] == s;
  }

  /** Dropping the backslash in front of every character that has one. */
  function Unescaped(t: string): string {
    if t == "" then ""
    else if t[0] == BACKSLASH && |t| > 1 then [t[1]] + Unescaped(t[2..])
    else [t[0]] + Unescaped(t[1..])
  }

  lemma {:induction false} EscapedAppends(s: string, t: string)
    ensures Escaped(s + t) == Escaped(s) + Escaped(t)
  {
    if t == "" {
      assert s + t == s;
    } else {
      assert (s + t)[..|s + t| - 1] == s + t[..|t| - 1];
      EscapedAppends(s, t[..|t| - 1]);
    }
  }

  predicate NeedsEscape(c: char) {
    c == '\\' || c == '\"'
  }

  /** How many characters get a backslash. */
  function EscapeCount(s: string): nat {
    if s == "" then 0 else EscapeCount(s[..|s| - 1]) + if NeedsEscape(s[|s| - 1]) then 1 else 0
  }

  /** Nothing else is added, and text without quotes and backslashes is left alone. */
  lemma {:induction false} EscapedSize(s: string)
    ensures |Escaped(s)| == |s| + EscapeCount(s)
    ensures Escaped(s) == s <==> forall i :: 0 <= i < |s| ==> !NeedsEscape(s[i])
  {
    if s == "" {
    } else {
      var front, c := s[..|s| - 1], s[|s| - 1];
      EscapedSize(front);
      assert s == front + [c];
      NoneEscaped(s);
      NoneEscaped(front);
    }
  }

  lemma {:induction false} NoneEscaped(s: string)
    ensures EscapeCount(s) == 0 <==> forall i :: 0 <= i < |s| ==> !NeedsEscape(s[i])
  {
    if s == "" {
    } else {
      NoneEscaped(s[..|s| - 1]);
      assert s == s[..|s| - 1] + [s[|s| - 1]];
    }
  }

  /** Escaping can be undone, so it is injective. */
  lemma {:induction false} UnescapeEscaped(s: string)
    ensures Unescaped(Escaped(s)) == s
  {
    if s == "" {
    } else {
      var c, rest := s[0], s[1..];
      assert s == [c] + rest;
      EscapedAppends([c], rest);
      assert Escaped([c]) == EscapedChar(c) by { assert [c][..0] == ""; }
      UnescapeEscaped(rest);
      var t := Escaped(s);
      assert t == EscapedChar(c) + Escaped(rest);
      if c == BACKSLASH || c == QUOTE {
        assert t[2..] == Escaped(rest);
      } else {
        assert t[1..] == Escaped(rest);
      }
    }
  }

  lemma EscapedInjective(s: string, t: string)
    requires Escaped(s) == Escaped(t)
    ensures s == t
  {
    UnescapeEscaped(s);
    UnescapeEscaped(t);
  }

  // ---------------------------------------------------------------- reading

  /** How many backslashes a string ends in. */
  function TrailingBackslashes(s: string): nat {
    if s != "" && s[|s| - 1] == BACKSLASH then 1 + TrailingBackslashes(s[..|s| - 1]) else 0
  }

  /** A quote that is not escaped: an even number of backslashes stands right before it. */
  ghost predicate Closes(input: string, q: nat) {
    q < |input| && input[q] == QUOTE && TrailingBackslashes(input[..q]) % 2 == 0
  }

  /** The string token at the start of input ends at position q. */
  ghost predicate FirstClosing(input: string, q: nat) {
    Closes(input, q) && forall i :: 0 <= i < q ==> !Closes(input, i)
  }

  /** `getline(in, s, '"')`: up to the next quote, which is consumed, or to the end. */
  method GetLine(input: string, from: nat) returns (line: string, next: nat, found: bool)
    requires from <= |input|
    ensures found ==> from < next <= |input| && input[next - 1] == QUOTE && line == input[from..next - 1]
    ensures !found ==> next == |input| && line == input[from..]
    ensures forall i :: 0 <= i < |line| ==> line[i] != QUOTE
  {
    var i := from;
    while i < |input| && input[i] != QUOTE
      invariant from <= i <= |input|
      invariant forall k :: from <= k < i ==> input[k] != QUOTE
    {
      i := i + 1;
    }
    line, found := input[from..i], i < |input|;
    next := if found then i + 1 else i;
  }

  method CountBackslashes(s: string) returns (n: nat)
    ensures n == TrailingBackslashes(s)
  {
    n := 0;
    assert s[..|s|] == s;
    while n < |s| && s[|s| - 1 - n] == BACKSLASH
      invariant 0 <= n <= |s|
      invariant TrailingBackslashes(s) == n + TrailingBackslashes(s[..|s| - n])
    {
      assert s[..|s| - n][..|s| - n - 1] == s[..|s| - n - 1];
      n := n + 1;
    }
  }

  /** The string case of `operator>>`, on what follows the opening quote.  Without a closing
      quote everything is taken, with a quote added when the text ends in an open escape. */
  method ReadString(input: string) returns (s: string, next: nat)
    ensures forall q: nat :: FirstClosing(input, q) ==> s == input[..q] && next == q + 1
    ensures (forall q: nat :: !Closes(input, q)) ==>
              next == |input| && s == if TrailingBackslashes(input) % 2 == 1 then input + [QUOTE] else input
  {
    var found;
    s, next, found := GetLine(input, 0);
    assert input[0..] == input;
    while s != "" && s[|s| - 1] == BACKSLASH
      invariant next <= |input|
      invariant found ==> next > 0 && input[next - 1] == QUOTE && s == input[..next - 1]
      invariant !found ==> next == |input| && (s == input || (s == input + [QUOTE] && TrailingBackslashes(input) % 2 == 1))
      invariant forall i: nat :: i < next && !(found && i == next - 1) ==> !Closes(input, i)
      decreases |input| - next, if found then 2 else if s == input then 1 else 0
    {
      var n := CountBackslashes(s);
      if n % 2 == 0 { break; }
      s := s + [QUOTE];
      if found {
        assert !Closes(input, next - 1);
        s, next, found := ReadMore(input, s, next);
      }
    }
    assert TrailingBackslashes(s) % 2 == 0;
    if found { assert Closes(input, next - 1); }
  }

  /** `getline(in, more, '"'); s += more`. */
  method ReadMore(input: string, s: string, from: nat) returns (s': string, next: nat, found: bool)
    requires from <= |input| && s == input[..from]
    ensures from <= next <= |input|
    ensures found ==> next > from && input[next - 1] == QUOTE && s' == input[..next - 1]
    ensures !found ==> next == |input| && s' == input
    ensures forall i: nat :: from <= i < next && !(found && i == next - 1) ==> !Closes(input, i)
  {
    var more;
    more, next, found := GetLine(input, from);
    s' := s + more;
    assert s' == input[..from + |more|];
    forall i: nat | from <= i < from + |more| ensures !Closes(input, i) {
      assert input[i] == more[i - from];
    }
  }

  // ---------------------------------------------------------------- the two sides agree

  /** An escaped string ends in an even number of backslashes ... */
  lemma {:induction false} EscapedEven(s: string)
    ensures TrailingBackslashes(Escaped(s)) % 2 == 0
  {
    if s == "" {
    } else {
      var s', c := s[..|s| - 1], s[|s| - 1];
      EscapedEven(s');
      BackslashThen(Escaped(s'), c);
    }
  }

  lemma BackslashThen(t: string, c: char)
    ensures TrailingBackslashes(t + [BACKSLASH]) == 1 + TrailingBackslashes(t)
    ensures TrailingBackslashes(t + EscapedChar(c)) ==
              if c == BACKSLASH then 2 + TrailingBackslashes(t) else 0
  {
    var u := t + [BACKSLASH];
    assert u[..|t|] == t;
    if c == BACKSLASH {
      assert t + EscapedChar(c) == u + [c] && (u + [c])[..|u|] == u;
    }
  }

  /** ... and no quote in it, whatever follows, can be taken for the closing one. */
  lemma {:induction false} EscapedHidesQuotes(s: string, rest: string, i: nat)
    requires i < |Escaped(s)|
    ensures !Closes(Escaped(s) + rest, i)
  {
    var s', c := s[..|s| - 1], s[|s| - 1];
    var t := Escaped(s');
    var all := Escaped(s) + rest;
    if i < |t| {
      EscapedHidesQuotes(s', EscapedChar(c) + rest, i);
      assert all == t + (EscapedChar(c) + rest);
    } else if all[i] == QUOTE {
      EscapedEven(s');
      BackslashThen(t, c);
      assert all[..i] == t + [BACKSLASH];
    }
  }

  /** Reading back an escaped string stops at its own closing quote, with the string intact. */
  lemma EscapedIsOneToken(s: string, rest: string)
    ensures FirstClosing(Escaped(s) + [QUOTE] + rest, |Escaped(s)|)
  {
    var t := Escaped(s);
    var input := t + [QUOTE] + rest;
    assert input[..|t|] == t;
    EscapedEven(s);
    forall i | 0 <= i < |t| ensures !Closes(input, i) {
      EscapedHidesQuotes(s, [QUOTE] + rest, i);
      assert input == t + ([QUOTE] + rest);
    }
  }

  /** The round trip through the writer and the reader, with any text behind it. */
  method WriteThenRead(s: string, rest: string) returns (token: string, left: string)
    ensures token == Escaped(s) && Unescaped(token) == s && left == rest
  {
    var out := EscapeJson(s);
    var input := out + [QUOTE] + rest;
    EscapedIsOneToken(s, rest);
    UnescapeEscaped(s);
    var next;
    token, next := ReadString(input);
    left := input[next..];
  }
}
