/** The two pieces of PHP source text the index writer produces by hand: single-quoted
    string literals and decimal integer literals, with the readers that PHP applies to
    them when the index file is `require`d. */
module PhpText {
  import opened Wrappers
  import opened Strings

  /** `str_replace($c, $by, $s)` for a one-character search string. It is
      `implode($by, explode($c, $s))`: the text between the occurrences of `c` is kept, and
      `by` stands where each `c` stood. */
  function ReplaceChar(s: string, c: char, repl: string): (r: string)
    ensures r == Join(Split(s, c), repl)
    ensures c !in repl ==> c !in r
    ensures c !in s ==> r == s
    decreases |s|
  {
    if |s| == 0 then ""
    else
      assert s == [s[0]] + s[1..];
      var rest := ReplaceChar(s[1..], c, repl);
      ReplaceStep(s, c, repl, rest);
      (if s[0] == c then repl else [s[0]]) + rest
  }

  /** One character in front: replaced or kept, followed by the rest's `implode`. */
  lemma ReplaceStep(s: string, c: char, repl: string, rest: string)
    requires |s| > 0 && rest == Join(Split(s[1..], c), repl)
    ensures (if s[0] == c then repl else [s[0]]) + rest == Join(Split(s, c), repl)
  {
    var pieces := Split(s[1..], c);
    assert s == [s[0]] + s[1..];
    if s[0] == c {
      assert Split(s, c) == [""] + pieces;
      assert ([""] + pieces)[1..] == pieces;
    } else {
      JoinPrepend([s[0]], pieces, repl);
    }
  }

  lemma {:induction false} ReplaceCharAppend(a: string, b: string, c: char, repl: string)
    ensures ReplaceChar(a + b, c, repl) == ReplaceChar(a, c, repl) + ReplaceChar(b, c, repl)
    decreases |a|
  {
    if |a| > 0 {
      var head := if a[0] == c then repl else [a[0]];
      assert (a + b)[0] == a[0] && (a + b)[1..] == a[1..] + b;
      assert ReplaceChar(a + b, c, repl) == head + ReplaceChar(a[1..] + b, c, repl);
      assert ReplaceChar(a, c, repl) == head + ReplaceChar(a[1..], c, repl);
      ReplaceCharAppend(a[1..], b, c, repl);
    } else {
      assert a + b == b;
    }
  }

  /** `str_replace(['\\', "'"], ['\\\\', "\\'"], $s)`: PHP applies the pairs one after the
      other over the whole string, backslashes first. */
  function Escape(s: string): (r: string)
    ensures r == EscapeEach(s)
  {
    EscapeIsCharwise(s);
    ReplaceChar(ReplaceChar(s, '\\', "\\\\"), '\'', "\\'")
  }

  /** How one character is written inside a single-quoted literal. */
  function EscapeChar(c: char): string {
    if c == '\\' then "\\\\" else if c == '\'' then "\\'" else [c]
  }

  /** The single-quoted literal body, written character by character. */
  function EscapeEach(s: string): string
    decreases |s|
  {
    if |s| == 0 then ""
    else EscapeChar(s[0]) + EscapeEach(s[1..])
  }

  /** The two sequential replacements escape each character on its own: the second pass
      does not touch the backslashes the first one doubled. */
  lemma {:induction false} EscapeIsCharwise(s: string)
    ensures ReplaceChar(ReplaceChar(s, '\\', "\\\\"), '\'', "\\'") == EscapeEach(s)
    decreases |s|
  {
    if |s| > 0 {
      var head := if s[0] == '\\' then "\\\\" else [s[0]];
      var inner := ReplaceChar(s, '\\', "\\\\");
      assert inner == head + ReplaceChar(s[1..], '\\', "\\\\");
      ReplaceCharAppend(head, ReplaceChar(s[1..], '\\', "\\\\"), '\'', "\\'");
      if s[0] == '\\' {
        assert ReplaceChar(head, '\'', "\\'") == "\\\\" by {
          assert head == ['\\'] + ['\\'];
          ReplaceCharAppend(['\\'], ['\\'], '\'', "\\'");
        }
      } else {
        assert ReplaceChar(head, '\'', "\\'") == EscapeChar(s[0]) by {
          assert head == [s[0]] && head[1..] == [];
        }
      }
      EscapeIsCharwise(s[1..]);
    }
  }

  /** The body of a PHP single-quoted literal up to its closing quote: `\\` stands for one
      backslash, `\'` for a quote, and any other backslash is kept as it is. Gives the
      value and the text after the closing quote, or `None` when the quote never comes. */
  function ReadQuoted(s: string): (r: Option<(string, string)>)
    ensures r.Some? ==> |r.value.1| < |s|
    decreases |s|
  {
    if |s| == 0 then None
    else if s[0] == '\'' then Some(("", s[1..]))
    else if s[0] == '\\' && 2 <= |s| && (s[1] == '\\' || s[1] == '\'') then
      match ReadQuoted(s[2..])
      case None => None
      case Some(p) => Some(([s[1]] + p.0, p.1))
    else
      match ReadQuoted(s[1..])
      case None => None
      case Some(p) => Some(([s[0]] + p.0, p.1))
  }

  /** Reading back an escaped value gives the value and stops right after the closing
      quote, whatever follows. */
  lemma {:induction false} QuotedRoundTrip(v: string, rest: string)
    ensures ReadQuoted(Escape(v) + "'" + rest) == Some((v, rest))
    decreases |v|
  {
    EscapeEachRoundTrip(v, rest);
  }

  lemma {:induction false} EscapeEachRoundTrip(v: string, rest: string)
    ensures ReadQuoted(EscapeEach(v) + "'" + rest) == Some((v, rest))
    decreases |v|
  {
    var s := EscapeEach(v) + "'" + rest;
    if |v| == 0 {
      assert s == "'" + rest && s[1..] == rest;
    } else {
      var tail := EscapeEach(v[1..]) + "'" + rest;
      EscapeEachRoundTrip(v[1..], rest);
      assert v == [v[0]] + v[1..];
      assert s == EscapeChar(v[0]) + tail;
      if v[0] == '\\' || v[0] == '\'' {
        ReadEscaped(v[0], tail);
      } else {
        ReadPlain(v[0], tail);
      }
      assert ReadQuoted(s) == Some(([v[0]] + v[1..], rest));
    }
  }

  lemma ReadEscaped(c: char, tail: string)
    requires c == '\\' || c == '\''
    ensures ReadQuoted(EscapeChar(c) + tail) ==
            match ReadQuoted(tail) case None => None case Some(p) => Some(([c] + p.0, p.1))
  {
    var s := EscapeChar(c) + tail;
    assert s[0] == '\\' && s[1] == c && s[2..] == tail;
  }

  lemma ReadPlain(c: char, tail: string)
    requires c != '\\' && c != '\''
    ensures ReadQuoted(EscapeChar(c) + tail) ==
            match ReadQuoted(tail) case None => None case Some(p) => Some(([c] + p.0, p.1))
  {
    var s := EscapeChar(c) + tail;
    assert s[0] == c && s[1..] == tail;
  }

  function DigitChar(d: nat): char
    requires d < 10
  {
    "0123456789"[d]
  }

  function DigitValue(c: char): nat
    requires IsDigit(c)
  {
    (c - '0') as nat
  }

  /** `{$count}` inside a double-quoted string: the decimal form of a non-negative int. */
  function NatToString(n: nat): (r: string)
    ensures 0 < |r|
    ensures forall k :: 0 <= k < |r| ==> IsDigit(r[k])
    ensures r[0] == '0' ==> n == 0
    decreases n
  {
    if n < 10 then [DigitChar(n)]
    else NatToString(n / 10) + [DigitChar(n % 10)]
  }

  /** The value of a run of decimal digits. */
  function DigitsValue(s: string): nat
    requires forall k :: 0 <= k < |s| ==> IsDigit(s[k])
    decreases |s|
  {
    if |s| == 0 then 0 else DigitsValue(s[..|s| - 1]) * 10 + DigitValue(s[|s| - 1])
  }

  /** Reading the decimal form back gives the number. */
  lemma {:induction false} NatRoundTrip(n: nat)
    ensures DigitsValue(NatToString(n)) == n
    decreases n
  {
    var s := NatToString(n);
    if n >= 10 {
      NatRoundTrip(n / 10);
      assert s[..|s| - 1] == NatToString(n / 10);
      assert DigitValue(s[|s| - 1]) == n % 10 by {
        assert s[|s| - 1] == DigitChar(n % 10);
      }
    } else {
      assert s[..0] == [];
      assert DigitValue(s[0]) == n;
    }
  }

  /** The number of leading digits. */
  function DigitSpan(s: string): (k: nat)
    ensures k <= |s|
    ensures forall i :: 0 <= i < k ==> IsDigit(s[i])
    ensures k < |s| ==> !IsDigit(s[k])
    decreases |s|
  {
    if |s| > 0 && IsDigit(s[0]) then 1 + DigitSpan(s[1..]) else 0
  }

  /** The PHP lexer's integer literal: the longest run of digits, read as a number, and the
      text after it; `None` when the text does not start with a digit. */
  function ReadNat(s: string): (r: Option<(nat, string)>)
    ensures r.Some? <==> 0 < |s| && IsDigit(s[0])
  {
    var k := DigitSpan(s);
    if k == 0 then None else Some((DigitsValue(s[..k]), s[k..]))
  }

  lemma {:induction false} DigitSpanOfDigits(d: string, rest: string)
    requires forall k :: 0 <= k < |d| ==> IsDigit(d[k])
    requires rest == [] || !IsDigit(rest[0])
    ensures DigitSpan(d + rest) == |d|
    decreases |d|
  {
    if |d| > 0 {
      assert (d + rest)[1..] == d[1..] + rest;
      DigitSpanOfDigits(d[1..], rest);
    } else {
      assert d + rest == rest;
    }
  }

  /** Writing a count and reading it back gives the count and the text after it, as long
      as that text does not continue the digit run. */
  lemma NatReadBack(n: nat, rest: string)
    requires rest == [] || !IsDigit(rest[0])
    ensures ReadNat(NatToString(n) + rest) == Some((n, rest))
  {
    var d := NatToString(n);
    DigitSpanOfDigits(d, rest);
    assert (d + rest)[..|d|] == d && (d + rest)[|d|..] == rest;
    NatRoundTrip(n);
  }
}
