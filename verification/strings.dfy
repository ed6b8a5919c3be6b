/** The handful of PHP string functions the plugin relies on, over `seq<char>`. */
module Strings {

  /** `strpos($s, $p) === 0` for a non-empty `$p`, and `substr($s, 0, strlen($p)) == $p`. */
  predicate IsPrefix<T(==)>(p: seq<T>, s: seq<T>) {
    |p| <= |s| && s[..|p|] == p
  }

  /** A decimal digit: `is_numeric` on a one-character string. */
  predicate IsDigit(c: char) {
    '0' <= c <= '9'
  }

  /** `ltrim($s, $c)` for a single character `$c`: drops every leading `c`. */
  function TrimLeft(s: string, c: char): (r: string)
    ensures |r| <= |s| && r == s[|s| - |r|..]
    ensures forall i :: 0 <= i < |s| - |r| ==> s[i] == c
    ensures r == [] || r[0] != c
    decreases |s|
  {
    if |s| > 0 && s[0] == c then TrimLeft(s[1..], c) else s
  }

  /** `implode($sep, $parts)`. */
  function Join(parts: seq<string>, sep: string): string
    decreases |parts|
  {
    if |parts| == 0 then ""
    else if |parts| == 1 then parts[0]
    else parts[0] + sep + Join(parts[1..], sep)
  }

  /** Gluing text to the front of the first piece glues it to the front of the result. */
  lemma JoinPrepend(a: string, parts: seq<string>, sep: string)
    requires |parts| >= 1
    ensures Join([a + parts[0]] + parts[1..], sep) == a + Join(parts, sep)
  {
    var q := [a + parts[0]] + parts[1..];
    assert q[1..] == parts[1..];
  }

  /** `explode($d, $s)` for a one-character delimiter: never empty, pieces free of `d`,
      and gluing the pieces back with `d` gives `s`. */
  function Split(s: string, d: char): (r: seq<string>)
    ensures |r| >= 1
    ensures forall k :: 0 <= k < |r| ==> d !in r[k]
    ensures Join(r, [d]) == s
    decreases |s|
  {
    if |s| == 0 then [""]
    else
      var rest := Split(s[1..], d);
      assert s == [s[0]] + s[1..];
      if s[0] == d then
        assert ([""] + rest)[1..] == rest;
        [""] + rest
      else
        JoinPrepend([s[0]], rest, [d]);
        [[s[0]] + rest[0]] + rest[1..]
  }

  /** `substr_count($s, $c)` for a single character. */
  function Count(s: string, c: char): (n: nat)
    ensures n == multiset(s)[c]
    decreases |s|
  {
    if |s| == 0 then 0
    else
      assert s == [s[0]] + s[1..];
      (if s[0] == c then 1 else 0) + Count(s[1..], c)
  }

  lemma {:induction false} SplitWithoutDelimiter(a: string, d: char)
    requires d !in a
    ensures Split(a, d) == [a]
    decreases |a|
  {
    if |a| > 0 {
      SplitWithoutDelimiter(a[1..], d);
      assert a == [a[0]] + a[1..];
    }
  }

  lemma {:induction false} SplitAfterPiece(a: string, d: char, b: string)
    requires d !in a
    ensures Split(a + [d] + b, d) == [a] + Split(b, d)
    decreases |a|
  {
    var s := a + [d] + b;
    if |a| == 0 {
      assert s[1..] == b;
    } else {
      assert s[1..] == a[1..] + [d] + b;
      SplitAfterPiece(a[1..], d, b);
      assert a == [a[0]] + a[1..];
    }
  }

  /** The other half of the `explode`/`implode` round trip: pieces free of the delimiter
      come back unchanged. */
  lemma {:induction false} SplitJoin(parts: seq<string>, d: char)
    requires |parts| >= 1
    requires forall k :: 0 <= k < |parts| ==> d !in parts[k]
    ensures Split(Join(parts, [d]), d) == parts
    decreases |parts|
  {
    if |parts| == 1 {
      SplitWithoutDelimiter(parts[0], d);
    } else {
      SplitJoin(parts[1..], d);
      SplitAfterPiece(parts[0], d, Join(parts[1..], [d]));
      assert parts == [parts[0]] + parts[1..];
    }
  }

  /** `explode` cuts at every delimiter: splitting around one delimiter splits each side. */
  lemma {:induction false} SplitAround(a: string, d: char, b: string)
    ensures Split(a + [d] + b, d) == Split(a, d) + Split(b, d)
    decreases |a|
  {
    var s := a + [d] + b;
    if |a| == 0 {
      assert s[1..] == b;
      assert s[0] == d;
    } else {
      assert s[0] == a[0] && s[1..] == a[1..] + [d] + b;
      SplitAround(a[1..], d, b);
    }
  }

  /** `explode` gives one more piece than there are delimiters. */
  lemma {:induction false} SplitCount(s: string, d: char)
    ensures |Split(s, d)| == Count(s, d) + 1
    decreases |s|
  {
    if |s| > 0 {
      SplitCount(s[1..], d);
    }
  }
}
