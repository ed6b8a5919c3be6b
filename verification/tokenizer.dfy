/** The resolver's `explode`: splits a bare class name at its camel/TitleCase boundaries
    into shorter candidate file names, for classes declared inside a file named after an
    outer class. */
module Tokenizer {
  import opened Wrappers
  import opened Strings

  /** `ctype_upper` on one character (C locale). */
  predicate IsUpper(c: char) {
    'A' <= c <= 'Z'
  }

  /** The loop state: tracked case flag, run counter, consumed characters, closed tokens. */
  datatype Scan = Scan(upper: bool, counter: nat, buffer: string, tokens: seq<string>)

  /** What the loop keeps true: every token is a non-empty prefix of the buffer that ends
      at least `counter` characters before the buffer does, and the tokens grow strictly. */
  ghost predicate Inv(s: Scan) {
    && s.counter <= |s.buffer|
    && (forall k :: 0 <= k < |s.tokens| ==>
          && 0 < |s.tokens[k]|
          && |s.tokens[k]| + s.counter <= |s.buffer|
          && s.tokens[k] == s.buffer[..|s.tokens[k]|])
    && (forall i, j :: 0 <= i < j < |s.tokens| ==> |s.tokens[i]| < |s.tokens[j]|)
  }

  /** The state before the loop; the case flag is seeded from the first character. */
  function Start(name: string): Scan {
    Scan(|name| > 0 && IsUpper(name[0]), 0, "", [])
  }

  /** `substr($b, 0, -1)`: all but the last character. */
  function DropLast(b: string): string {
    if |b| == 0 then b else b[..|b| - 1]
  }

  /** One pass of the loop body for a character other than `_`. A case change after a run
      longer than one closes a token: the buffer without its last character when the new
      character is lower case, the whole buffer otherwise. Digits skip the case logic. */
  function Step(s: Scan, c: char): (r: Scan)
    ensures r.buffer == s.buffer + [c]
    ensures IsDigit(c) ==> r.upper == s.upper && r.tokens == s.tokens
    ensures !IsDigit(c) ==> r.upper == IsUpper(c)
    ensures |r.tokens| == |s.tokens| + 1 <==> !IsDigit(c) && IsUpper(c) != s.upper && s.counter > 1
    ensures IsPrefix(s.tokens, r.tokens) && |r.tokens| <= |s.tokens| + 1
    ensures |r.tokens| == |s.tokens| + 1 ==>
              r.tokens[|s.tokens|] == (if IsUpper(c) then s.buffer else DropLast(s.buffer)) && r.counter == 1
    ensures |r.tokens| == |s.tokens| ==> r.counter == s.counter + 1
    ensures Inv(s) ==> Inv(r)
  {
    var r := StepOf(s, c);
    StepShape(s, c, r);
    StepKeepsInv(s, c, r);
    r
  }

  /** The loop body itself. */
  function StepOf(s: Scan, c: char): Scan {
    if IsDigit(c) then
      s.(counter := s.counter + 1, buffer := s.buffer + [c])
    else
      var now := IsUpper(c);
      if now != s.upper && s.counter > 1 then
        Scan(now, 1, s.buffer + [c], s.tokens + [if !now then DropLast(s.buffer) else s.buffer])
      else
        Scan(now, s.counter + 1, s.buffer + [c], s.tokens)
  }

  lemma StepIsOf(s: Scan, c: char)
    ensures Step(s, c) == StepOf(s, c)
  {
  }

  lemma StepShape(s: Scan, c: char, r: Scan)
    requires r == StepOf(s, c)
    ensures r.buffer == s.buffer + [c]
    ensures IsDigit(c) ==> r.upper == s.upper && r.tokens == s.tokens
    ensures !IsDigit(c) ==> r.upper == IsUpper(c)
    ensures |r.tokens| == |s.tokens| + 1 <==> !IsDigit(c) && IsUpper(c) != s.upper && s.counter > 1
    ensures IsPrefix(s.tokens, r.tokens) && |r.tokens| <= |s.tokens| + 1
    ensures |r.tokens| == |s.tokens| + 1 ==>
              r.tokens[|s.tokens|] == (if IsUpper(c) then s.buffer else DropLast(s.buffer)) && r.counter == 1
    ensures |r.tokens| == |s.tokens| ==> r.counter == s.counter + 1
  {
  }

  /** A closed token is a non-empty prefix of the buffer that leaves the new character and
      the run before it behind, and it is longer than every earlier token. */
  lemma StepKeepsInv(s: Scan, c: char, r: Scan)
    requires r == StepOf(s, c)
    ensures Inv(s) ==> Inv(r)
  {
  }

  /** The loop from position `i` on; `None` is the early `return []` on an underscore. */
  function Run(name: string, i: nat, s: Scan): (r: Option<Scan>)
    requires i <= |name|
    ensures r.None? <==> '_' in name[i..]
    ensures r.Some? ==> r.value.buffer == s.buffer + name[i..]
    ensures r.Some? && i < |name| ==> r.value.counter > 0
    ensures Inv(s) && r.Some? ==> Inv(r.value)
    decreases |name| - i
  {
    if i == |name| then Some(s)
    else if name[i] == '_' then None
    else
      assert name[i..] == [name[i]] + name[i + 1..];
      var t := StepOf(s, name[i]);
      StepKeepsInv(s, name[i], t);
      Run(name, i + 1, t)
  }

  /** One turn of the loop on a character other than `_`. */
  lemma RunStep(name: string, i: nat, c: char, s: Scan, t: Scan)
    requires i < |name| && name[i] == c && c != '_' && Step(s, c) == t
    ensures Run(name, i, s) == Run(name, i + 1, t)
  {
    StepIsOf(s, c);
  }

  /** Two and three turns of the loop, for tracing concrete names. */
  lemma RunSteps2(name: string, i: nat, c1: char, c2: char, s0: Scan, s1: Scan, s2: Scan)
    requires i + 2 <= |name| && name[i] == c1 && name[i + 1] == c2 && c1 != '_' && c2 != '_'
    requires Step(s0, c1) == s1 && Step(s1, c2) == s2
    ensures Run(name, i, s0) == Run(name, i + 2, s2)
  {
    RunStep(name, i, c1, s0, s1);
    RunStep(name, i + 1, c2, s1, s2);
  }

  lemma RunSteps3(name: string, i: nat, c1: char, c2: char, c3: char, s0: Scan, s1: Scan, s2: Scan, s3: Scan)
    requires i + 3 <= |name| && name[i] == c1 && name[i + 1] == c2 && name[i + 2] == c3
    requires c1 != '_' && c2 != '_' && c3 != '_'
    requires Step(s0, c1) == s1 && Step(s1, c2) == s2 && Step(s2, c3) == s3
    ensures Run(name, i, s0) == Run(name, i + 3, s3)
  {
    RunSteps2(name, i, c1, c2, s0, s1, s2);
    RunStep(name, i + 2, c3, s2, s3);
  }

  /** `explode($name)`: the closed tokens, most recently closed (longest) first. An
      underscore anywhere yields no tokens; every token is a non-empty proper prefix of the
      name, so the full name is never among them. */
  function Explode(name: string): (r: seq<string>)
    ensures '_' in name ==> r == []
    ensures forall k :: 0 <= k < |r| ==> 0 < |r[k]| < |name| && r[k] == name[..|r[k]|]
    ensures forall i, j :: 0 <= i < j < |r| ==> |r[i]| > |r[j]|
  {
    assert Inv(Start(name));
    assert name[0..] == name;
    match Run(name, 0, Start(name))
    case None => []
    case Some(s) => Reverse(s.tokens)
  }

  function Reverse(t: seq<string>): (r: seq<string>)
    ensures |r| == |t| && forall k :: 0 <= k < |t| ==> r[k] == t[|t| - 1 - k]
  {
    seq(|t|, k requires 0 <= k < |t| => t[|t| - 1 - k])
  }

  /** The state after the digits `d`: they only extend the buffer and the run counter. */
  function Extend(s: Scan, d: string): Scan {
    s.(counter := s.counter + |d|, buffer := s.buffer + d)
  }

  /** A digit only extends the buffer and the run counter. */
  lemma DigitStep(name: string, i: nat, s: Scan)
    requires i < |name| && IsDigit(name[i])
    ensures Run(name, i, s) == Run(name, i + 1, Extend(s, [name[i]]))
  {
    assert StepOf(s, name[i]) == Extend(s, [name[i]]);
  }

  lemma ExtendMore(s: Scan, p: string, x: char)
    ensures Extend(Extend(s, p), [x]) == Extend(s, p + [x])
  {
  }

  lemma SliceSnoc(name: string, i: nat, j: nat)
    requires i < j <= |name|
    ensures name[i..j - 1] + [name[j - 1]] == name[i..j]
  {
  }

  /** A run of digits only extends the buffer and the run counter: it never closes a
      token and never changes the tracked case. */
  lemma {:induction false} DigitsOnlyExtend(name: string, i: nat, j: nat, s: Scan)
    requires i <= j <= |name|
    requires forall k :: i <= k < j ==> IsDigit(name[k])
    ensures Run(name, i, s) == Run(name, j, Extend(s, name[i..j]))
    decreases j - i
  {
    if i < j {
      var before := Extend(s, name[i..j - 1]);
      DigitsOnlyExtend(name, i, j - 1, s);
      DigitStep(name, j - 1, before);
      SliceSnoc(name, i, j);
      ExtendMore(s, name[i..j - 1], name[j - 1]);
    } else {
      assert Extend(s, name[i..j]) == s;
    }
  }

  /** The for-loop of `explode` as written, with its early return. */
  method ExplodeLoop(name: string) returns (result: seq<string>)
    ensures result == Explode(name)
  {
    var tokens: seq<string> := [];
    var buffer := "";
    var counter := 0;
    var upper := |name| > 0 && IsUpper(name[0]);
    var i := 0;
    while i < |name|
      invariant 0 <= i <= |name|
      invariant Run(name, 0, Start(name)) == Run(name, i, Scan(upper, counter, buffer, tokens))
    {
      var c := name[i];
      ghost var before := Scan(upper, counter, buffer, tokens);
      if c == '_' {
        return [];
      } else if !IsDigit(c) {
        var now := IsUpper(c);
        if now != upper && counter > 1 {
          tokens := tokens + [if !now then DropLast(buffer) else buffer];
          counter := 0;
        }
        upper := now;
      }
      counter := counter + 1;
      buffer := buffer + [c];
      assert Scan(upper, counter, buffer, tokens) == StepOf(before, c);
      i := i + 1;
    }
    result := [];
    var k := |tokens|;
    while k > 0
      invariant 0 <= k <= |tokens|
      invariant result == Reverse(tokens[k..])
    {
      k := k - 1;
      result := result + [tokens[k]];
    }
  }
}

/** The examples from the doc comment of `explode`, checked against the model. */
module TokenizerExamples {
  import opened Wrappers
  import opened Tokenizer

  /** The documented examples, in the order the code returns them: longest first (the
      doc comments list the same tokens shortest first). */
  lemma ExplodeMy0NestedClass()
    ensures Explode("My0NestedClass") == ["My0Nested", "My0"]
  {
    TraceMy0NestedClass();
    var r := Reverse(["My0", "My0Nested"]);
    assert r[0] == "My0Nested" && r[1] == "My0";
  }

  lemma ExplodeMY0NestedClass()
    ensures Explode("MY0NestedClass") == ["MY0Nested", "MY0"]
  {
    TraceMY0NestedClass();
    var r := Reverse(["MY0", "MY0Nested"]);
    assert r[0] == "MY0Nested" && r[1] == "MY0";
  }

  lemma ExplodeMY0Nested()
    ensures Explode("MY0Nested") == ["MY0"]
  {
    TraceMY0Nested();
    var r := Reverse(["MY0"]);
    assert r[0] == "MY0";
  }

  /** A name with an underscore yields no tokens, however it is cased. */
  lemma ExplodeUnderscore()
    ensures Explode("has_underscore") == []
    ensures Explode("My0Nested_Class") == []
  {
    assert "has_underscore"[3] == '_';
    assert "My0Nested_Class"[9] == '_';
  }

  /** Loop traces of the documented examples, three characters at a time. */
  lemma TraceMy0NestedClass()
    ensures Run("My0NestedClass", 0, Start("My0NestedClass")) == Some(Scan(false, 5, "My0NestedClass", ["My0", "My0Nested"]))
  {
    assert Start("My0NestedClass") == Scan(true, 0, "", []);
    TraceMy0NestedClass0("My0NestedClass");
    TraceMy0NestedClass3();
    TraceMy0NestedClass6();
    TraceMy0NestedClass9();
    TraceMy0NestedClass12();
  }

  /** The first three characters of `My0…`, one step each. */
  lemma StepsMy0()
    ensures Step(Scan(true, 0, "", []), 'M') == Scan(true, 1, "M", [])
    ensures Step(Scan(true, 1, "M", []), 'y') == Scan(false, 2, "My", [])
    ensures Step(Scan(false, 2, "My", []), '0') == Scan(false, 3, "My0", [])
  {
    StepIsOf(Scan(true, 0, "", []), 'M');
    StepIsOf(Scan(true, 1, "M", []), 'y');
    StepIsOf(Scan(false, 2, "My", []), '0');
  }

  lemma TraceMy0NestedClass0(n: string)
    requires n == "My0NestedClass"
    ensures Run(n, 0, Scan(true, 0, "", [])) == Run(n, 3, Scan(false, 3, "My0", []))
  {
    StepsMy0();
    RunStep(n, 0, 'M', Scan(true, 0, "", []), Scan(true, 1, "M", []));
    RunStep(n, 1, 'y', Scan(true, 1, "M", []), Scan(false, 2, "My", []));
    RunStep(n, 2, '0', Scan(false, 2, "My", []), Scan(false, 3, "My0", []));
  }

  lemma TraceMy0NestedClass3()
    ensures Run("My0NestedClass", 3, Scan(false, 3, "My0", [])) == Run("My0NestedClass", 6, Scan(false, 3, "My0Nes", ["My0"]))
  {
    var n := "My0NestedClass";
    RunSteps3(n, 3, 'N', 'e', 's',
      Scan(false, 3, "My0", []), Scan(true, 1, "My0N", ["My0"]), Scan(false, 2, "My0Ne", ["My0"]), Scan(false, 3, "My0Nes", ["My0"]));
  }

  lemma TraceMy0NestedClass6()
    ensures Run("My0NestedClass", 6, Scan(false, 3, "My0Nes", ["My0"])) == Run("My0NestedClass", 9, Scan(false, 6, "My0Nested", ["My0"]))
  {
    var n := "My0NestedClass";
    RunSteps3(n, 6, 't', 'e', 'd',
      Scan(false, 3, "My0Nes", ["My0"]), Scan(false, 4, "My0Nest", ["My0"]), Scan(false, 5, "My0Neste", ["My0"]), Scan(false, 6, "My0Nested", ["My0"]));
  }

  lemma TraceMy0NestedClass9()
    ensures Run("My0NestedClass", 9, Scan(false, 6, "My0Nested", ["My0"])) == Run("My0NestedClass", 12, Scan(false, 3, "My0NestedCla", ["My0", "My0Nested"]))
  {
    var n := "My0NestedClass";
    RunSteps3(n, 9, 'C', 'l', 'a',
      Scan(false, 6, "My0Nested", ["My0"]), Scan(true, 1, "My0NestedC", ["My0", "My0Nested"]), Scan(false, 2, "My0NestedCl", ["My0", "My0Nested"]), Scan(false, 3, "My0NestedCla", ["My0", "My0Nested"]));
  }

  lemma TraceMy0NestedClass12()
    ensures Run("My0NestedClass", 12, Scan(false, 3, "My0NestedCla", ["My0", "My0Nested"])) == Run("My0NestedClass", 14, Scan(false, 5, "My0NestedClass", ["My0", "My0Nested"]))
  {
    var n := "My0NestedClass";
    RunSteps2(n, 12, 's', 's',
      Scan(false, 3, "My0NestedCla", ["My0", "My0Nested"]), Scan(false, 4, "My0NestedClas", ["My0", "My0Nested"]), Scan(false, 5, "My0NestedClass", ["My0", "My0Nested"]));
  }

  lemma TraceMY0NestedClass()
    ensures Run("MY0NestedClass", 0, Start("MY0NestedClass")) == Some(Scan(false, 5, "MY0NestedClass", ["MY0", "MY0Nested"]))
  {
    assert Start("MY0NestedClass") == Scan(true, 0, "", []);
    TraceMY0NestedClass0("MY0NestedClass");
    TraceMY0NestedClass3();
    TraceMY0NestedClass6();
    TraceMY0NestedClass9();
    TraceMY0NestedClass12();
  }

  /** The first three characters of `MY0…`, one step each. */
  lemma StepsMY0()
    ensures Step(Scan(true, 0, "", []), 'M') == Scan(true, 1, "M", [])
    ensures Step(Scan(true, 1, "M", []), 'Y') == Scan(true, 2, "MY", [])
    ensures Step(Scan(true, 2, "MY", []), '0') == Scan(true, 3, "MY0", [])
  {
    StepIsOf(Scan(true, 0, "", []), 'M');
    StepIsOf(Scan(true, 1, "M", []), 'Y');
    StepIsOf(Scan(true, 2, "MY", []), '0');
  }

  lemma TraceMY0NestedClass0(n: string)
    requires n == "MY0NestedClass"
    ensures Run(n, 0, Scan(true, 0, "", [])) == Run(n, 3, Scan(true, 3, "MY0", []))
  {
    StepsMY0();
    RunStep(n, 0, 'M', Scan(true, 0, "", []), Scan(true, 1, "M", []));
    RunStep(n, 1, 'Y', Scan(true, 1, "M", []), Scan(true, 2, "MY", []));
    RunStep(n, 2, '0', Scan(true, 2, "MY", []), Scan(true, 3, "MY0", []));
  }

  lemma TraceMY0NestedClass3()
    ensures Run("MY0NestedClass", 3, Scan(true, 3, "MY0", [])) == Run("MY0NestedClass", 6, Scan(false, 2, "MY0Nes", ["MY0"]))
  {
    var n := "MY0NestedClass";
    assert DropLast("MY0N") == "MY0";
    RunSteps3(n, 3, 'N', 'e', 's',
      Scan(true, 3, "MY0", []), Scan(true, 4, "MY0N", []), Scan(false, 1, "MY0Ne", ["MY0"]), Scan(false, 2, "MY0Nes", ["MY0"]));
  }

  lemma TraceMY0NestedClass6()
    ensures Run("MY0NestedClass", 6, Scan(false, 2, "MY0Nes", ["MY0"])) == Run("MY0NestedClass", 9, Scan(false, 5, "MY0Nested", ["MY0"]))
  {
    var n := "MY0NestedClass";
    RunSteps3(n, 6, 't', 'e', 'd',
      Scan(false, 2, "MY0Nes", ["MY0"]), Scan(false, 3, "MY0Nest", ["MY0"]), Scan(false, 4, "MY0Neste", ["MY0"]), Scan(false, 5, "MY0Nested", ["MY0"]));
  }

  lemma TraceMY0NestedClass9()
    ensures Run("MY0NestedClass", 9, Scan(false, 5, "MY0Nested", ["MY0"])) == Run("MY0NestedClass", 12, Scan(false, 3, "MY0NestedCla", ["MY0", "MY0Nested"]))
  {
    var n := "MY0NestedClass";
    RunSteps3(n, 9, 'C', 'l', 'a',
      Scan(false, 5, "MY0Nested", ["MY0"]), Scan(true, 1, "MY0NestedC", ["MY0", "MY0Nested"]), Scan(false, 2, "MY0NestedCl", ["MY0", "MY0Nested"]), Scan(false, 3, "MY0NestedCla", ["MY0", "MY0Nested"]));
  }

  lemma TraceMY0NestedClass12()
    ensures Run("MY0NestedClass", 12, Scan(false, 3, "MY0NestedCla", ["MY0", "MY0Nested"])) == Run("MY0NestedClass", 14, Scan(false, 5, "MY0NestedClass", ["MY0", "MY0Nested"]))
  {
    var n := "MY0NestedClass";
    RunSteps2(n, 12, 's', 's',
      Scan(false, 3, "MY0NestedCla", ["MY0", "MY0Nested"]), Scan(false, 4, "MY0NestedClas", ["MY0", "MY0Nested"]), Scan(false, 5, "MY0NestedClass", ["MY0", "MY0Nested"]));
  }

  lemma TraceMY0Nested()
    ensures Run("MY0Nested", 0, Start("MY0Nested")) == Some(Scan(false, 5, "MY0Nested", ["MY0"]))
  {
    assert Start("MY0Nested") == Scan(true, 0, "", []);
    TraceMY0Nested0("MY0Nested");
    TraceMY0Nested3();
    TraceMY0Nested6();
  }

  lemma TraceMY0Nested0(n: string)
    requires n == "MY0Nested"
    ensures Run(n, 0, Scan(true, 0, "", [])) == Run(n, 3, Scan(true, 3, "MY0", []))
  {
    StepsMY0();
    RunStep(n, 0, 'M', Scan(true, 0, "", []), Scan(true, 1, "M", []));
    RunStep(n, 1, 'Y', Scan(true, 1, "M", []), Scan(true, 2, "MY", []));
    RunStep(n, 2, '0', Scan(true, 2, "MY", []), Scan(true, 3, "MY0", []));
  }

  lemma TraceMY0Nested3()
    ensures Run("MY0Nested", 3, Scan(true, 3, "MY0", [])) == Run("MY0Nested", 6, Scan(false, 2, "MY0Nes", ["MY0"]))
  {
    var n := "MY0Nested";
    assert DropLast("MY0N") == "MY0";
    RunSteps3(n, 3, 'N', 'e', 's',
      Scan(true, 3, "MY0", []), Scan(true, 4, "MY0N", []), Scan(false, 1, "MY0Ne", ["MY0"]), Scan(false, 2, "MY0Nes", ["MY0"]));
  }

  lemma TraceMY0Nested6()
    ensures Run("MY0Nested", 6, Scan(false, 2, "MY0Nes", ["MY0"])) == Run("MY0Nested", 9, Scan(false, 5, "MY0Nested", ["MY0"]))
  {
    var n := "MY0Nested";
    RunSteps3(n, 6, 't', 'e', 'd',
      Scan(false, 2, "MY0Nes", ["MY0"]), Scan(false, 3, "MY0Nest", ["MY0"]), Scan(false, 4, "MY0Neste", ["MY0"]), Scan(false, 5, "MY0Nested", ["MY0"]));
  }
}
