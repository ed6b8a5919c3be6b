/** The generated index file: a PHP script returning an array literal, one line per
    namespace, `  'Prefix\\' => [ 'dir/', 2 ]`. A directory below the project root is
    written relative to the index file's own directory. The parser is the part of PHP's
    reader that this text exercises, so that writing and reading can be related. */
module IndexFile {
  import opened Wrappers
  import opened Strings
  import opened PhpText

  /** Where an entry's directory lives: an absolute path written as it is, or a path below
      the project root written as `__DIR__ . '/../path'`. */
  datatype Location = Absolute(path: string) | UnderIndex(path: string)

  /** One line of the index: namespace prefix, directory, number of `\` in the prefix. */
  datatype Entry = Entry(prefix: string, location: Location, count: nat)

  const Header := "<?php return [\n"
  const Footer := "\n];\n"
  const Separator := ",\n"
  const RelativeOpening := "__DIR__ . '/../"

  /** The text before the escaped path: a plain quote, or `__DIR__` glued to a quoted
      `/../`. */
  function Opening(loc: Location): string {
    if loc.Absolute? then "'" else RelativeOpening
  }

  /** `"  '{$namespace}' => [ {$prefix}{$path}', {$count} ]"` with both strings escaped.
      PHP reads the line back as the entry and stops right after it, whatever follows. */
  function Line(e: Entry): (r: string)
    ensures forall rest :: ParseEntry(r + rest) == Some((e, rest))
  {
    var r := "  '" + Escape(e.prefix) + "'" + " => [ " + Opening(e.location) + Escape(e.location.path) + "'" + ", "
        + NatToString(e.count) + " ]";
    assert forall rest :: ParseEntry(r + rest) == Some((e, rest)) by {
      forall rest
        ensures ParseEntry(r + rest) == Some((e, rest))
      {
        LineRoundTrip(e, r, rest);
      }
    }
    r
  }

  function Lines(es: seq<Entry>): (r: seq<string>)
    ensures |r| == |es|
    ensures forall k :: 0 <= k < |es| ==> r[k] == Line(es[k])
    decreases |es|
  {
    if |es| == 0 then [] else [Line(es[0])] + Lines(es[1..])
  }

  /** `"<?php return [\n" . implode(",\n", $content) . "\n];\n"`. PHP reads the file back
      as exactly the entries it was written from, in order, the empty list included. */
  function FileText(es: seq<Entry>): (r: string)
    ensures ParseIndexFile(r) == Some(es)
  {
    var r := Header + Join(Lines(es), Separator) + Footer;
    FileRoundTrip(es, r);
    r
  }

  /** Consumes a literal piece of text. */
  function Expect(lit: string, s: string): (r: Option<string>)
    ensures r.Some? <==> IsPrefix(lit, s)
    ensures r.Some? ==> lit + r.value == s
  {
    if IsPrefix(lit, s) then
      assert s == s[..|lit|] + s[|lit|..];
      Some(s[|lit|..])
    else None
  }

  /** The key of one element, `  'Prefix\\' => [ `, and the text after it. */
  function ParseKey(s: string): (r: Option<(string, string)>)
    ensures r.Some? ==> |r.value.1| < |s|
  {
    var s1 :- Expect("  '", s);
    var key :- ReadQuoted(s1);
    var s2 :- Expect(" => [ ", key.1);
    Some((key.0, s2))
  }

  /** The directory of one element, quoted plainly or after `__DIR__ . `. */
  function ParseDirectory(s: string): (r: Option<(Location, string)>)
    ensures r.Some? ==> |r.value.1| < |s|
  {
    var relative := IsPrefix(RelativeOpening, s);
    var s1 :- if relative then Expect(RelativeOpening, s) else Expect("'", s);
    var dir :- ReadQuoted(s1);
    Some((if relative then UnderIndex(dir.0) else Absolute(dir.0), dir.1))
  }

  /** The segment count closing one element, `, 2 ]`. */
  function ParseCount(s: string): (r: Option<(nat, string)>)
    ensures r.Some? ==> |r.value.1| < |s|
  {
    var s1 :- Expect(", ", s);
    var count :- ReadNat(s1);
    var s2 :- Expect(" ]", count.1);
    Some((count.0, s2))
  }

  /** One `'key' => [ value, int ]` element of the array literal, and the text after it. */
  function ParseEntry(s: string): (r: Option<(Entry, string)>)
    ensures r.Some? ==> |r.value.1| < |s|
  {
    var key :- ParseKey(s);
    var dir :- ParseDirectory(key.1);
    var count :- ParseCount(dir.1);
    Some((Entry(key.0, dir.0, count.0), count.1))
  }

  /** The elements up to the closing `];`, separated by `,` and a line break. */
  function ParseEntries(s: string): (r: Option<seq<Entry>>)
    decreases |s|
  {
    var first :- ParseEntry(s);
    if first.1 == Footer then Some([first.0])
    else
      var rest :- Expect(Separator, first.1);
      var more :- ParseEntries(rest);
      Some([first.0] + more)
  }

  /** The array the index file returns, as a list of entries in file order. */
  function ParseIndexFile(s: string): (r: Option<seq<Entry>>)
  {
    var body :- Expect(Header, s);
    if body == Footer then Some([]) else ParseEntries(body)
  }

  lemma ExpectLiteral(lit: string, t: string)
    ensures Expect(lit, lit + t) == Some(t)
  {
    assert (lit + t)[..|lit|] == lit && (lit + t)[|lit|..] == t;
  }

  lemma KeyRoundTrip(prefix: string, t: string)
    ensures ParseKey("  '" + (Escape(prefix) + ("'" + (" => [ " + t)))) == Some((prefix, t))
  {
    var t1 := Escape(prefix) + ("'" + (" => [ " + t));
    ExpectLiteral("  '", t1);
    assert t1 == Escape(prefix) + "'" + (" => [ " + t);
    QuotedRoundTrip(prefix, " => [ " + t);
    ExpectLiteral(" => [ ", t);
  }

  lemma DirectoryRoundTrip(loc: Location, t: string)
    ensures ParseDirectory(Opening(loc) + (Escape(loc.path) + ("'" + t))) == Some((loc, t))
  {
    if loc.Absolute? {
      AbsoluteRoundTrip(loc.path, t);
    } else {
      RelativeRoundTrip(loc.path, t);
    }
  }

  lemma AbsoluteRoundTrip(path: string, t: string)
    ensures ParseDirectory("'" + (Escape(path) + ("'" + t))) == Some((Absolute(path), t))
  {
    var t1 := Escape(path) + ("'" + t);
    var s := "'" + t1;
    assert !IsPrefix(RelativeOpening, s) by {
      assert s[0] == '\'' != RelativeOpening[0];
    }
    ExpectLiteral("'", t1);
    assert t1 == Escape(path) + "'" + t;
    QuotedRoundTrip(path, t);
  }

  lemma RelativeRoundTrip(path: string, t: string)
    ensures ParseDirectory(RelativeOpening + (Escape(path) + ("'" + t))) == Some((UnderIndex(path), t))
  {
    var t1 := Escape(path) + ("'" + t);
    var s := RelativeOpening + t1;
    assert s[..|RelativeOpening|] == RelativeOpening;
    ExpectLiteral(RelativeOpening, t1);
    assert t1 == Escape(path) + "'" + t;
    QuotedRoundTrip(path, t);
  }

  lemma CountRoundTrip(n: nat, t: string)
    ensures ParseCount(", " + (NatToString(n) + (" ]" + t))) == Some((n, t))
  {
    ExpectLiteral(", ", NatToString(n) + (" ]" + t));
    NatReadBack(n, " ]" + t);
    ExpectLiteral(" ]", t);
  }

  lemma Reassociate(a: string, b: string, c: string, d: string, e: string, f: string, g: string,
                    h: string, i: string, j: string, k: string)
    ensures a + b + c + d + e + f + g + h + i + j + k
            == a + (b + (c + (d + (e + (f + (g + (h + (i + (j + k)))))))))
  {}

  lemma Reassociate4(a: string, b: string, c: string, d: string)
    ensures a + b + c + d == a + (b + (c + d))
  {}

  /** Reading one written line back gives the entry, and stops right after it. */
  lemma LineRoundTrip(e: Entry, line: string, rest: string)
    requires line == "  '" + Escape(e.prefix) + "'" + " => [ " + Opening(e.location) + Escape(e.location.path) + "'" + ", "
                    + NatToString(e.count) + " ]"
    ensures ParseEntry(line + rest) == Some((e, rest))
  {
    var ns := Escape(e.prefix);
    var open := Opening(e.location);
    var path := Escape(e.location.path);
    var digits := NatToString(e.count);
    Reassociate("  '", ns, "'", " => [ ", open, path, "'", ", ", digits, " ]", rest);
    var countText := ", " + (digits + (" ]" + rest));
    var dirText := open + (path + ("'" + countText));
    assert line + rest == "  '" + (ns + ("'" + (" => [ " + dirText)));
    KeyRoundTrip(e.prefix, dirText);
    DirectoryRoundTrip(e.location, countText);
    CountRoundTrip(e.count, rest);
  }

  /** A line followed by the separator is read, then the reading carries on. */
  lemma EntryThenMore(e: Entry, tail: string, more: seq<Entry>)
    requires ParseEntries(tail) == Some(more)
    ensures ParseEntries(Line(e) + (Separator + tail)) == Some([e] + more)
  {
    assert Separator + tail != Footer by {
      assert (Separator + tail)[0] == ',' != Footer[0];
    }
    ExpectLiteral(Separator, tail);
  }

  /** Reading the joined lines and the closing bracket gives back every entry. */
  lemma {:induction false} LinesRoundTrip(es: seq<Entry>)
    requires 0 < |es|
    ensures ParseEntries(Join(Lines(es), Separator) + Footer) == Some(es)
    decreases |es|
  {
    if |es| == 1 {
      SingleLine(es);
    } else {
      var tail := Join(Lines(es[1..]), Separator) + Footer;
      LinesCons(es);
      LinesRoundTrip(es[1..]);
      EntryThenMore(es[0], tail, es[1..]);
      assert es == [es[0]] + es[1..];
    }
  }

  lemma SingleLine(es: seq<Entry>)
    requires |es| == 1
    ensures Join(Lines(es), Separator) + Footer == Line(es[0]) + Footer
    ensures es == [es[0]]
  {
    assert Lines(es)[0] == Line(es[0]);
  }

  /** The joined lines are the first line, the separator, then the other lines joined. */
  lemma LinesCons(es: seq<Entry>)
    requires 1 < |es|
    ensures Join(Lines(es), Separator) + Footer
            == Line(es[0]) + (Separator + (Join(Lines(es[1..]), Separator) + Footer))
  {
    var ls := Lines(es);
    assert ls[1..] == Lines(es[1..]);
    JoinCons(ls, Separator);
    Reassociate4(Line(es[0]), Separator, Join(ls[1..], Separator), Footer);
  }

  lemma JoinCons(parts: seq<string>, sep: string)
    requires 1 < |parts|
    ensures Join(parts, sep) == parts[0] + sep + Join(parts[1..], sep)
  {}

  /** Every line starts with the indentation. */
  lemma LineStart(e: Entry)
    ensures 0 < |Line(e)| && Line(e)[0] == ' '
  {
    var tail := Escape(e.prefix) + ("'" + (" => [ " + (Opening(e.location) + (Escape(e.location.path)
      + ("'" + (", " + (NatToString(e.count) + (" ]" + ""))))))));
    Reassociate("  '", Escape(e.prefix), "'", " => [ ", Opening(e.location), Escape(e.location.path),
      "'", ", ", NatToString(e.count), " ]", "");
    assert Line(e) + "" == Line(e);
    assert Line(e) == "  '" + tail;
  }

  lemma JoinStart(parts: seq<string>, sep: string)
    requires 0 < |parts| && 0 < |parts[0]|
    ensures 0 < |Join(parts, sep)| && Join(parts, sep)[0] == parts[0][0]
  {
    if 1 < |parts| {
      JoinCons(parts, sep);
    }
  }

  /** A non-empty body is never the bare footer, since it starts with a line. */
  lemma BodyStart(es: seq<Entry>)
    requires 0 < |es|
    ensures Join(Lines(es), Separator) + Footer != Footer
  {
    var ls := Lines(es);
    LineStart(es[0]);
    JoinStart(ls, Separator);
    var j := Join(ls, Separator);
    assert (j + Footer)[0] == ' ';
  }

  /** The index file reads back as exactly the entries it was written from, in order. */
  lemma FileRoundTrip(es: seq<Entry>, text: string)
    requires text == Header + Join(Lines(es), Separator) + Footer
    ensures ParseIndexFile(text) == Some(es)
  {
    var body := Join(Lines(es), Separator) + Footer;
    Reassociate3(Header, Join(Lines(es), Separator), Footer);
    if |es| == 0 {
      assert Lines(es) == [];
      AfterHeader(body, es);
    } else {
      BodyStart(es);
      LinesRoundTrip(es);
      AfterHeader(body, es);
    }
  }

  lemma Reassociate3(a: string, b: string, c: string)
    ensures a + b + c == a + (b + c)
  {}

  /** Reading a file is reading its body after the header. */
  lemma AfterHeader(body: string, es: seq<Entry>)
    requires (body == Footer && es == []) || (body != Footer && ParseEntries(body) == Some(es))
    ensures ParseIndexFile(Header + body) == Some(es)
  {
    ExpectLiteral(Header, body);
  }
}
