/** How the two halves meet: the table the runtime loader gets when PHP evaluates the
    index file the plugin wrote, and what its segment counts mean for a class name. */
module Pipeline {
  import opened Wrappers
  import opened Strings
  import opened IndexFile
  import opened Resolver
  import opened Builder

  /** `require` of the index: each line becomes `prefix => [directory, count]`, where a
      relative line's directory is what `__DIR__ . '/../'` names (`base`) followed by the
      stored path. */
  function Loaded(es: seq<Entry>, base: string): (t: seq<Definition>)
    ensures |t| == |es|
    ensures forall i :: 0 <= i < |es| ==> t[i].prefix == es[i].prefix && t[i].length == es[i].count
    ensures forall i :: 0 <= i < |es| ==> t[i].directory == Restore(es[i].location, base)
    decreases |es|
  {
    if |es| == 0 then []
    else [Definition(es[0].prefix, Restore(es[0].location, base), es[0].count)] + Loaded(es[1..], base)
  }

  /** With the index one level below the project root, the loader's table holds exactly the
      gathered namespaces with their directories, longest namespace first, so the first
      matching entry is the most specific one. */
  lemma LoaderSeesGatheredList(list: seq<Pair>, root: string)
    requires UniqueKeys(list)
    ensures var t := Loaded(IndexEntries(list, root), root);
            && |t| == |list|
            && (forall i :: 0 <= i < |t| ==> (t[i].prefix, t[i].directory) in list)
            && (forall p :: p in list ==> exists i :: 0 <= i < |t| && p == (t[i].prefix, t[i].directory))
            && (forall i, j :: 0 <= i < j < |t| ==> |t[i].prefix| >= |t[j].prefix| && t[i].prefix != t[j].prefix)
  {
    var es := IndexEntries(list, root);
    var t := Loaded(es, root);
    IndexOrdered(list, root);
    IndexContents(list, root);
    IndexUnique(list, root);
    forall i | 0 <= i < |t|
      ensures (t[i].prefix, t[i].directory) in list
    {
      assert (t[i].prefix, t[i].directory) == (es[i].prefix, Restore(es[i].location, root));
    }
    forall p | p in list
      ensures exists i :: 0 <= i < |t| && p == (t[i].prefix, t[i].directory)
    {
      var i :| 0 <= i < |es| && p == (es[i].prefix, Restore(es[i].location, root));
      assert p == (t[i].prefix, t[i].directory);
    }
    forall i, j | 0 <= i < j < |t|
      ensures |t[i].prefix| >= |t[j].prefix| && t[i].prefix != t[j].prefix
    {
      assert t[i].prefix == es[i].prefix && t[j].prefix == es[j].prefix;
    }
  }

  /** The stored count, the number of `\` in a psr-4 namespace (which ends in `\`), cuts
      off exactly the namespace's segments of a class inside it: what the loader looks
      under is the class's sub-namespace below the prefix, and the file name its bare
      name. */
  lemma CountCutsNamespace(ns: string, cls: string)
    requires 0 < |ns| && ns[|ns| - 1] == '\\'
    requires IsPrefix(ns, TrimLeft(cls, '\\'))
    ensures var sym := ParseSymbol(cls);
            var parts := Split(TrimLeft(cls, '\\')[|ns|..], '\\');
            && Slice(sym.path, Count(ns, '\\')) == parts[..|parts| - 1]
            && sym.name == parts[|parts| - 1]
  {
    SymbolParts(cls);
    CutsInside(ns, TrimLeft(cls, '\\'), ParseSymbol(cls).path, ParseSymbol(cls).name);
  }

  /** The segments and name of a qualified name `q` inside namespace `ns`, cut after the
      namespace's pieces. */
  lemma CutsInside(ns: string, q: string, path: seq<string>, name: string)
    requires 0 < |ns| && ns[|ns| - 1] == '\\' && IsPrefix(ns, q)
    requires var parts := Split(q, '\\'); path == parts[..|parts| - 1] && name == parts[|parts| - 1]
    ensures var parts := Split(q[|ns|..], '\\');
            Slice(path, Count(ns, '\\')) == parts[..|parts| - 1] && name == parts[|parts| - 1]
  {
    NamespaceOf(ns, q);
    CutAfter(path, name, Split(q, '\\'), Split(ns[..|ns| - 1], '\\'), Split(q[|ns|..], '\\'));
  }

  /** A name the namespace is a prefix of splits into the namespace's pieces, then the
      pieces of the rest. */
  lemma NamespaceOf(ns: string, q: string)
    requires 0 < |ns| && ns[|ns| - 1] == '\\'
    requires IsPrefix(ns, q)
    ensures Split(q, '\\') == Split(ns[..|ns| - 1], '\\') + Split(q[|ns|..], '\\')
    ensures Count(ns, '\\') == |Split(ns[..|ns| - 1], '\\')|
  {
    assert q == ns + q[|ns|..];
    NamespacePieces(ns, q[|ns|..]);
  }

  /** A class name inside a namespace splits into the namespace's pieces, as many as the
      namespace has `\\`, then the pieces of the rest. */
  lemma NamespacePieces(ns: string, rest: string)
    requires 0 < |ns| && ns[|ns| - 1] == '\\'
    ensures Split(ns + rest, '\\') == Split(ns[..|ns| - 1], '\\') + Split(rest, '\\')
    ensures Count(ns, '\\') == |Split(ns[..|ns| - 1], '\\')|
  {
    var head := ns[..|ns| - 1];
    assert ns == head + ['\\'];
    assert ns + rest == head + ['\\'] + rest;
    SplitAround(head, '\\', rest);
    SplitCount(head, '\\');
    assert multiset(ns) == multiset(head) + multiset{'\\'};
  }

  lemma SymbolParts(cls: string)
    ensures var parts := Split(TrimLeft(cls, '\\'), '\\');
            && ParseSymbol(cls).path == parts[..|parts| - 1]
            && ParseSymbol(cls).name == parts[|parts| - 1]
  {}

  /** Cutting the pieces of a namespace off the front of a name's segments. */
  lemma CutAfter(path: seq<string>, name: string, parts: seq<string>, front: seq<string>, back: seq<string>)
    requires 0 < |back| && parts == front + back
    requires path == parts[..|parts| - 1] && name == parts[|parts| - 1]
    ensures Slice(path, |front|) == back[..|back| - 1] && name == back[|back| - 1]
  {
    assert path[|front|..] == back[..|back| - 1];
  }
}
