/** The composer plugin side: on `pre-autoload-dump` it gathers the psr-4 namespaces of the
    root package and of every installed package, each only when its type is recognised,
    and writes them as the index file the runtime loader reads. Composer's path helpers (`normalizePath`,
    `isAbsolutePath`) are parameters. */
module Builder {
  import opened Wrappers
  import opened Strings
  import opened PhpText
  import opened IndexFile

  /** A psr-4 value: one directory, or a list of them (which the plugin does not handle). */
  datatype Target = Dir(path: string) | Dirs(paths: seq<string>)

  /** What the plugin reads of a package: its pretty name, its type, and its psr-4 map in
      declaration order, when `autoload['psr-4']` is set. */
  datatype Package = Package(prettyName: string, kind: string, psr4: Option<seq<(string, Target)>>)

  /** Composer's `Filesystem::isAbsolutePath` and `Filesystem::normalizePath`. */
  datatype PathOps = PathOps(isAbsolute: string -> bool, normalize: string -> string)

  const PackageType := "spoom"
  const PackageTypeLegacy := "spoom-extension"

  predicate Recognized(p: Package) {
    p.kind == PackageType || p.kind == PackageTypeLegacy
  }

  /** `getDirectory`: where composer installed a dependency, below the vendor directory. */
  function Directory(vendor: string, p: Package): (r: string)
    ensures |r| == |vendor| + |p.prettyName| + 1
    ensures IsPrefix(vendor, r) && r[|r| - 1] == '/'
    ensures r[|vendor|..|r| - 1] == p.prettyName
  {
    var r := vendor + p.prettyName + "/";
    assert r[|vendor|..|r| - 1] == p.prettyName;
    r
  }

  /** The stored directory: a relative psr-4 path is taken below the package directory,
      an absolute one as it is; either way normalised and given a trailing slash. */
  function StoredPath(ops: PathOps, dir: string, path: string): (r: string)
    ensures 0 < |r| && r[|r| - 1] == '/'
  {
    ops.normalize((if ops.isAbsolute(path) then "" else dir) + path) + "/"
  }

  /** A namespace and the directory stored for it. */
  type Pair = (string, string)

  function Keys(l: seq<Pair>): (r: seq<string>)
    ensures |r| == |l|
    ensures forall i :: 0 <= i < |l| ==> r[i] == l[i].0
    decreases |l|
  {
    if |l| == 0 then [] else [l[0].0] + Keys(l[1..])
  }

  predicate Distinct(ks: seq<string>) {
    forall i, j :: 0 <= i < j < |ks| ==> ks[i] != ks[j]
  }

  /** No namespace appears twice, as in a PHP array. */
  predicate UniqueKeys(l: seq<Pair>) {
    Distinct(Keys(l))
  }

  /** `$list[$k]` when set. */
  function Lookup(l: seq<Pair>, k: string): (r: Option<string>)
    ensures r.Some? <==> k in Keys(l)
    ensures r.Some? ==> (k, r.value) in l
    decreases |l|
  {
    if |l| == 0 then None
    else if l[0].0 == k then Some(l[0].1)
    else Lookup(l[1..], k)
  }

  /** `$list[$k] = $v` on a PHP array: an existing key keeps its position and takes the new
      value; a new key goes to the end. */
  function Put(l: seq<Pair>, k: string, v: string): (r: seq<Pair>)
    ensures Keys(r) == if k in Keys(l) then Keys(l) else Keys(l) + [k]
    ensures Lookup(r, k) == Some(v)
    ensures forall k' :: k' != k ==> Lookup(r, k') == Lookup(l, k')
    decreases |l|
  {
    if |l| == 0 then [(k, v)]
    else if l[0].0 == k then [(k, v)] + l[1..]
    else
      assert l == [l[0]] + l[1..];
      PutBehind(l[0], l[1..], Put(l[1..], k, v), k, v);
      [l[0]] + Put(l[1..], k, v)
  }

  /** An entry in front of a different key does not change what putting that key does. */
  lemma PutBehind(x: Pair, l: seq<Pair>, rest: seq<Pair>, k: string, v: string)
    requires x.0 != k
    requires Keys(rest) == if k in Keys(l) then Keys(l) else Keys(l) + [k]
    requires Lookup(rest, k) == Some(v)
    requires forall k' :: k' != k ==> Lookup(rest, k') == Lookup(l, k')
    ensures Keys([x] + rest) == if k in Keys([x] + l) then Keys([x] + l) else Keys([x] + l) + [k]
    ensures Lookup([x] + rest, k) == Some(v)
    ensures forall k' :: k' != k ==> Lookup([x] + rest, k') == Lookup([x] + l, k')
  {
    PutBehindKeys(x, l, rest, k);
    LookupCons(x, rest, k);
    forall k' | k' != k
      ensures Lookup([x] + rest, k') == Lookup([x] + l, k')
    {
      LookupCons(x, rest, k');
      LookupCons(x, l, k');
    }
  }

  lemma PutBehindKeys(x: Pair, l: seq<Pair>, rest: seq<Pair>, k: string)
    requires x.0 != k
    requires Keys(rest) == if k in Keys(l) then Keys(l) else Keys(l) + [k]
    ensures Keys([x] + rest) == if k in Keys([x] + l) then Keys([x] + l) else Keys([x] + l) + [k]
  {
    KeysCons(x, rest);
    KeysCons(x, l);
    if k !in Keys(l) {
      assert [x.0] + (Keys(l) + [k]) == [x.0] + Keys(l) + [k];
    }
  }

  lemma KeysCons(x: Pair, l: seq<Pair>)
    ensures Keys([x] + l) == [x.0] + Keys(l)
  {
    assert ([x] + l)[1..] == l;
  }

  lemma LookupCons(x: Pair, l: seq<Pair>, k: string)
    ensures Lookup([x] + l, k) == if x.0 == k then Some(x.1) else Lookup(l, k)
  {
    assert ([x] + l)[1..] == l;
  }

  lemma PutKeepsUnique(l: seq<Pair>, k: string, v: string)
    requires UniqueKeys(l)
    ensures UniqueKeys(Put(l, k, v))
  {
    var ks := Keys(l);
    if k !in ks {
      assert forall i :: 0 <= i < |ks| ==> (ks + [k])[i] == ks[i];
    }
  }

  /** The assignments one after the other. */
  function Assign(l: seq<Pair>, writes: seq<Pair>): (r: seq<Pair>)
    ensures UniqueKeys(l) ==> UniqueKeys(r)
    decreases |writes|
  {
    if |writes| == 0 then l
    else
      if UniqueKeys(l) then PutKeepsUnique(l, writes[0].0, writes[0].1); Assign(Put(l, writes[0].0, writes[0].1), writes[1..])
      else Assign(Put(l, writes[0].0, writes[0].1), writes[1..])
  }

  /** The value of the last write to `k`, if any: the reference for what an array holds
      after a sequence of assignments. */
  function LastWrite(writes: seq<Pair>, k: string): (r: Option<string>)
    ensures r.Some? ==> (k, r.value) in writes
    ensures r.Some? <==> k in Keys(writes)
    decreases |writes|
  {
    if |writes| == 0 then None
    else
      var later := LastWrite(writes[1..], k);
      if later.Some? then later
      else if writes[0].0 == k then Some(writes[0].1)
      else None
  }

  /** After the assignments, a key holds its last written value, and a key never written
      holds what it held before. */
  lemma {:induction false} AssignLookup(l: seq<Pair>, writes: seq<Pair>, k: string)
    ensures Lookup(Assign(l, writes), k) == if LastWrite(writes, k).Some? then LastWrite(writes, k) else Lookup(l, k)
    decreases |writes|
  {
    if |writes| > 0 {
      AssignLookup(Put(l, writes[0].0, writes[0].1), writes[1..], k);
    }
  }

  /** The last write of a concatenation comes from its second part when that part writes
      the key at all. */
  lemma {:induction false} LastWriteAppend(a: seq<Pair>, b: seq<Pair>, k: string)
    ensures LastWrite(a + b, k) == if LastWrite(b, k).Some? then LastWrite(b, k) else LastWrite(a, k)
    decreases |a|
  {
    if |a| > 0 {
      assert (a + b)[1..] == a[1..] + b;
      LastWriteAppend(a[1..], b, k);
    } else {
      assert a + b == b;
    }
  }

  /** The assignments the psr-4 entries of one package yield: the stored path of each
      entry that names a single directory, and nothing else. */
  predicate Assigned(entries: seq<(string, Target)>, dir: string, ops: PathOps, writes: seq<Pair>) {
    && (forall w :: w in writes ==> exists i :: 0 <= i < |entries| && entries[i].1.Dir? && w == (entries[i].0, StoredPath(ops, dir, entries[i].1.path)))
    && (forall i :: 0 <= i < |entries| && entries[i].1.Dir? ==> (entries[i].0, StoredPath(ops, dir, entries[i].1.path)) in writes)
  }

  /** The messages the psr-4 entries of package `name` yield: the warning naming the
      package for each entry that names a list of directories, and no other message. */
  predicate Warned(entries: seq<(string, Target)>, name: string, messages: seq<string>) {
    && (forall m :: m in messages ==> m == IgnoredMessage(name))
    && (forall i :: 0 <= i < |entries| && entries[i].1.Dirs? ==> IgnoredMessage(name) in messages)
    && (messages != [] ==> exists i :: 0 <= i < |entries| && entries[i].1.Dirs?)
  }

  /** How many of the psr-4 entries name a list of directories. */
  function DirsCount(entries: seq<(string, Target)>): (n: nat)
    ensures n <= |entries|
    ensures n == 0 <==> forall i :: 0 <= i < |entries| ==> entries[i].1.Dir?
    decreases |entries|
  {
    if |entries| == 0 then 0
    else
      assert forall i :: 0 < i < |entries| ==> entries[i] == entries[1..][i - 1];
      (if entries[0].1.Dirs? then 1 else 0) + DirsCount(entries[1..])
  }

  /** `n` copies of the message `m`. */
  function Repeat(m: string, n: nat): (r: seq<string>)
    ensures |r| == n
    ensures forall k :: 0 <= k < n ==> r[k] == m
  {
    if n == 0 then [] else [m] + Repeat(m, n - 1)
  }

  /** The psr-4 entries of one package: a single directory becomes an assignment, a list
      of directories a warning naming the package; each entry yields exactly one of the
      two. */
  function EntryWrites(entries: seq<(string, Target)>, name: string, dir: string, ops: PathOps)
    : (r: (seq<Pair>, seq<string>))
    ensures Assigned(entries, dir, ops, r.0)
    ensures Warned(entries, name, r.1)
    ensures |r.0| + |r.1| == |entries|
    ensures r.1 == Repeat(IgnoredMessage(name), DirsCount(entries))
    ensures |r.0| == |entries| - DirsCount(entries)
    decreases |entries|
  {
    if |entries| == 0 then ([], [])
    else
      var rest := EntryWrites(entries[1..], name, dir, ops);
      match entries[0].1
      case Dir(path) =>
        var w := (entries[0].0, StoredPath(ops, dir, path));
        AssignedCons(entries, dir, ops, rest.0, w);
        WarnedSkip(entries, name, rest.1);
        ([w] + rest.0, rest.1)
      case Dirs(_) =>
        AssignedSkip(entries, dir, ops, rest.0);
        WarnedCons(entries, name, rest.1);
        (rest.0, [IgnoredMessage(name)] + rest.1)
  }

  lemma AssignedCons(entries: seq<(string, Target)>, dir: string, ops: PathOps, writes: seq<Pair>, w: Pair)
    requires 0 < |entries| && entries[0].1.Dir? && w == (entries[0].0, StoredPath(ops, dir, entries[0].1.path))
    requires Assigned(entries[1..], dir, ops, writes)
    ensures Assigned(entries, dir, ops, [w] + writes)
  {
    AssignedShift(entries, dir, ops, writes);
  }

  lemma AssignedSkip(entries: seq<(string, Target)>, dir: string, ops: PathOps, writes: seq<Pair>)
    requires 0 < |entries| && entries[0].1.Dirs?
    requires Assigned(entries[1..], dir, ops, writes)
    ensures Assigned(entries, dir, ops, writes)
  {
    AssignedShift(entries, dir, ops, writes);
  }

  /** The assignments of the later entries are assignments of all of them, and each later
      single-directory entry is covered. */
  lemma AssignedShift(entries: seq<(string, Target)>, dir: string, ops: PathOps, writes: seq<Pair>)
    requires 0 < |entries|
    requires Assigned(entries[1..], dir, ops, writes)
    ensures forall w :: w in writes ==> exists i :: 0 <= i < |entries| && entries[i].1.Dir? && w == (entries[i].0, StoredPath(ops, dir, entries[i].1.path))
    ensures forall i :: 0 < i < |entries| && entries[i].1.Dir? ==> (entries[i].0, StoredPath(ops, dir, entries[i].1.path)) in writes
  {
    var tail := entries[1..];
    forall w | w in writes
      ensures exists i :: 0 <= i < |entries| && entries[i].1.Dir? && w == (entries[i].0, StoredPath(ops, dir, entries[i].1.path))
    {
      var i :| 0 <= i < |tail| && tail[i].1.Dir? && w == (tail[i].0, StoredPath(ops, dir, tail[i].1.path));
      assert entries[i + 1] == tail[i];
    }
    forall i | 0 < i < |entries| && entries[i].1.Dir?
      ensures (entries[i].0, StoredPath(ops, dir, entries[i].1.path)) in writes
    {
      assert entries[i] == tail[i - 1];
    }
  }

  lemma WarnedCons(entries: seq<(string, Target)>, name: string, messages: seq<string>)
    requires 0 < |entries| && entries[0].1.Dirs?
    requires Warned(entries[1..], name, messages)
    ensures Warned(entries, name, [IgnoredMessage(name)] + messages)
  {
  }

  lemma WarnedSkip(entries: seq<(string, Target)>, name: string, messages: seq<string>)
    requires 0 < |entries| && entries[0].1.Dir?
    requires Warned(entries[1..], name, messages)
    ensures Warned(entries, name, messages)
  {
    var tail := entries[1..];
    forall i | 0 <= i < |entries| && entries[i].1.Dirs?
      ensures IgnoredMessage(name) in messages
    {
      assert entries[i] == tail[i - 1];
    }
    if messages != [] {
      var i :| 0 <= i < |tail| && tail[i].1.Dirs?;
      assert entries[i + 1] == tail[i];
    }
  }

  function IgnoredMessage(name: string): string {
    "Spoom\\Composer: Ignoring multiple psr-4 namespaces of " + name
  }

  function GeneratingMessage(n: nat): string {
    "Spoom\\Composer: Generating autoload file for " + NatToString(n) + " package(s)"
  }

  /** The package, installed at `dir`, maps the pair's namespace to one directory that is
      stored as the pair's path. */
  predicate Declares(p: Package, dir: string, ops: PathOps, w: Pair) {
    && Recognized(p) && p.psr4.Some?
    && exists j :: 0 <= j < |p.psr4.value| && p.psr4.value[j].1.Dir?
                   && w == (p.psr4.value[j].0, StoredPath(ops, dir, p.psr4.value[j].1.path))
  }

  /** The package is recognised and maps some namespace to a list of directories: the
      loop skips that namespace with a warning. */
  predicate Warns(p: Package) {
    && Recognized(p) && p.psr4.Some?
    && exists j :: 0 <= j < |p.psr4.value| && p.psr4.value[j].1.Dirs?
  }

  /** One package's contribution: nothing unless its type is recognised and it declares a
      psr-4 map. */
  function PackageWrites(p: Package, dir: string, ops: PathOps): (r: (seq<Pair>, seq<string>))
    ensures forall w :: w in r.0 <==> Declares(p, dir, ops, w)
    ensures forall m :: m in r.1 ==> Recognized(p) && m == IgnoredMessage(p.prettyName)
    ensures Warns(p) <==> r.1 != []
    ensures Warns(p) ==> IgnoredMessage(p.prettyName) in r.1
  {
    if Recognized(p) && p.psr4.Some? then EntryWrites(p.psr4.value, p.prettyName, dir, ops) else ([], [])
  }

  /** The dependencies in canonical order, each below its own installation directory. */
  function DependencyWrites(deps: seq<Package>, vendor: string, ops: PathOps): (r: (seq<Pair>, seq<string>))
    ensures forall w :: w in r.0 <==> exists i :: 0 <= i < |deps| && Declares(deps[i], Directory(vendor, deps[i]), ops, w)
    ensures forall m :: m in r.1 ==> exists i :: 0 <= i < |deps| && Recognized(deps[i]) && m == IgnoredMessage(deps[i].prettyName)
    ensures forall i :: 0 <= i < |deps| && Warns(deps[i]) ==> IgnoredMessage(deps[i].prettyName) in r.1
    decreases |deps|
  {
    if |deps| == 0 then ([], [])
    else
      var first := PackageWrites(deps[0], Directory(vendor, deps[0]), ops);
      var rest := DependencyWrites(deps[1..], vendor, ops);
      WritesCons(deps, vendor, ops, first.0, rest.0);
      WarningsCons(deps, first.1, rest.1);
      (first.0 + rest.0, first.1 + rest.1)
  }

  lemma WritesCons(deps: seq<Package>, vendor: string, ops: PathOps, first: seq<Pair>, rest: seq<Pair>)
    requires 0 < |deps|
    requires forall w :: w in first <==> Declares(deps[0], Directory(vendor, deps[0]), ops, w)
    requires forall w :: w in rest <==> exists i :: 0 <= i < |deps[1..]| && Declares(deps[1..][i], Directory(vendor, deps[1..][i]), ops, w)
    ensures forall w :: w in first + rest <==> exists i :: 0 <= i < |deps| && Declares(deps[i], Directory(vendor, deps[i]), ops, w)
  {
    WritesConsSound(deps, vendor, ops, first, rest);
    WritesConsComplete(deps, vendor, ops, first, rest);
  }

  lemma WritesConsSound(deps: seq<Package>, vendor: string, ops: PathOps, first: seq<Pair>, rest: seq<Pair>)
    requires 0 < |deps|
    requires forall w :: w in first ==> Declares(deps[0], Directory(vendor, deps[0]), ops, w)
    requires forall w :: w in rest ==> exists i :: 0 <= i < |deps[1..]| && Declares(deps[1..][i], Directory(vendor, deps[1..][i]), ops, w)
    ensures forall w :: w in first + rest ==> exists i :: 0 <= i < |deps| && Declares(deps[i], Directory(vendor, deps[i]), ops, w)
  {
    forall w | w in first + rest
      ensures exists i :: 0 <= i < |deps| && Declares(deps[i], Directory(vendor, deps[i]), ops, w)
    {
      if w !in first {
        var i :| 0 <= i < |deps[1..]| && Declares(deps[1..][i], Directory(vendor, deps[1..][i]), ops, w);
        assert deps[1..][i] == deps[i + 1];
      }
    }
  }

  lemma WritesConsComplete(deps: seq<Package>, vendor: string, ops: PathOps, first: seq<Pair>, rest: seq<Pair>)
    requires 0 < |deps|
    requires forall w :: Declares(deps[0], Directory(vendor, deps[0]), ops, w) ==> w in first
    requires forall i, w :: 0 <= i < |deps[1..]| && Declares(deps[1..][i], Directory(vendor, deps[1..][i]), ops, w) ==> w in rest
    ensures forall i, w :: 0 <= i < |deps| && Declares(deps[i], Directory(vendor, deps[i]), ops, w) ==> w in first + rest
  {
    forall i, w | 0 < i < |deps| && Declares(deps[i], Directory(vendor, deps[i]), ops, w)
      ensures w in rest
    {
      assert deps[1..][i - 1] == deps[i];
    }
  }

  lemma WarningsCons(deps: seq<Package>, first: seq<string>, rest: seq<string>)
    requires 0 < |deps|
    requires forall m :: m in first ==> Recognized(deps[0]) && m == IgnoredMessage(deps[0].prettyName)
    requires Warns(deps[0]) ==> IgnoredMessage(deps[0].prettyName) in first
    requires forall m :: m in rest ==> exists i :: 0 <= i < |deps[1..]| && Recognized(deps[1..][i]) && m == IgnoredMessage(deps[1..][i].prettyName)
    requires forall i :: 0 <= i < |deps[1..]| && Warns(deps[1..][i]) ==> IgnoredMessage(deps[1..][i].prettyName) in rest
    ensures forall m :: m in first + rest ==> exists i :: 0 <= i < |deps| && Recognized(deps[i]) && m == IgnoredMessage(deps[i].prettyName)
    ensures forall i :: 0 <= i < |deps| && Warns(deps[i]) ==> IgnoredMessage(deps[i].prettyName) in first + rest
  {
    forall m | m in first + rest
      ensures exists i :: 0 <= i < |deps| && Recognized(deps[i]) && m == IgnoredMessage(deps[i].prettyName)
    {
      if m !in first {
        var i :| 0 <= i < |deps[1..]| && Recognized(deps[1..][i]) && m == IgnoredMessage(deps[1..][i].prettyName);
        assert deps[1..][i] == deps[i + 1];
      }
    }
    forall i | 0 < i < |deps| && Warns(deps[i])
      ensures IgnoredMessage(deps[i].prettyName) in first + rest
    {
      assert deps[1..][i - 1] == deps[i];
    }
  }

  /** Every assignment and warning of the gathering loop: the root package first, its
      paths taken below the project root, then the dependencies. */
  function Gather(root: Package, deps: seq<Package>, rootDir: string, vendor: string, ops: PathOps)
    : (r: (seq<Pair>, seq<string>))
    ensures r.0 == PackageWrites(root, rootDir, ops).0 + DependencyWrites(deps, vendor, ops).0
    ensures forall w :: w in r.0 <==>
              Declares(root, rootDir, ops, w) || exists i :: 0 <= i < |deps| && Declares(deps[i], Directory(vendor, deps[i]), ops, w)
    ensures forall m :: m in r.1 ==> exists p :: (p == root || p in deps) && Recognized(p) && m == IgnoredMessage(p.prettyName)
    ensures Warns(root) ==> IgnoredMessage(root.prettyName) in r.1
    ensures forall i :: 0 <= i < |deps| && Warns(deps[i]) ==> IgnoredMessage(deps[i].prettyName) in r.1
  {
    var own := PackageWrites(root, rootDir, ops);
    var others := DependencyWrites(deps, vendor, ops);
    MessagesOfBoth(root, deps, own.1, others.1);
    WritesOfBoth(root, deps, rootDir, vendor, ops, own.0, others.0);
    (own.0 + others.0, own.1 + others.1)
  }

  /** The root package's warnings followed by the dependencies' name a recognised package,
      and include each warning either part owes. */
  lemma MessagesOfBoth(root: Package, deps: seq<Package>, own: seq<string>, others: seq<string>)
    requires forall m :: m in own ==> Recognized(root) && m == IgnoredMessage(root.prettyName)
    requires Warns(root) ==> IgnoredMessage(root.prettyName) in own
    requires forall m :: m in others ==> exists i :: 0 <= i < |deps| && Recognized(deps[i]) && m == IgnoredMessage(deps[i].prettyName)
    requires forall i :: 0 <= i < |deps| && Warns(deps[i]) ==> IgnoredMessage(deps[i].prettyName) in others
    ensures forall m :: m in own + others ==> exists p :: (p == root || p in deps) && Recognized(p) && m == IgnoredMessage(p.prettyName)
    ensures Warns(root) ==> IgnoredMessage(root.prettyName) in own + others
    ensures forall i :: 0 <= i < |deps| && Warns(deps[i]) ==> IgnoredMessage(deps[i].prettyName) in own + others
  {
    forall m | m in others
      ensures exists p :: p in deps && Recognized(p) && m == IgnoredMessage(p.prettyName)
    {
      var i :| 0 <= i < |deps| && Recognized(deps[i]) && m == IgnoredMessage(deps[i].prettyName);
      assert deps[i] in deps;
    }
  }

  /** The root package's writes followed by the dependencies' are the writes of either. */
  lemma WritesOfBoth(root: Package, deps: seq<Package>, rootDir: string, vendor: string, ops: PathOps,
                     own: seq<Pair>, others: seq<Pair>)
    requires forall w :: w in own <==> Declares(root, rootDir, ops, w)
    requires forall w :: w in others <==> exists i :: 0 <= i < |deps| && Declares(deps[i], Directory(vendor, deps[i]), ops, w)
    ensures forall w :: w in own + others <==>
              Declares(root, rootDir, ops, w) || exists i :: 0 <= i < |deps| && Declares(deps[i], Directory(vendor, deps[i]), ops, w)
  {
  }

  /** The namespace map the loop leaves in `$list`. */
  function NamespaceList(root: Package, deps: seq<Package>, rootDir: string, vendor: string, ops: PathOps)
    : (r: seq<Pair>)
    ensures UniqueKeys(r)
  {
    assert UniqueKeys([]);
    Assign([], Gather(root, deps, rootDir, vendor, ops).0)
  }

  /** Each namespace holds the directory of the last package that maps it to a single
      directory (root package first, then the dependencies in order), and only namespaces
      some recognised package maps to a single directory are present. */
  lemma NamespaceListLastWins(root: Package, deps: seq<Package>, rootDir: string, vendor: string, ops: PathOps, k: string)
    ensures var writes := PackageWrites(root, rootDir, ops).0 + DependencyWrites(deps, vendor, ops).0;
            Lookup(NamespaceList(root, deps, rootDir, vendor, ops), k) == LastWrite(writes, k)
    ensures forall v :: Lookup(NamespaceList(root, deps, rootDir, vendor, ops), k) == Some(v) ==>
              Declares(root, rootDir, ops, (k, v)) || exists i :: 0 <= i < |deps| && Declares(deps[i], Directory(vendor, deps[i]), ops, (k, v))
  {
    AssignLookup([], Gather(root, deps, rootDir, vendor, ops).0, k);
  }

  /** When the root package and a dependency both map a namespace to one directory, the
      dependency's directory is the one kept: dependencies are assigned after the root. */
  lemma DependencyOverridesRoot(root: Package, deps: seq<Package>, rootDir: string, vendor: string, ops: PathOps, ns: string)
    requires LastWrite(DependencyWrites(deps, vendor, ops).0, ns).Some?
    ensures Lookup(NamespaceList(root, deps, rootDir, vendor, ops), ns) == LastWrite(DependencyWrites(deps, vendor, ops).0, ns)
  {
    NamespaceListLastWins(root, deps, rootDir, vendor, ops, ns);
    LastWriteAppend(PackageWrites(root, rootDir, ops).0, DependencyWrites(deps, vendor, ops).0, ns);
  }

  /** The psr-4 map of a package names each namespace once, as the PHP array it is read
      from does. */
  predicate DistinctNamespaces(p: Package) {
    p.psr4.Some? ==> forall a, b :: 0 <= a < b < |p.psr4.value| ==> p.psr4.value[a].0 != p.psr4.value[b].0
  }

  /** A package that names each namespace once maps it to at most one stored directory. */
  lemma DeclaresOnce(p: Package, dir: string, ops: PathOps, ns: string, v: string, u: string)
    requires DistinctNamespaces(p)
    requires Declares(p, dir, ops, (ns, v)) && Declares(p, dir, ops, (ns, u))
    ensures u == v
  {
    var e := p.psr4.value;
    var a :| 0 <= a < |e| && e[a].1.Dir? && (ns, v) == (e[a].0, StoredPath(ops, dir, e[a].1.path));
    var b :| 0 <= b < |e| && e[b].1.Dir? && (ns, u) == (e[b].0, StoredPath(ops, dir, e[b].1.path));
    assert a == b;
  }

  /** The writes of a list of dependencies: those of the first, then those of the rest. */
  lemma DependencyWritesCons(deps: seq<Package>, vendor: string, ops: PathOps)
    requires 0 < |deps|
    ensures DependencyWrites(deps, vendor, ops).0
            == PackageWrites(deps[0], Directory(vendor, deps[0]), ops).0 + DependencyWrites(deps[1..], vendor, ops).0
  {
  }

  /** A package that names each namespace once and maps `ns` to a single directory leaves
      that directory as the last write of `ns` among its own writes. */
  lemma PackageLastWrite(p: Package, dir: string, ops: PathOps, ns: string, v: string)
    requires DistinctNamespaces(p) && Declares(p, dir, ops, (ns, v))
    ensures LastWrite(PackageWrites(p, dir, ops).0, ns) == Some(v)
  {
    var writes := PackageWrites(p, dir, ops).0;
    var i :| 0 <= i < |writes| && writes[i] == (ns, v);
    assert Keys(writes)[i] == ns;
    var u := LastWrite(writes, ns).value;
    DeclaresOnce(p, dir, ops, ns, v, u);
  }

  /** Dependencies none of which maps `ns` to a single directory leave no write of it. */
  lemma NoLaterWrite(deps: seq<Package>, vendor: string, ops: PathOps, ns: string)
    requires forall i, u :: 0 <= i < |deps| ==> !Declares(deps[i], Directory(vendor, deps[i]), ops, (ns, u))
    ensures LastWrite(DependencyWrites(deps, vendor, ops).0, ns) == None
  {
  }

  /** Among the dependencies, the last write of `ns` comes from the last one that maps it
      to a single directory. */
  lemma {:induction false} DependencyLastWrite(deps: seq<Package>, vendor: string, ops: PathOps, j: nat, ns: string, v: string)
    requires j < |deps| && DistinctNamespaces(deps[j])
    requires Declares(deps[j], Directory(vendor, deps[j]), ops, (ns, v))
    requires forall i, u :: j < i < |deps| ==> !Declares(deps[i], Directory(vendor, deps[i]), ops, (ns, u))
    ensures LastWrite(DependencyWrites(deps, vendor, ops).0, ns) == Some(v)
    decreases j
  {
    var own := PackageWrites(deps[0], Directory(vendor, deps[0]), ops).0;
    var rest := deps[1..];
    DependencyWritesCons(deps, vendor, ops);
    NoneAfter(deps, vendor, ops, j, ns);
    if j == 0 {
      PackageLastWrite(deps[0], Directory(vendor, deps[0]), ops, ns, v);
      NoLaterWrite(rest, vendor, ops, ns);
    } else {
      assert rest[j - 1] == deps[j];
      DependencyLastWrite(rest, vendor, ops, j - 1, ns, v);
    }
    LastWriteAppend(own, DependencyWrites(rest, vendor, ops).0, ns);
  }

  /** "No dependency after the `j`-th maps `ns` to a single directory", restated for the
      dependencies after the first. */
  lemma NoneAfter(deps: seq<Package>, vendor: string, ops: PathOps, j: nat, ns: string)
    requires j < |deps|
    requires forall i, u :: j < i < |deps| ==> !Declares(deps[i], Directory(vendor, deps[i]), ops, (ns, u))
    ensures forall i, u :: j <= i < |deps| - 1 ==> !Declares(deps[1..][i], Directory(vendor, deps[1..][i]), ops, (ns, u))
  {
    forall i, u | j <= i < |deps| - 1
      ensures !Declares(deps[1..][i], Directory(vendor, deps[1..][i]), ops, (ns, u))
    {
      assert deps[1..][i] == deps[i + 1];
    }
  }

  /** A namespace the root package maps to a single directory, and no dependency maps to
      one, keeps the root package's directory: the root package is gathered too, first. */
  lemma RootKept(root: Package, deps: seq<Package>, rootDir: string, vendor: string, ops: PathOps, ns: string, v: string)
    requires DistinctNamespaces(root) && Declares(root, rootDir, ops, (ns, v))
    requires forall i, u :: 0 <= i < |deps| ==> !Declares(deps[i], Directory(vendor, deps[i]), ops, (ns, u))
    ensures Lookup(NamespaceList(root, deps, rootDir, vendor, ops), ns) == Some(v)
  {
    NamespaceListLastWins(root, deps, rootDir, vendor, ops, ns);
    PackageLastWrite(root, rootDir, ops, ns, v);
    NoLaterWrite(deps, vendor, ops, ns);
    LastWriteAppend(PackageWrites(root, rootDir, ops).0, DependencyWrites(deps, vendor, ops).0, ns);
  }

  /** The last dependency that maps a namespace to a single directory decides it, whatever
      the root package and the earlier dependencies map it to; dependencies after it that
      map the namespace to a list of directories change nothing. */
  lemma LastDependencyWins(root: Package, deps: seq<Package>, rootDir: string, vendor: string, ops: PathOps,
                           j: nat, ns: string, v: string)
    requires j < |deps| && DistinctNamespaces(deps[j])
    requires Declares(deps[j], Directory(vendor, deps[j]), ops, (ns, v))
    requires forall i, u :: j < i < |deps| ==> !Declares(deps[i], Directory(vendor, deps[i]), ops, (ns, u))
    ensures Lookup(NamespaceList(root, deps, rootDir, vendor, ops), ns) == Some(v)
  {
    DependencyLastWrite(deps, vendor, ops, j, ns, v);
    DependencyOverridesRoot(root, deps, rootDir, vendor, ops, ns);
  }

  /** The entries the index is written from are ordered by descending key length. */
  predicate SortedByLength(l: seq<Pair>) {
    forall i :: 0 < i < |l| ==> |l[i - 1].0| >= |l[i].0|
  }

  /** Neighbour order gives order between any two entries. */
  lemma {:induction false} SortedAll(l: seq<Pair>, i: nat, j: nat)
    requires SortedByLength(l) && i <= j < |l|
    ensures |l[i].0| >= |l[j].0|
    decreases j - i
  {
    if i < j {
      SortedAll(l, i + 1, j);
    }
  }

  function Insert(x: Pair, l: seq<Pair>): (r: seq<Pair>)
    requires SortedByLength(l)
    ensures |r| == |l| + 1
    ensures r[0] == x || (0 < |l| && r[0] == l[0])
    ensures SortedByLength(r)
    ensures multiset(r) == multiset(l) + multiset{x}
    decreases |l|
  {
    if |l| == 0 || |l[0].0| <= |x.0| then [x] + l
    else
      assert l == [l[0]] + l[1..];
      [l[0]] + Insert(x, l[1..])
  }

  /** `uksort($list, fn($a, $b) => strlen($b) - strlen($a))`: longest key first. PHP leaves
      the order of equal-length keys unspecified; this sort keeps them in list order. */
  function SortByLength(l: seq<Pair>): (r: seq<Pair>)
    ensures |r| == |l|
    ensures SortedByLength(r)
    ensures multiset(r) == multiset(l)
    decreases |l|
  {
    if |l| == 0 then []
    else
      assert l == [l[0]] + l[1..];
      Insert(l[0], SortByLength(l[1..]))
  }

  lemma {:induction false} InsertUnique(x: Pair, l: seq<Pair>)
    requires SortedByLength(l) && UniqueKeys(l) && x.0 !in Keys(l)
    ensures UniqueKeys(Insert(x, l))
    ensures forall k :: k in Keys(Insert(x, l)) <==> k == x.0 || k in Keys(l)
    decreases |l|
  {
    var r := Insert(x, l);
    if |l| == 0 || |l[0].0| <= |x.0| {
      assert Keys(r) == [x.0] + Keys(l);
      DistinctCons(x.0, Keys(l));
    } else {
      var rest := Insert(x, l[1..]);
      KeysOfTail(l);
      InsertUnique(x, l[1..]);
      assert Keys(r) == [l[0].0] + Keys(rest) by {
        assert r == [l[0]] + rest;
      }
      DistinctCons(l[0].0, Keys(rest));
    }
  }

  /** The keys of a list are its first key, then the keys of its tail, all distinct. */
  lemma KeysOfTail(l: seq<Pair>)
    requires 0 < |l| && UniqueKeys(l)
    ensures Keys(l) == [l[0].0] + Keys(l[1..])
    ensures UniqueKeys(l[1..]) && l[0].0 !in Keys(l[1..])
  {
    assert Keys(l) == [l[0].0] + Keys(l[1..]);
  }

  lemma DistinctCons(k: string, ks: seq<string>)
    requires k !in ks && Distinct(ks)
    ensures Distinct([k] + ks)
  {
    var s := [k] + ks;
    forall i, j | 0 <= i < j < |s|
      ensures s[i] != s[j]
    {
      assert s[j] == ks[j - 1];
      if i > 0 {
        assert s[i] == ks[i - 1];
      }
    }
  }

  /** Sorting a list with unique keys keeps them unique and keeps the same keys. */
  lemma {:induction false} SortUnique(l: seq<Pair>)
    requires UniqueKeys(l)
    ensures UniqueKeys(SortByLength(l))
    ensures forall k :: k in Keys(SortByLength(l)) <==> k in Keys(l)
    decreases |l|
  {
    if |l| > 0 {
      KeysOfTail(l);
      SortUnique(l[1..]);
      InsertUnique(l[0], SortByLength(l[1..]));
    }
  }

  /** The `$is_absolute` test: a directory below the project root is stored relative to
      it, any other directory as it is. */
  function Relativize(path: string, root: string): (loc: Location)
    ensures loc.UnderIndex? <==> IsPrefix(root, path)
    ensures Restore(loc, root) == path
  {
    if IsPrefix(root, path) then
      assert path == root + path[|root|..];
      UnderIndex(path[|root|..])
    else Absolute(path)
  }

  /** The directory a location names, given what `__DIR__ . '/../'` names. */
  function Restore(loc: Location, base: string): string {
    match loc
    case Absolute(path) => path
    case UnderIndex(path) => base + path
  }

  /** One line's data: the namespace, its directory, and the number of `\` in it. */
  function ToEntry(p: Pair, root: string): (e: Entry)
    ensures e.prefix == p.0 && e.count == Count(p.0, '\\')
    ensures Restore(e.location, root) == p.1
  {
    Entry(p.0, Relativize(p.1, root), Count(p.0, '\\'))
  }

  function ToEntries(l: seq<Pair>, root: string): (es: seq<Entry>)
    ensures |es| == |l|
    ensures forall i :: 0 <= i < |l| ==> es[i] == ToEntry(l[i], root)
    decreases |l|
  {
    if |l| == 0 then [] else [ToEntry(l[0], root)] + ToEntries(l[1..], root)
  }

  /** The entries of the index, in file order. */
  function IndexEntries(list: seq<Pair>, root: string): (es: seq<Entry>)
    ensures |es| == |list|
  {
    ToEntries(SortByLength(list), root)
  }

  /** The index lists the longest namespace first, and stores with each namespace the
      number of `\\` in it. */
  lemma IndexOrdered(list: seq<Pair>, root: string)
    ensures var es := IndexEntries(list, root);
            && (forall i, j :: 0 <= i < j < |es| ==> |es[i].prefix| >= |es[j].prefix|)
            && (forall i :: 0 <= i < |es| ==> es[i].count == Count(es[i].prefix, '\\'))
  {
    var sorted := SortByLength(list);
    var es := ToEntries(sorted, root);
    forall i, j | 0 <= i < j < |es|
      ensures |es[i].prefix| >= |es[j].prefix|
    {
      SortedAll(sorted, i, j);
    }
  }

  /** The index holds every gathered namespace with its directory and nothing else. */
  lemma IndexContents(list: seq<Pair>, root: string)
    ensures var es := IndexEntries(list, root);
            && (forall i :: 0 <= i < |es| ==> (es[i].prefix, Restore(es[i].location, root)) in list)
            && (forall p :: p in list ==> exists i :: 0 <= i < |es| && p == (es[i].prefix, Restore(es[i].location, root)))
  {
    var sorted := SortByLength(list);
    var es := ToEntries(sorted, root);
    forall p | p in list
      ensures exists i :: 0 <= i < |es| && p == (es[i].prefix, Restore(es[i].location, root))
    {
      assert p in multiset(sorted);
      var i :| 0 <= i < |sorted| && sorted[i] == p;
      assert p == (es[i].prefix, Restore(es[i].location, root));
    }
    forall i | 0 <= i < |es|
      ensures (es[i].prefix, Restore(es[i].location, root)) in list
    {
      assert (es[i].prefix, Restore(es[i].location, root)) == sorted[i];
      assert sorted[i] in multiset(list);
    }
  }

  /** Unique namespaces stay unique in the index. */
  lemma IndexUnique(list: seq<Pair>, root: string)
    requires UniqueKeys(list)
    ensures var es := IndexEntries(list, root);
            forall i, j :: 0 <= i < j < |es| ==> es[i].prefix != es[j].prefix
  {
    var sorted := SortByLength(list);
    var es := ToEntries(sorted, root);
    SortUnique(list);
    assert forall i :: 0 <= i < |es| ==> es[i].prefix == Keys(sorted)[i];
  }

  /** `writeAutoload`: nothing is written when the index directory neither exists nor can
      be created; otherwise the file's text reads back as the sorted entries. */
  function WriteAutoload(list: seq<Pair>, root: string, dirReady: bool): (r: Option<string>)
    ensures r.Some? <==> dirReady
    ensures r.Some? ==> ParseIndexFile(r.value) == Some(IndexEntries(list, root))
  {
    if dirReady then
      Some(FileText(IndexEntries(list, root)))
    else None
  }

  /** What the event leaves behind: the console lines and the index text, if written. */
  datatype Dump = Dump(messages: seq<string>, index: Option<string>)

  /** `onBeforeAutoloadDump`. Composer may fire the event after the plugin's own files were
      removed; the handler then does nothing. Otherwise every multi-directory namespace is
      reported, then the number of gathered namespaces, and the index is written. */
  function OnBeforeAutoloadDump(pluginPresent: bool, root: Package, deps: seq<Package>, rootDir: string,
                                vendor: string, ops: PathOps, dirReady: bool): (r: Dump)
    ensures !pluginPresent ==> r == Dump([], None)
    ensures pluginPresent ==> (r.index.Some? <==> dirReady)
    ensures pluginPresent ==>
              var list := NamespaceList(root, deps, rootDir, vendor, ops);
              && 0 < |r.messages|
              && r.messages[|r.messages| - 1] == GeneratingMessage(|list|)
              && (r.index.Some? ==> ParseIndexFile(r.index.value) == Some(IndexEntries(list, rootDir)))
    ensures pluginPresent ==> forall i :: 0 <= i < |r.messages| - 1 ==>
              exists p :: (p == root || p in deps) && Recognized(p) && r.messages[i] == IgnoredMessage(p.prettyName)
    ensures pluginPresent && Warns(root) ==> IgnoredMessage(root.prettyName) in r.messages[..|r.messages| - 1]
    ensures pluginPresent ==> forall i :: 0 <= i < |deps| && Warns(deps[i]) ==>
              IgnoredMessage(deps[i].prettyName) in r.messages[..|r.messages| - 1]
  {
    if !pluginPresent then Dump([], None)
    else
      var gathered := Gather(root, deps, rootDir, vendor, ops);
      var list := NamespaceList(root, deps, rootDir, vendor, ops);
      var messages := gathered.1 + [GeneratingMessage(|list|)];
      assert messages[..|messages| - 1] == gathered.1;
      assert forall i :: 0 <= i < |messages| - 1 ==> messages[i] in gathered.1;
      Dump(messages, WriteAutoload(list, rootDir, dirReady))
  }
}
