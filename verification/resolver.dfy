/** The runtime resolver (`Autoload::__invoke`, `load`, `read`; in the older root
    `Autoload.php` the same bodies are named `load`, `search`, `read`). The filesystem is
    the set of existing paths, `include` adds the symbols a file declares to the registry,
    and a resolution reports every path it probed with `is_file`, in order. */
module Resolver {
  import opened Wrappers
  import opened Strings
  import Tokenizer

  /** What the resolver sees of the PHP process: the existing files, the symbols each file
      declares when included, whether `HHVM_VERSION` is defined, and DIRECTORY_SEPARATOR. */
  datatype Env = Env(files: set<string>, declares: map<string, set<string>>, hhvm: bool, sep: char)

  /** One entry of the index: namespace prefix => [ directory, number of prefix segments ]. */
  datatype Definition = Definition(prefix: string, directory: string, length: nat)

  /** The `is_file` probes of one file search and the file it included, if any. */
  datatype Attempt = Attempt(probes: seq<string>, included: Option<string>)

  /** The result of a resolution: the boolean returned to PHP, the probed paths in order,
      the included files in order, and the registry of known symbols afterwards. */
  datatype Resolution = Resolution(found: bool, probes: seq<string>, included: seq<string>, defined: set<string>)

  function Declared(env: Env, file: string): set<string> {
    if file in env.declares then env.declares[file] else {}
  }

  function DeclaredAll(env: Env, files: seq<string>): set<string>
    decreases |files|
  {
    if |files| == 0 then {} else Declared(env, files[0]) + DeclaredAll(env, files[1..])
  }

  /** Some source file exists for `file`: the `.php` one, or the `.hh` one under HHVM. */
  predicate Hit(env: Env, file: string) {
    file + ".php" in env.files || (env.hhvm && file + ".hh" in env.files)
  }

  /** `read`: includes `file.php` when it exists, otherwise `file.hh` when running under
      HHVM and it exists. The `.hh` path is not even probed outside HHVM. */
  function Read(env: Env, file: string): (r: Attempt)
    ensures 0 < |r.probes| && r.probes[0] == file + ".php"
    ensures r.included.Some? <==> Hit(env, file)
    ensures file + ".php" in env.files ==> r.included == Some(file + ".php")
    ensures r.included.Some? ==> r.included.value in env.files && r.included.value == r.probes[|r.probes| - 1]
    ensures forall p :: p in r.probes ==> p == file + ".php" || (env.hhvm && p == file + ".hh")
  {
    var php := file + ".php";
    if php in env.files then Attempt([php], Some(php))
    else if env.hhvm then
      var hh := file + ".hh";
      Attempt([php, hh], if hh in env.files then Some(hh) else None)
    else Attempt([php], None)
  }

  /** `ltrim(implode(SEP, $path) . SEP, SEP)`: the sub-directory under the root, empty or
      ending in one separator and never starting with one. */
  function SubPath(segments: seq<string>, sep: char): (r: string)
    ensures r == "" || (r[0] != sep && r[|r| - 1] == sep)
    ensures (forall k :: 0 <= k < |segments| ==> segments[k] == "") ==> r == ""
    ensures 0 < |segments| && 0 < |segments[0]| && segments[0][0] != sep ==> r == Join(segments, [sep]) + [sep]
  {
    JoinOfEmpties(segments, sep);
    TrimLeft(Join(segments, [sep]) + [sep], sep)
  }

  lemma {:induction false} JoinOfEmpties(segments: seq<string>, sep: char)
    ensures (forall k :: 0 <= k < |segments| ==> segments[k] == "") ==>
              forall i :: 0 <= i < |Join(segments, [sep])| ==> Join(segments, [sep])[i] == sep
    decreases |segments|
  {
    if |segments| > 1 {
      JoinOfEmpties(segments[1..], sep);
    }
  }

  /** No candidate before position `k` has a file, candidate `k` has one. */
  predicate FirstHit(env: Env, base: string, names: seq<string>, k: nat)
    requires k < |names|
  {
    Hit(env, base + names[k]) && forall j :: 0 <= j < k ==> !Hit(env, base + names[j])
  }

  /** The probing loop of `load`: reads `base + names[i]`, then the next name, and stops at
      the first one that includes a file. */
  function TryFrom(env: Env, base: string, names: seq<string>, i: nat): (r: Attempt)
    requires i <= |names|
    ensures r.included.Some? <==> exists k :: i <= k < |names| && Hit(env, base + names[k])
    ensures r.included.Some? ==> exists k :: i <= k < |names| && FirstHitFrom(env, base, names, i, k)
                                             && r.included == Read(env, base + names[k]).included
    ensures r.included.Some? ==> r.included.value in env.files && r.included.value in r.probes
    ensures i < |names| ==> 0 < |r.probes| && r.probes[0] == base + names[i] + ".php"
    ensures forall p :: p in r.probes ==>
              exists k :: i <= k < |names| && (p == base + names[k] + ".php" || (env.hhvm && p == base + names[k] + ".hh"))
    decreases |names| - i
  {
    if i == |names| then Attempt([], None)
    else
      var a := Read(env, base + names[i]);
      if a.included.Some? then
        assert FirstHitFrom(env, base, names, i, i);
        a
      else
        var rest := TryFrom(env, base, names, i + 1);
        Attempt(a.probes + rest.probes, rest.included)
  }

  predicate FirstHitFrom(env: Env, base: string, names: seq<string>, i: nat, k: nat)
    requires i <= k < |names|
  {
    Hit(env, base + names[k]) && forall j :: i <= j < k ==> !Hit(env, base + names[j])
  }

  /** The names `load` tries, in order: the full class name, then its `explode` tokens. */
  function Candidates(name: string): seq<string> {
    [name] + Tokenizer.Explode(name)
  }

  /** `load($name, $path, $root)`: the full class name is probed first; when no file exists
      for it, each `explode` token in the order returned; the first existing file is
      included, whether or not it declares the class. */
  function Load(env: Env, name: string, segments: seq<string>, root: string): (r: Attempt)
    ensures var base := root + SubPath(segments, env.sep);
            && 0 < |r.probes| && r.probes[0] == base + name + ".php"
            && (Hit(env, base + name) ==> r.included == Read(env, base + name).included && |r.probes| <= 2)
            && (!Hit(env, base + name) ==>
                  var tokens := Tokenizer.Explode(name);
                  && (r.included.Some? <==> exists k :: 0 <= k < |tokens| && Hit(env, base + tokens[k]))
                  && (r.included.Some? ==> exists k :: 0 <= k < |tokens| && FirstHit(env, base, tokens, k)
                                                     && r.included == Read(env, base + tokens[k]).included))
    ensures r.included.Some? ==> r.included.value in env.files && r.included.value in r.probes
  {
    var base := root + SubPath(segments, env.sep);
    var r := TryFrom(env, base, Candidates(name), 0);
    TokensAfterFullName(env, base, name, r);
    r
  }

  lemma TokensAfterFullName(env: Env, base: string, name: string, r: Attempt)
    requires r == TryFrom(env, base, Candidates(name), 0)
    ensures !Hit(env, base + name) ==>
              var tokens := Tokenizer.Explode(name);
              && (r.included.Some? <==> exists k :: 0 <= k < |tokens| && Hit(env, base + tokens[k]))
              && (r.included.Some? ==> exists k :: 0 <= k < |tokens| && FirstHit(env, base, tokens, k)
                                                 && r.included == Read(env, base + tokens[k]).included)
  {
    var names := Candidates(name);
    var tokens := Tokenizer.Explode(name);
    if !Hit(env, base + name) {
      assert names == [name] + tokens;
      if r.included.Some? {
        FoundAmongTokens(env, base, name, tokens, r.included);
      } else {
        NoneAmongTokens(env, base, name, tokens);
      }
    }
  }

  /** The first candidate with a file is a token when the full name has none. */
  lemma FoundAmongTokens(env: Env, base: string, name: string, tokens: seq<string>, inc: Option<string>)
    requires !Hit(env, base + name)
    requires var names := [name] + tokens;
             exists k :: 0 <= k < |names| && FirstHitFrom(env, base, names, 0, k)
                         && inc == Read(env, base + names[k]).included
    ensures exists k :: 0 <= k < |tokens| && FirstHit(env, base, tokens, k)
                        && inc == Read(env, base + tokens[k]).included
  {
    var names := [name] + tokens;
    var k :| 0 <= k < |names| && FirstHitFrom(env, base, names, 0, k) && inc == Read(env, base + names[k]).included;
    assert k != 0;
    assert names[k] == tokens[k - 1];
    forall j | 0 <= j < k - 1
      ensures !Hit(env, base + tokens[j])
    {
      assert names[j + 1] == tokens[j];
    }
    assert FirstHit(env, base, tokens, k - 1);
  }

  /** No candidate has a file, so no token has one. */
  lemma NoneAmongTokens(env: Env, base: string, name: string, tokens: seq<string>)
    requires var names := [name] + tokens;
             !exists k :: 0 <= k < |names| && Hit(env, base + names[k])
    ensures !exists k :: 0 <= k < |tokens| && Hit(env, base + tokens[k])
  {
    var names := [name] + tokens;
    forall k | 0 <= k < |tokens|
      ensures !Hit(env, base + tokens[k])
    {
      assert names[k + 1] == tokens[k];
    }
  }

  /** The class name after `ltrim($class, '\\')`, cut at `\` into namespace segments and
      the bare name (`explode` then `array_pop`). */
  datatype Symbol = Symbol(qualified: string, path: seq<string>, name: string)

  function ParseSymbol(cls: string): (s: Symbol)
    ensures s.qualified == TrimLeft(cls, '\\')
    ensures Join(s.path + [s.name], "\\") == s.qualified
    ensures '\\' !in s.name && forall k :: 0 <= k < |s.path| ==> '\\' !in s.path[k]
  {
    var c := TrimLeft(cls, '\\');
    var parts := Split(c, '\\');
    LastApart(parts, c);
    Symbol(c, parts[..|parts| - 1], parts[|parts| - 1])
  }

  /** `array_pop` after `explode`: the popped name and the remaining segments rejoin to the
      same text. */
  lemma LastApart(parts: seq<string>, c: string)
    requires 1 <= |parts| && Join(parts, ['\\']) == c
    ensures Join(parts[..|parts| - 1] + [parts[|parts| - 1]], "\\") == c
  {
    InitLast(parts);
    assert "\\" == ['\\'];
  }

  lemma InitLast<T>(s: seq<T>)
    requires 1 <= |s|
    ensures s[..|s| - 1] + [s[|s| - 1]] == s
  {}

  /** `strpos($haystack, $needle)` as PHP 7 answers it: the first position at which a
      non-empty needle occurs, and `false` (here `None`) for an empty needle or when it
      does not occur. */
  function StrPos(haystack: string, needle: string): (r: Option<nat>)
    ensures r.Some? ==> needle != [] && r.value <= |haystack| && IsPrefix(needle, haystack[r.value..])
    ensures r.Some? ==> forall k :: 0 <= k < r.value ==> !IsPrefix(needle, haystack[k..])
    ensures r.None? && needle != [] ==> forall k :: 0 <= k <= |haystack| ==> !IsPrefix(needle, haystack[k..])
  {
    if needle == [] then None else FindFrom(haystack, needle, 0)
  }

  /** The first occurrence of a non-empty needle at or after position `i`. */
  function FindFrom(haystack: string, needle: string, i: nat): (r: Option<nat>)
    requires needle != [] && i <= |haystack|
    ensures r.Some? ==> i <= r.value <= |haystack| && IsPrefix(needle, haystack[r.value..])
    ensures r.Some? ==> forall k :: i <= k < r.value ==> !IsPrefix(needle, haystack[k..])
    ensures r.None? ==> forall k :: i <= k <= |haystack| ==> !IsPrefix(needle, haystack[k..])
    decreases |haystack| - i
  {
    if |haystack| < i + |needle| then None
    else if haystack[i..i + |needle|] == needle then
      assert haystack[i..][..|needle|] == needle;
      Some(i)
    else
      assert !IsPrefix(needle, haystack[i..]) by {
        assert haystack[i..][..|needle|] == haystack[i..i + |needle|];
      }
      FindFrom(haystack, needle, i + 1)
  }

  /** `strpos($class, $namespace) === 0`. PHP 7 answers `false` for an empty needle, so an
      entry with an empty prefix never matches. */
  predicate Matches(d: Definition, cls: string)
    ensures Matches(d, cls) <==> StrPos(cls, d.prefix) == Some(0)
  {
    PrefixAtStart(cls, d.prefix);
    d.prefix != "" && IsPrefix(d.prefix, cls)
  }

  lemma PrefixAtStart(haystack: string, needle: string)
    ensures StrPos(haystack, needle) == Some(0) <==> needle != [] && IsPrefix(needle, haystack)
  {
    assert haystack[0..] == haystack;
    if needle != [] && IsPrefix(needle, haystack) {
      assert haystack[0..|needle|] == needle;
    }
  }

  /** `array_slice($path, $length)`: the segments from offset `n` on, none when the offset
      is past the end. */
  function Slice(path: seq<string>, n: nat): (r: seq<string>)
    ensures |r| == if n <= |path| then |path| - n else 0
    ensures forall k :: 0 <= k < |r| ==> r[k] == path[n + k]
  {
    if n <= |path| then path[n..] else []
  }

  /** The file search for one matching entry: the class's segments below the entry's
      namespace, looked up under the entry's directory. */
  function TryEntry(env: Env, d: Definition, sym: Symbol): Attempt {
    Load(env, sym.name, Slice(sym.path, d.length), d.directory)
  }

  /** Every path the scan would probe if no entry succeeded: the probes of the matching
      entries, in table order. It does not depend on the registry. */
  function AllProbes(env: Env, table: seq<Definition>, sym: Symbol): seq<string>
    decreases |table|
  {
    if |table| == 0 then []
    else (if Matches(table[0], sym.qualified) then TryEntry(env, table[0], sym).probes else [])
         + AllProbes(env, table[1..], sym)
  }

  /** The `foreach` over the index: each matching entry's file search runs in table order,
      and the scan stops at the first one that includes a file after which the class
      exists. An included file that does not declare the class does not stop it. */
  function Scan(env: Env, table: seq<Definition>, sym: Symbol, defined: set<string>): (r: Resolution)
    ensures r.defined == defined + DeclaredAll(env, r.included)
    ensures r.found <==> |r.included| > 0 && sym.qualified in r.defined
    decreases |table|
  {
    if |table| == 0 then Resolution(false, [], [], defined)
    else if !Matches(table[0], sym.qualified) then Scan(env, table[1..], sym, defined)
    else
      var a := TryEntry(env, table[0], sym);
      match a.included
      case None =>
        var rest := Scan(env, table[1..], sym, defined);
        Resolution(rest.found, a.probes + rest.probes, rest.included, rest.defined)
      case Some(f) =>
        var now := defined + Declared(env, f);
        if sym.qualified in now then
          assert DeclaredAll(env, [f]) == Declared(env, f);
          Resolution(true, a.probes, [f], now)
        else
          var rest := Scan(env, table[1..], sym, now);
          assert ([f] + rest.included)[1..] == rest.included;
          Resolution(rest.found, a.probes + rest.probes, [f] + rest.included, rest.defined)
  }

  /** What a scan probes is the start of the full candidate list, and all of it when the
      scan fails. */
  lemma {:induction false} ScanProbes(env: Env, table: seq<Definition>, sym: Symbol, defined: set<string>)
    ensures var r := Scan(env, table, sym, defined);
            && IsPrefix(r.probes, AllProbes(env, table, sym))
            && (!r.found ==> r.probes == AllProbes(env, table, sym))
    decreases |table|, 1
  {
    if |table| > 0 {
      if !Matches(table[0], sym.qualified) {
        assert Scan(env, table, sym, defined) == Scan(env, table[1..], sym, defined);
        assert AllProbes(env, table, sym) == AllProbes(env, table[1..], sym);
        ScanProbes(env, table[1..], sym, defined);
      } else {
        ScanProbesAtMatch(env, table, sym, defined);
      }
    }
  }

  lemma {:induction false} ScanProbesAtMatch(env: Env, table: seq<Definition>, sym: Symbol, defined: set<string>)
    requires 0 < |table| && Matches(table[0], sym.qualified)
    ensures var r := Scan(env, table, sym, defined);
            && IsPrefix(r.probes, AllProbes(env, table, sym))
            && (!r.found ==> r.probes == AllProbes(env, table, sym))
    decreases |table|, 0
  {
    var a := TryEntry(env, table[0], sym);
    var tail := AllProbes(env, table[1..], sym);
    assert AllProbes(env, table, sym) == a.probes + tail;
    var now := if a.included.Some? then defined + Declared(env, a.included.value) else defined;
    if a.included.Some? && sym.qualified in now {
      PrefixExtend(a.probes, [], tail);
    } else {
      ScanProbes(env, table[1..], sym, now);
      PrefixExtend(a.probes, Scan(env, table[1..], sym, now).probes, tail);
    }
  }

  lemma PrefixExtend(a: seq<string>, p: seq<string>, s: seq<string>)
    requires IsPrefix(p, s)
    ensures IsPrefix(a + p, a + s)
  {
    assert (a + s)[..|a + p|] == a + s[..|p|];
  }

  /** Every file a scan includes exists and was probed. */
  lemma {:induction false} ScanIncludes(env: Env, table: seq<Definition>, sym: Symbol, defined: set<string>)
    ensures var r := Scan(env, table, sym, defined);
            forall f :: f in r.included ==> f in env.files && f in r.probes
    decreases |table|
  {
    if |table| > 0 {
      if !Matches(table[0], sym.qualified) {
        ScanIncludes(env, table[1..], sym, defined);
      } else {
        var a := TryEntry(env, table[0], sym);
        match a.included
        case None =>
          ScanIncludes(env, table[1..], sym, defined);
        case Some(f) =>
          var now := defined + Declared(env, f);
          if sym.qualified !in now {
            ScanIncludes(env, table[1..], sym, now);
          }
      }
    }
  }

  /** The file each matching entry's search includes, in table order: what a scan that
      never stops early would include. It does not depend on the registry. */
  function Includes(env: Env, table: seq<Definition>, sym: Symbol): seq<string>
    decreases |table|
  {
    if |table| == 0 then []
    else
      var a := TryEntry(env, table[0], sym);
      (if Matches(table[0], sym.qualified) && a.included.Some? then [a.included.value] else [])
      + Includes(env, table[1..], sym)
  }

  /** The symbol `q` exists once the first `k` of the files `fs` have been included. */
  predicate Settled(env: Env, fs: seq<string>, k: nat, q: string, defined: set<string>)
    requires k <= |fs|
  {
    q in defined + DeclaredAll(env, fs[..k])
  }

  /** Including `f` first moves its symbols into the registry. */
  lemma SettledCons(env: Env, f: string, fs: seq<string>, k: nat, q: string, defined: set<string>)
    requires 0 < k <= |fs| + 1
    ensures Settled(env, [f] + fs, k, q, defined) <==> Settled(env, fs, k - 1, q, defined + Declared(env, f))
  {
    var p := ([f] + fs)[..k];
    assert p[0] == f && p[1..] == fs[..k - 1];
  }

  /** A scan that may include the files `fs` in order, starting from the registry
      `defined`, included `included` and answered `found`: it stopped after the shortest
      non-empty run of `fs` that makes `q` exist, it succeeded exactly when some such run
      exists, and when none does it included all of `fs`. */
  predicate Settles(env: Env, fs: seq<string>, q: string, defined: set<string>, found: bool, included: seq<string>) {
    && IsPrefix(included, fs)
    && (found <==> exists k :: 0 < k <= |fs| && Settled(env, fs, k, q, defined))
    && (found ==> Settled(env, fs, |included|, q, defined))
    && (forall k :: 0 < k < |included| ==> !Settled(env, fs, k, q, defined))
    && (!found ==> included == fs)
  }

  lemma SettlesEmpty(env: Env, q: string, defined: set<string>)
    ensures Settles(env, [], q, defined, false, [])
  {}

  /** The first file makes `q` exist: the scan stops right after it. */
  lemma SettlesHere(env: Env, f: string, fs: seq<string>, q: string, defined: set<string>)
    requires q in defined + Declared(env, f)
    ensures Settles(env, [f] + fs, q, defined, true, [f])
  {
    SettledCons(env, f, fs, 1, q, defined);
  }

  /** The first file does not make `q` exist: the scan goes on with a larger registry. */
  lemma SettlesLater(env: Env, f: string, fs: seq<string>, q: string, defined: set<string>, found: bool, included: seq<string>)
    requires q !in defined + Declared(env, f)
    requires Settles(env, fs, q, defined + Declared(env, f), found, included)
    ensures Settles(env, [f] + fs, q, defined, found, [f] + included)
  {
    var now := defined + Declared(env, f);
    var all := [f] + fs;
    forall k | 0 < k <= |all|
      ensures Settled(env, all, k, q, defined) <==> Settled(env, fs, k - 1, q, now)
    {
      SettledCons(env, f, fs, k, q, defined);
    }
    assert !Settled(env, all, 1, q, defined);
    if found {
      var k :| 0 < k <= |fs| && Settled(env, fs, k, q, now);
      assert Settled(env, all, k + 1, q, defined);
    }
    if exists k :: 0 < k <= |all| && Settled(env, all, k, q, defined) {
      var k :| 0 < k <= |all| && Settled(env, all, k, q, defined);
      assert Settled(env, fs, k - 1, q, now);
    }
    assert all[..|[f] + included|] == [f] + fs[..|included|];
  }

  /** The scan includes the matching entries' files in order and stops after the shortest
      run of them that makes the class exist (see `Settles`). */
  lemma {:induction false} ScanSettles(env: Env, table: seq<Definition>, sym: Symbol, defined: set<string>)
    ensures var r := Scan(env, table, sym, defined);
            Settles(env, Includes(env, table, sym), sym.qualified, defined, r.found, r.included)
    decreases |table|
  {
    var q := sym.qualified;
    if |table| == 0 {
      SettlesEmpty(env, q, defined);
    } else {
      var a := TryEntry(env, table[0], sym);
      if !Matches(table[0], q) || a.included.None? {
        assert Includes(env, table, sym) == Includes(env, table[1..], sym);
        ScanSettles(env, table[1..], sym, defined);
      } else {
        var f := a.included.value;
        var rest := Includes(env, table[1..], sym);
        assert Includes(env, table, sym) == [f] + rest;
        var now := defined + Declared(env, f);
        if q in now {
          SettlesHere(env, f, rest, q, defined);
        } else {
          var r := Scan(env, table[1..], sym, now);
          ScanSettles(env, table[1..], sym, now);
          SettlesLater(env, f, rest, q, defined, r.found, r.included);
        }
      }
    }
  }

  /** `__invoke($class)`: a symbol that already exists is reported found without probing
      any file; otherwise the index is scanned for the left-trimmed name. */
  function Invoke(env: Env, table: seq<Definition>, cls: string, defined: set<string>): (r: Resolution)
    ensures cls in defined ==> r == Resolution(true, [], [], defined)
    ensures r.defined == defined + DeclaredAll(env, r.included)
    ensures forall f :: f in r.included ==> f in env.files && f in r.probes
    ensures cls !in defined ==>
              var sym := ParseSymbol(cls);
              && (r.found <==> |r.included| > 0 && sym.qualified in r.defined)
              && IsPrefix(r.probes, AllProbes(env, table, sym))
              && (!r.found ==> r.probes == AllProbes(env, table, sym))
              && Settles(env, Includes(env, table, sym), sym.qualified, defined, r.found, r.included)
  {
    if cls in defined then Resolution(true, [], [], defined)
    else
      var sym := ParseSymbol(cls);
      ScanFacts(env, table, sym, defined);
      Scan(env, table, sym, defined)
  }

  /** The scan's probe, include and stopping facts together. */
  lemma ScanFacts(env: Env, table: seq<Definition>, sym: Symbol, defined: set<string>)
    ensures var r := Scan(env, table, sym, defined);
            && (forall f :: f in r.included ==> f in env.files && f in r.probes)
            && IsPrefix(r.probes, AllProbes(env, table, sym))
            && (!r.found ==> r.probes == AllProbes(env, table, sym))
            && Settles(env, Includes(env, table, sym), sym.qualified, defined, r.found, r.included)
  {
    ScanProbes(env, table, sym, defined);
    ScanIncludes(env, table, sym, defined);
    ScanSettles(env, table, sym, defined);
  }

  /** The entries whose prefix the class name starts with, in table order. */
  function Matching(table: seq<Definition>, cls: string): (r: seq<Definition>)
    ensures forall d :: d in r ==> d in table && Matches(d, cls)
    ensures forall d :: d in table && Matches(d, cls) ==> d in r
    decreases |table|
  {
    if |table| == 0 then []
    else (if Matches(table[0], cls) then [table[0]] else []) + Matching(table[1..], cls)
  }

  /** Only entries whose key is a literal prefix of the class are tried, in stored order:
      dropping the others changes nothing. */
  lemma {:induction false} ScanOnlyMatching(env: Env, table: seq<Definition>, sym: Symbol, defined: set<string>)
    ensures Scan(env, table, sym, defined) == Scan(env, Matching(table, sym.qualified), sym, defined)
    decreases |table|
  {
    if |table| > 0 {
      var m := Matching(table, sym.qualified);
      var rest := Matching(table[1..], sym.qualified);
      if Matches(table[0], sym.qualified) {
        assert m == [table[0]] + rest && m[0] == table[0] && m[1..] == rest;
        var a := TryEntry(env, table[0], sym);
        match a.included
        case None =>
          ScanOnlyMatching(env, table[1..], sym, defined);
        case Some(f) =>
          ScanOnlyMatching(env, table[1..], sym, defined + Declared(env, f));
      } else {
        assert m == rest;
        ScanOnlyMatching(env, table[1..], sym, defined);
      }
    }
  }

  /** A class no entry's prefix covers is not found, and nothing is probed or included. */
  lemma NoMatchingEntry(env: Env, table: seq<Definition>, cls: string, defined: set<string>)
    requires cls !in defined
    requires forall k :: 0 <= k < |table| ==> !Matches(table[k], ParseSymbol(cls).qualified)
    ensures Invoke(env, table, cls, defined) == Resolution(false, [], [], defined)
  {
    var sym := ParseSymbol(cls);
    ScanOnlyMatching(env, table, sym, defined);
    assert Matching(table, sym.qualified) == [];
  }

  /** A class whose file sits at the exact expected place under the first matching entry
      and declares it is found with that single probe and that single include. */
  lemma FoundAtExpectedPlace(env: Env, table: seq<Definition>, cls: string, defined: set<string>)
    requires cls !in defined && 0 < |table|
    requires var sym := ParseSymbol(cls);
             var d := table[0];
             var file := d.directory + SubPath(Slice(sym.path, d.length), env.sep) + sym.name + ".php";
             Matches(d, sym.qualified) && file in env.files && sym.qualified in Declared(env, file)
    ensures var sym := ParseSymbol(cls);
            var d := table[0];
            var file := d.directory + SubPath(Slice(sym.path, d.length), env.sep) + sym.name + ".php";
            Invoke(env, table, cls, defined) == Resolution(true, [file], [file], defined + Declared(env, file))
  {}
}
