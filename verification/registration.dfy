/** Putting the resolver on the interpreter's autoload chain, and building it from the index
    file. The chain is the ordered list of callables the interpreter asks, in turn, for an
    unknown class; one loader instance is identified by a value of type `L`. */
module Registration {
  import opened Wrappers
  import opened Resolver

  /** `spl_autoload_unregister($loader)`: the chain without the loader. */
  function Detach<L(==)>(chain: seq<L>, me: L): (r: seq<L>)
    ensures me !in r
    ensures multiset(r) == multiset(chain)[me := 0]
    ensures me !in chain ==> r == chain
    decreases |chain|
  {
    if |chain| == 0 then []
    else
      assert chain == [chain[0]] + chain[1..];
      (if chain[0] == me then [] else [chain[0]]) + Detach(chain[1..], me)
  }

  /** Unregistering keeps the other loaders in their order: it distributes over
      concatenation. */
  lemma {:induction false} DetachAppend<L>(a: seq<L>, b: seq<L>, me: L)
    ensures Detach(a + b, me) == Detach(a, me) + Detach(b, me)
    decreases |a|
  {
    if |a| > 0 {
      assert (a + b)[0] == a[0] && (a + b)[1..] == a[1..] + b;
      DetachAppend(a[1..], b, me);
    } else {
      assert a + b == b;
    }
  }

  /** `spl_autoload_register($loader, true, $prepend)`: a loader already on the chain is
      left where it is; otherwise it goes to the front or the back. */
  function Register<L(==)>(chain: seq<L>, me: L, prepend: bool): (r: seq<L>)
    ensures me in chain ==> r == chain
    ensures me !in chain ==> multiset(r) == multiset(chain) + multiset{me}
    ensures me !in chain && prepend ==> r[0] == me && r[1..] == chain
    ensures me !in chain && !prepend ==> r[|r| - 1] == me && r[..|r| - 1] == chain
  {
    if me in chain then chain
    else if prepend then [me] + chain
    else chain + [me]
  }

  /** `attach($prepend)`: detach, then register. Whatever the chain held, the loader ends up
      on it exactly once, at the requested end, and the other loaders keep their order. */
  function Attach<L(==)>(chain: seq<L>, me: L, prepend: bool): (r: seq<L>)
    ensures |r| == |Detach(chain, me)| + 1
    ensures multiset(r)[me] == 1
    ensures prepend ==> r[0] == me
    ensures !prepend ==> r[|r| - 1] == me
    ensures Detach(r, me) == Detach(chain, me)
  {
    var rest := Detach(chain, me);
    DetachRegistered(rest, me, prepend);
    Register(rest, me, prepend)
  }

  /** Unregistering a loader that was just registered on a chain without it gives that
      chain back. */
  lemma DetachRegistered<L>(rest: seq<L>, me: L, prepend: bool)
    requires me !in rest
    ensures Detach(Register(rest, me, prepend), me) == rest
  {
    assert Detach([me], me) == [];
    if prepend {
      DetachAppend([me], rest, me);
    } else {
      DetachAppend(rest, [me], me);
    }
  }

  /** Re-attaching moves the loader: a second attach gives the chain a single attach at
      that end would give. With the same end both times, attaching is idempotent. */
  lemma AttachMoves<L>(chain: seq<L>, me: L, first: bool, second: bool)
    ensures Attach(Attach(chain, me, first), me, second) == Attach(chain, me, second)
  {
    var once := Attach(chain, me, first);
    assert Detach(once, me) == Detach(chain, me);
  }

  /** What `require $path` finds at the index path. */
  datatype IndexSource = Missing | Unreadable | Present(table: seq<Definition>)

  /** A constructed loader: the table it holds and the autoload chain after construction. */
  datatype Loader<L> = Loader(table: seq<Definition>, chain: seq<L>)

  /** The message the library constructor throws. */
  function MissingMessage(path: string): string {
    "Missing or unreadable autoloader file: " + path
  }

  /** The library constructor: a missing or unreadable index is an error; otherwise the
      table is loaded and the loader attached at the requested end (the back by default),
      even when the table is empty. */
  function Construct<L(==)>(source: IndexSource, path: string, chain: seq<L>, me: L, prepend: bool)
    : (r: Result<Loader<L>, string>)
    ensures r.Failure? <==> !source.Present?
    ensures r.Failure? ==> r.error == MissingMessage(path)
    ensures r.Success? ==> r.value.table == source.table
    ensures r.Success? ==> multiset(r.value.chain)[me] == 1 && Detach(r.value.chain, me) == Detach(chain, me)
    ensures r.Success? && prepend ==> r.value.chain[0] == me
    ensures r.Success? && !prepend ==> r.value.chain[|r.value.chain| - 1] == me
  {
    if !source.Present? then Failure(MissingMessage(path))
    else Success(Loader(source.table, Attach(chain, me, prepend)))
  }

  /** The failure the lenient constructor meets: `require` of a file that exists but cannot
      be read stops the script. */
  const FatalRequire := "Failed opening required file"

  /** The lenient constructor of the older loader: a missing index leaves the table empty;
      the loader is attached only when the table it read is non-empty, so an empty or
      missing index leaves the chain untouched. */
  function ConstructLegacy<L(==)>(source: IndexSource, chain: seq<L>, me: L, prepend: bool)
    : (r: Result<Loader<L>, string>)
    ensures r.Failure? <==> source.Unreadable?
    ensures source.Missing? ==> r == Success(Loader([], chain))
    ensures source.Present? ==> r.Success? && r.value.table == source.table
    ensures r.Success? && r.value.table == [] ==> r.value.chain == chain
    ensures r.Success? && r.value.table != [] ==>
              multiset(r.value.chain)[me] == 1 && Detach(r.value.chain, me) == Detach(chain, me)
  {
    match source
    case Unreadable => Failure(FatalRequire)
    case Missing => Success(Loader([], chain))
    case Present(table) =>
      if table == [] then Success(Loader(table, chain))
      else Success(Loader(table, Attach(chain, me, prepend)))
  }

  /** The two constructors agree whenever the index is present and non-empty. */
  lemma ConstructorsAgree<L>(table: seq<Definition>, path: string, chain: seq<L>, me: L, prepend: bool)
    requires table != []
    ensures Construct(Present(table), path, chain, me, prepend) == ConstructLegacy(Present(table), chain, me, prepend)
  {}
}
