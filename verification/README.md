# spoom-php/composer in Dafny

A model of the composer plugin that maintains a namespace index, and of the runtime class
loader that reads it.

**Build time.** On composer's `pre-autoload-dump` event, `Plugin::onBeforeAutoloadDump`
gathers the psr-4 namespaces of the root package and of every installed package, in that
order. Every one of them, the root package included, is gathered only when its type is
`spoom` or `spoom-extension`. The root package's paths are taken below the project root;
a dependency's paths are taken below its own installation directory.

`writeAutoload` then writes the gathered namespaces as a PHP file returning
`namespace => [ directory, number of '\' in namespace ]`. The longest namespace comes
first. A directory below the project root is written relative to the index file.

**Run time.** `Autoload` is registered on the interpreter's autoload chain. For an unknown
class it takes these steps:

1. It strips leading `\`.
2. It walks the index in stored order.
3. For every namespace that is a literal prefix of the class, it looks for a file under
   that entry's directory, in the sub-directories named by the class's remaining
   namespace segments.
4. There it tries `Name.php`, then `Name.hh` under HHVM.
5. When no file exists for the full name, it tries the shorter names `explode` cuts from
   the class name at its case changes. This lets a nested class live in its outer class's
   file.
6. It stops at the first entry after which the class exists.

Modules:

| file | module | what it models |
|---|---|---|
| `wrappers.dfy` | `Wrappers` | `Option` / `Result` |
| `strings.dfy` | `Strings` | `ltrim`, `implode`, `explode`, `substr_count` on one character |
| `tokenizer.dfy` | `Tokenizer`, `TokenizerExamples` | `explode` (the camel-case tokenizer) as a step function and as the loop; the documented examples |
| `resolver.dfy` | `Resolver` | `read`, `load`, `__invoke` over a filesystem given as a set of paths and a registry of declared symbols |
| `registration.dfy` | `Registration` | `attach` / `detach` on the autoload chain, and both constructors |
| `phptext.dfy` | `PhpText` | `str_replace` escaping, PHP single-quoted literals and decimal integers, with their readers |
| `indexfile.dfy` | `IndexFile` | the index file's text and a reader for it |
| `builder.dfy` | `Builder` | `onBeforeAutoloadDump`, `writeAutoload`, `getDirectory` |
| `pipeline.dfy` | `Pipeline` | the table the loader gets from the written index, and what its segment counts cut off |

**The two loader files.** `src/library/Autoload.php` and the older root `Autoload.php`
have line-for-line identical bodies for these operations:

| operation | `src/library/Autoload.php` | root `Autoload.php` |
|---|---|---|
| resolve | `__invoke`, 50-75 | `load`, 69-94 |
| file search | `load`, 104-119 | `search`, 105-120 |
| tokenizer | `explode`, 153-178 | `explode`, 133-158 |
| file read | `read`, 129-141 | `read`, 169-181 |
| attach / detach | 82-93 | 49-60 |

The table below cites the library file, and every statement holds of both. Only the
constructors differ: `Registration.Construct` is the library's and
`Registration.ConstructLegacy` is the root file's.

**Definitional helpers.** These definitions transcribe one PHP expression or loop each.
They carry at most a length contract; what they mean is stated by the members that use
them:

- `Strings.Join`: `implode` (src/library/Autoload.php:107, Plugin.php:144), partnered by
  `Strings.SplitJoin` and `PhpText.ReplaceChar`;
- `Tokenizer.IsUpper`, `Tokenizer.Start`: `ctype_upper` and the loop's seeding
  (src/library/Autoload.php:158);
- `Tokenizer.DropLast`: `substr($buffer, 0, -1)` (src/library/Autoload.php:166);
- `Tokenizer.StepOf`: the loop body (src/library/Autoload.php:160-174), whose contract
  `Tokenizer.Step` states;
- `Tokenizer.Extend`: the state after a run of digits, used by `Tokenizer.DigitsOnlyExtend`;
- `Resolver.Candidates`: the full name, then the `explode` tokens
  (src/library/Autoload.php:108-115), used by `Resolver.Load`;
- `Resolver.TryEntry`: one matching entry's `load` call (src/library/Autoload.php:67);
- `Builder.Recognized`: the type test (Plugin.php:82);
- `Builder.IgnoredMessage`, `Builder.GeneratingMessage`: the two console lines
  (Plugin.php:94, 105);
- `Builder.DirsCount`, `Builder.Repeat`: the number of list-of-directories entries and
  that many copies of a message, used to count the warnings of `Builder.EntryWrites`;
- `Builder.ToEntries`, `Builder.IndexEntries`: the loop that builds the lines
  (Plugin.php:128-141), stated by `Builder.IndexOrdered` and `Builder.IndexContents`;
- `Registration.MissingMessage`: the exception text (src/library/Autoload.php:35).

**Behaviour worth knowing:**

- **`explode` returns the longest token first.** The code ends with `array_reverse`, so
  `explode('My0NestedClass')` is `['My0Nested', 'My0']`. The doc comment's examples list
  the same tokens shortest first, but its `@return` says "desc ordered". The model
  follows the code. `TokenizerExamples` proves the three documented examples in the
  code's order.
- **An empty namespace prefix never matches.** The loader is PHP 7 code (it uses
  `$name{0}`), and PHP 7's `strpos($class, '')` is `false`. So an index entry for the
  empty namespace (a psr-4 fallback `"" => "src/"`) is written by the plugin but never
  used by the loader (`Resolver.Matches`).
- **Dependencies override the root package.** The root package is gathered first and
  dependencies after it. When both map the same namespace, the dependency's directory is
  kept, in the root package's position (`Builder.DependencyOverridesRoot`). Among the
  dependencies, the last one that maps a namespace to a single directory decides it
  (`Builder.LastDependencyWins`).
- **The dump message counts namespaces.** It says "N package(s)", but N is the number of
  distinct namespaces gathered.

## Model

| member | source | states |
|---|---|---|
| `Strings.TrimLeft` | src/library/Autoload.php:57 | `ltrim` gives a suffix of the input, removes only the trimmed character, and leaves no leading copy of it |
| `Strings.Split` | src/library/Autoload.php:59 | `explode` on one delimiter gives at least one piece, no piece contains the delimiter, and joining the pieces with it gives the input back |
| `Strings.SplitJoin` | src/library/Autoload.php:59 | the other half of the round trip: delimiter-free pieces joined and split again come back unchanged |
| `Strings.SplitAround` | src/library/Autoload.php:59 | splitting around one delimiter splits each side separately |
| `Strings.Count` | Plugin.php:135 | `substr_count` of one character is its number of occurrences (its multiplicity) |
| `Strings.SplitCount` | Plugin.php:135 | `explode` gives exactly one more piece than `substr_count` counts delimiters |
| `Tokenizer.Step` | src/library/Autoload.php:160-174 | one character always joins the buffer; a digit changes neither the tracked case nor the tokens; any other character sets the tracked case to its own; a token is closed exactly when a non-digit changes the case after more than one character; the tokens only grow, by at most one; a closed token is the whole buffer on a change to upper case and the buffer without its last character on a change to lower case, and the counter restarts at 1; otherwise the counter grows by one; the token invariant is kept |
| `Tokenizer.Run` | src/library/Autoload.php:158-175 | the loop from any position fails exactly when an underscore is still ahead, appends exactly the remaining characters to the buffer, and keeps the token invariant (tokens are non-empty, growing prefixes of the buffer) |
| `Tokenizer.Explode` | src/library/Autoload.php:153-178 | an underscore anywhere gives no tokens; every token is a non-empty proper prefix of the name; tokens are strictly longest first |
| `Tokenizer.DigitsOnlyExtend` | src/library/Autoload.php:162-174 | a run of digits never closes a token or changes the tracked case: it only extends the buffer and the counter |
| `Tokenizer.ExplodeLoop` | src/library/Autoload.php:153-178 | the for-loop with its early `return []` and the final `array_reverse` computes exactly the step-function model |
| `TokenizerExamples.ExplodeMy0NestedClass` | src/library/Autoload.php:145 | `My0NestedClass` gives `My0Nested`, then `My0` |
| `TokenizerExamples.ExplodeMY0NestedClass` | src/library/Autoload.php:146 | `MY0NestedClass` gives `MY0Nested`, then `MY0` |
| `TokenizerExamples.ExplodeMY0Nested` | src/library/Autoload.php:147 | `MY0Nested` gives only `MY0` |
| `TokenizerExamples.ExplodeUnderscore` | src/library/Autoload.php:161 | names containing `_` give no tokens |
| `Resolver.Read` | src/library/Autoload.php:129-141 | `.php` is probed first; a file is included exactly when `.php` exists or (under HHVM only) `.hh` exists; `.php` wins; the included file exists and is the last probe; `.hh` is never probed outside HHVM |
| `Resolver.SubPath` | src/library/Autoload.php:107 | the sub-directory is empty or ends in exactly the separator and never starts with it; all-empty segments give the empty path; ordinary segments give the joined path plus one separator |
| `Resolver.TryFrom` | src/library/Autoload.php:113-117 | a file is included exactly when some candidate has one, and then it is the first such candidate's file; it exists and was probed; only candidate paths are probed |
| `Resolver.Load` | src/library/Autoload.php:104-119 | the full name is probed first; if it has a file, that file is included after at most two probes; otherwise a file is included exactly when some `explode` token has one, and it is the first such token's file |
| `Resolver.TokensAfterFullName` | src/library/Autoload.php:108-115 | when the full name has no file, the search over `[name] + tokens` behaves as the search over the tokens alone |
| `Resolver.ParseSymbol` | src/library/Autoload.php:57-60 | the qualified name is the left-trimmed class name; namespace segments and bare name joined with `\` give it back; no part contains `\` |
| `Resolver.StrPos` | src/library/Autoload.php:64 | `strpos` answers a position only for a non-empty needle, where the needle occurs and no earlier position has it; it answers `false` only for an empty needle or one that occurs nowhere |
| `Resolver.Matches` | src/library/Autoload.php:64 | an entry matches exactly when `strpos` of its namespace in the class name is 0 |
| `Resolver.Slice` | src/library/Autoload.php:67 | `array_slice` keeps the segments from the offset on, in order, and none when the offset is past the end |
| `Resolver.Scan` | src/library/Autoload.php:63-73 | the registry afterwards is the registry before plus what every included file declares; the scan succeeds exactly when something was included and the class is then declared |
| `Resolver.ScanSettles` | src/library/Autoload.php:63-72 | of the files the matching entries' searches find, in table order, the scan includes the shortest non-empty run after which the class exists; it succeeds exactly when such a run exists, and otherwise includes all of them |
| `Resolver.ScanProbes` | src/library/Autoload.php:63-73 | the scan probes a prefix of the candidate paths of all matching entries in table order, and all of them when it fails |
| `Resolver.ScanIncludes` | src/library/Autoload.php:63-73 | every file the scan includes exists and was probed |
| `Resolver.Invoke` | src/library/Autoload.php:50-75 | an already-known class is reported found with nothing probed or included; otherwise the scan's results: its registry, its success, its probes, and its includes as the shortest run of the matching entries' files after which the class exists (all of them when it does not) |
| `Resolver.Matching` | src/library/Autoload.php:64 | the entries kept are exactly the table entries whose non-empty prefix starts the class name |
| `Resolver.ScanOnlyMatching` | src/library/Autoload.php:63-64 | entries whose prefix does not start the class name play no part in the scan |
| `Resolver.NoMatchingEntry` | src/library/Autoload.php:63-73 | a class no prefix covers is not found, and nothing is probed or included |
| `Resolver.FoundAtExpectedPlace` | src/library/Autoload.php:63-68 | a class whose file sits at the expected place under the first matching entry, and declares it, is found with one probe and one include |
| `Registration.Detach` | src/library/Autoload.php:91-93 | the loader is no longer on the chain; every other loader keeps its multiplicity; a chain without the loader is unchanged |
| `Registration.DetachAppend` | src/library/Autoload.php:91-93 | unregistering keeps the other loaders in order (it distributes over concatenation) |
| `Registration.Register` | src/library/Autoload.php:86 | a registered loader stays where it is; a new one is added once, at the front or at the back |
| `Registration.Attach` | src/library/Autoload.php:82-87 | the loader is on the chain exactly once, at the requested end, and the other loaders are unchanged and in order; `prepend` is explicit, and PHP's default `true` is the front |
| `Registration.DetachRegistered` | src/library/Autoload.php:82-87 | unregistering a freshly registered loader gives the chain back |
| `Registration.AttachMoves` | src/library/Autoload.php:82-87 | a second attach gives the chain a single attach at that end gives, so attaching is idempotent and re-attaching moves the loader |
| `Registration.Construct` | src/library/Autoload.php:33-41 | a missing or unreadable index is an error with the library's message; otherwise the table is loaded and the loader is attached once, at the requested end; `prepend` is explicit, and PHP's default `false` is the back |
| `Registration.ConstructLegacy` | Autoload.php:33-42 | a missing index gives an empty table and an untouched chain; an unreadable one stops the script; a loader with an empty table is not attached |
| `Registration.ConstructorsAgree` | Autoload.php:33-42 | for a present, non-empty index both constructors give the same loader |
| `PhpText.ReplaceChar` | Plugin.php:136-137 | `str_replace` of one character is `implode($by, explode($c, $s))`: the text between occurrences is kept and the replacement stands for each occurrence; replacing a character not in the input changes nothing, and a replacement without the character removes it |
| `PhpText.Escape` | Plugin.php:136-137 | the two `str_replace` passes escape each character on its own: `\` becomes `\\`, `'` becomes `\'`, anything else is kept |
| `PhpText.EscapeIsCharwise` | Plugin.php:136-137 | the two sequential replacements escape each character on its own: the second pass never touches the backslashes the first doubled |
| `PhpText.QuotedRoundTrip` | Plugin.php:136-140 | PHP reads the escaped text back, between quotes, as the original value, whatever follows the closing quote |
| `PhpText.NatToString` | Plugin.php:140 | the decimal form is non-empty, all digits, with no leading zero except for zero |
| `PhpText.NatRoundTrip` | Plugin.php:140 | the decimal form reads back as the number |
| `PhpText.NatReadBack` | Plugin.php:140 | the number reads back and reading stops right after its digits |
| `IndexFile.Line` | Plugin.php:139-140 | one written line reads back as its namespace, its directory (absolute, or relative under `__DIR__`) and its count, whatever follows |
| `IndexFile.LinesRoundTrip` | Plugin.php:144 | lines joined with `,\n` and closed with `\n];\n` read back as every entry, in order |
| `IndexFile.FileText` | Plugin.php:144 | the whole index file reads back as exactly the entries it was written from, in order, including the empty list |
| `Builder.Directory` | Plugin.php:160-162 | a dependency's directory is the vendor directory, then its pretty name, then `/` |
| `Builder.StoredPath` | Plugin.php:98 | a stored directory always ends in `/` |
| `Builder.Put` | Plugin.php:98 | assigning a key keeps an existing key's position or appends a new key; the key then holds the new value and every other key holds its old value |
| `Builder.Assign` | Plugin.php:91-99 | a list with unique keys stays unique under assignments |
| `Builder.AssignLookup` | Plugin.php:91-99 | after a sequence of assignments a key holds its last written value, and an unwritten key its previous value |
| `Builder.EntryWrites` | Plugin.php:91-100 | each psr-4 entry gives one assignment or one warning: every single-directory namespace is assigned its stored directory and nothing else is assigned; the warnings are exactly one copy of the package's warning per list-of-directories namespace (Plugin.php:94), and the assignments number exactly the single-directory namespaces |
| `Builder.PackageWrites` | Plugin.php:82-101 | a package contributes exactly the assignments it declares when its type is recognised and it has a psr-4 map; it warns exactly when it is recognised and maps some namespace to a list of directories, and then the warning names it |
| `Builder.DependencyWrites` | Plugin.php:81-103 | the dependencies contribute exactly the assignments some recognised dependency declares below its own directory; every warning names a recognised dependency, and every recognised dependency that maps a namespace to a list of directories is warned about (a dependency of another type is skipped at Plugin.php:82 before any warning) |
| `Builder.Gather` | Plugin.php:77-103 | the assignments are the root package's, then the dependencies' in order; an assignment is made exactly when the root package or some dependency maps the namespace to that single directory; every warning names the root or a dependency of a recognised type, and the root (when recognised) and every recognised dependency that map a namespace to a list of directories are warned about |
| `Builder.NamespaceList` | Plugin.php:80-103 | the gathered list has unique namespaces |
| `Builder.NamespaceListLastWins` | Plugin.php:77-103 | each namespace holds its last assignment among the root package's assignments followed by the dependencies'; every namespace present is mapped by the root or a dependency |
| `Builder.RootKept` | Plugin.php:77-98 | a namespace the root package maps to a single directory, and no dependency maps to one, keeps the root package's directory |
| `Builder.DependencyOverridesRoot` | Plugin.php:77-98 | a namespace a dependency maps to one directory gets the dependency's directory, whatever the root package maps it to |
| `Builder.DeclaresOnce` | Plugin.php:91-98 | a package whose psr-4 map names each namespace once stores at most one directory for it |
| `Builder.DependencyLastWrite` | Plugin.php:81-98 | among the dependencies' assignments, the last one to a namespace comes from the last dependency that maps it to a single directory |
| `Builder.LastDependencyWins` | Plugin.php:77-98 | the gathered list gives a namespace the directory of the last dependency that maps it to a single directory, whatever the root package and earlier dependencies map it to |
| `Builder.SortByLength` | Plugin.php:123-125 | the sorted list is a permutation of the input with the longest key first |
| `Builder.SortUnique` | Plugin.php:123-125 | sorting keeps unique keys unique and keeps the same keys |
| `Builder.Relativize` | Plugin.php:132-133 | a directory is made relative exactly when it starts with the project root, and restoring it gives the original directory |
| `Builder.ToEntry` | Plugin.php:132-135 | an entry keeps the namespace, stores the number of `\` in it, and its location restores to the directory |
| `Builder.IndexOrdered` | Plugin.php:123-135 | the index lists the longest namespace first and stores each namespace's `\` count |
| `Builder.IndexContents` | Plugin.php:128-141 | the index holds every gathered namespace with its directory, and nothing else |
| `Builder.IndexUnique` | Plugin.php:123-125 | unique namespaces stay unique in the index |
| `Builder.WriteAutoload` | Plugin.php:117-151 | nothing is written exactly when the index directory neither exists nor can be made; otherwise the text reads back as the sorted entries |
| `Builder.OnBeforeAutoloadDump` | Plugin.php:69-110 | without the plugin's own files nothing happens; otherwise the last message reports the namespace count, every earlier message warns about a recognised package, the root (when recognised) and every recognised dependency that map a namespace to a list of directories are warned about before it, and the index is written (when its directory is ready) and reads back as the gathered list's entries |
| `Pipeline.Loaded` | src/library/Autoload.php:38 | evaluating the index gives one table entry per line, with its namespace and count, and a directory that a relative line takes below `__DIR__ . '/../'` |
| `Pipeline.LoaderSeesGatheredList` | Plugin.php:139-144 | with the index one level below the project root, the loader's table holds exactly the gathered namespace/directory pairs, longest namespace first and unique |
| `Pipeline.CountCutsNamespace` | Plugin.php:135 | for a namespace ending in `\`, the stored count drops exactly the namespace's segments of a class inside it: the loader searches the class's sub-namespace below the prefix and uses the bare name |
| `Pipeline.NamespacePieces` | Plugin.php:135 | a class name inside a namespace splits into the namespace's pieces, one per `\`, followed by the pieces of the rest |

## Left out

- Staging of public files (`getFileList`, `createFileList`, `removeFileList`, and the
  file lifecycle in `Installer.php`): filesystem copying with no algorithm of its own.
- `activate`. Its `realpath`/`getcwd` computation of the project root and the vendor
  directory is not modelled; the results are the parameters `rootDir` and `vendor`.
- `clearstatcache` and `file_exists(__DIR__ . '/Plugin.php')` are the parameter
  `pluginPresent`. `is_dir(...) || mkdir(...)` is the parameter `dirReady`.
- `opcache_invalidate`: it has no effect on what is written.
- Composer's `Filesystem::normalizePath` and `isAbsolutePath` are function parameters
  (`PathOps`) about which nothing is assumed.
- `Builder.OnBeforeAutoloadDump`: `writeError` and `write` go to different streams; the
  model keeps all console lines in one ordered list.
- `Builder.SortByLength`: PHP 7's `uksort` leaves equal-length keys in an unspecified
  order. The model sorts stably, and its contract claims only the order by length and
  the permutation.
- The singleton `instance()` and the `FILE`/`DIRECTORY` constants. The index path is a
  parameter. `Pipeline.Loaded` takes the directory that `__DIR__ . '/../'` names as a
  parameter.
- `Resolver.Invoke`: `class_exists`, `interface_exists` and `trait_exists` are one
  registry of names compared exactly. PHP compares class names case-insensitively and
  ignores one leading `\`; that is not modelled.
- Including a file also runs its code. A second declaration of the same class is a fatal
  error in PHP; the model only adds the file's declared names to the registry.
- A hand-edited or corrupt index (non-array return, negative counts, integer-like keys
  that PHP turns into ints) is not modelled. The written index is proved to read back
  exactly.
- `IndexFile.ParseIndexFile` reads only the subset of PHP syntax the writer emits (header,
  single-quoted literals, `__DIR__ . '…'`, decimal integers, the closing `];`). It is not
  a PHP parser.
- The psr-4 value types other than a string or a list of strings are not modelled.
- Names and paths are `seq<char>` and are taken to be ASCII, one character per byte.
  `Tokenizer.Explode` and `Builder.SortByLength` count characters where PHP's `strlen`
  and the loader's byte loop count bytes; they agree only on ASCII text. Multi-byte
  UTF-8 names are not modelled.
- PHP's default arguments (`attach($prepend = true)`, `__construct($path, $prepend =
  false)`) are not separate members: `Registration.Attach` and `Registration.Construct`
  take `prepend` explicitly, and a default call is the call with that value.
