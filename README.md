# php-namespace-monkey, modelled in Dafny

php-namespace-monkey is an Atom plugin. When a new, empty PHP class file is
opened, it writes the file's `namespace` declaration and, optionally, an empty
class body. It derives the namespace from the PSR-0 / PSR-4 `autoload` rules in
the `composer.json` files of the open project roots. This project models the
plugin's logic in `lib/php-namespace-monkey.js` and proves what that logic
guarantees.

The model has these parts:

- `wrappers.dfy` holds `Option`.
- `js_strings.dfy` (module `JsStrings`) models the JavaScript string built-ins the plugin relies on:
  - `startsWith` and `endsWith`;
  - `replace` with a string pattern, which replaces only the first occurrence;
  - `split` on a one-character separator, and `join`;
  - `split('/').slice(-1)[0]`.
- `rules.dfy` (module `Rules`) models the namespace table that `loadNamespaces` builds:
  - the rules each parsed manifest contributes, in push order;
  - the stable sort by descending path length;
  - the loaded table, together with its properties;
  - the loader as written, which throws on a manifest that is the JSON literal `null` (see Findings).
- `resolver.dfy` (module `Resolver`) models `isPhpClassFile`, `resolveNamespace` and `resolveClassName`. They are pure functions, with lemmas for:
  - first-match and longest-prefix selection;
  - direct and nested files;
  - class names.
- `boilerplate.dfy` (module `Boilerplate`) models the text appended to a new file: the three header styles and the class definition. A line-by-line description of the same text is proved equal to it.
- `monkey.dfy` (module `NamespaceMonkey`) models the plugin object as the class `PhpNamespaceMonkey`:
  - Its field `namespaces` is reset by `LoadNamespaces`, filled in nested loops that mirror the nested `forEach` callbacks, and then sorted.
  - `LoadNamespaces` follows the code as written: a root whose manifest is `null` throws, the load stops there, and the table keeps the rules pushed so far, unsorted. During activation that throw also skips the buffer subscription, which the field `listening` records.
  - The corrected behaviour, which skips such a root, is `Rules.LoadedTable` (see Findings).
  - `AddBoilerplate` appends to a `TextBuffer` object piece by piece.
  - Each method is proved against the specification functions of the modules above.

The model follows the code wherever the code differs from how the plugin is
usually described:

- Rules carry no project root. A rule loaded from one project matches a file in any other project with the same relative layout (`Resolver.ResolutionIgnoresProjectRoot`).
- Paths are not normalised. The only change made to a manifest path is a trailing `/`.
- A file outside every project root is matched on its whole path, after the first occurrence of `null/` is removed. `relativizePath` reports a null root there, and `null + '/'` is the text `null/`.

Quirks the model keeps:

- The first `.php` is removed wherever it occurs, so a directory whose name contains `.php` changes both the namespace and the class name. The lemmas about direct and nested files therefore require that `.php` does not occur before the file name.
- A manifest path `""` is Composer's mapping of a namespace to the project root itself. It becomes the rule path `/`. That rule never matches a file inside a project, because a project-relative path does not start with `/`. It does match the absolute path of any file outside every project root (`Resolver.RootMappingRule`). Such a file then gets the rule's namespace followed by all of its directories.

## Model

| member | source | states |
|---|---|---|
| JsStrings.IndexOfSpec | lib/php-namespace-monkey.js:154 | the position `replace` acts on is the first occurrence of the pattern, and there is none exactly when the pattern does not occur |
| JsStrings.RemoveFirstOfPrefix | lib/php-namespace-monkey.js:162 | replacing a prefix the text starts with removes exactly that prefix |
| JsStrings.RemoveFirstOfSuffix | lib/php-namespace-monkey.js:163 | replacing `.php` in `stem + ".php"` gives `stem` when `.php` does not occur earlier |
| JsStrings.Split | lib/php-namespace-monkey.js:164 | `split` gives at least one piece, no piece holds the separator, and joining the pieces gives the text back |
| JsStrings.SplitJoin | lib/php-namespace-monkey.js:164-166 | `split` undoes `join` when no piece holds the separator |
| JsStrings.JoinSplitReplaces | lib/php-namespace-monkey.js:164-166 | splitting at `/` and joining with `\` replaces every `/` with `\` |
| JsStrings.LastSegmentSpec | lib/php-namespace-monkey.js:137 | the last `/`-segment holds no `/`, ends the path, and is the whole path or follows a `/` |
| Rules.WithTrailingSlash | lib/php-namespace-monkey.js:125 | the result ends with `/`, extends the path by at most one character, and is the path itself when it already ends with `/` |
| Rules.WithTrailingSlashIdempotent | lib/php-namespace-monkey.js:125 | adding the slash twice is adding it once |
| Rules.FlatMapAppend | lib/php-namespace-monkey.js:91-131 | a `forEach` over `a + b` pushes the rules for `a` and then those for `b` |
| Rules.PathRulesSpec | lib/php-namespace-monkey.js:124-128 | one rule per path, in the same position, with the slash-terminated path and the key |
| Rules.EntryRulesSpec | lib/php-namespace-monkey.js:117-129 | an empty key gives no rule, a single path exactly one rule, an array one rule per element in order, and every rule is well formed and carries the key |
| Rules.CollectWellFormed | lib/php-namespace-monkey.js:117-128 | every pushed rule's path ends with `/` and its namespace is non-empty |
| Rules.CollectAppend | lib/php-namespace-monkey.js:91-131 | roots contribute independently, in root order |
| Rules.SilentRootIsSkipped | lib/php-namespace-monkey.js:91-104 | a root with no manifest, an unparseable one, a `null` one or no `autoload` adds nothing to the pushed rules or the loaded table, and does not stop later roots |
| Rules.InsertPermutes | lib/php-namespace-monkey.js:133 | inserting one rule into the sorted prefix adds exactly that rule |
| Rules.InsertSorted | lib/php-namespace-monkey.js:133 | inserting into a sorted table keeps it sorted by non-increasing path length |
| Rules.InsertStable | lib/php-namespace-monkey.js:133 | insertion places the new rule after every rule of equal path length |
| Rules.SortSpec | lib/php-namespace-monkey.js:133 | the sort gives a table sorted by non-increasing path length that is a permutation of its input and keeps the input order among rules of equal path length |
| Rules.LoadedTableSpec | lib/php-namespace-monkey.js:88-134 | the loaded table is sorted, is a permutation of the pushed rules that is stable among equal lengths, and holds only well-formed rules |
| Rules.AsWrittenWithoutNullDocument | lib/php-namespace-monkey.js:91-133 | without a `null` manifest, the loader as written completes with exactly the modelled table |
| Rules.NullDocumentStopsLoad | lib/php-namespace-monkey.js:91-104 | as written, a `null` manifest after roots that hold none throws with exactly those roots' rules pushed, and whatever follows it is never read |
| Rules.NullDocumentAbortsLoad | lib/php-namespace-monkey.js:99-104 | as written, a `null` manifest in the first root throws before the second root's rule is pushed, while the corrected table holds that rule |
| Resolver.IsPhpClassFileIff | lib/php-namespace-monkey.js:136-139 | a path is a PHP class file exactly when it ends with `.php`, because then its last segment is non-empty |
| Resolver.FindRule | lib/php-namespace-monkey.js:156-158 | `find` gives a rule whose path starts the relative path and no earlier rule does; nothing is found exactly when no rule's path starts it |
| Resolver.ResolveNamespace | lib/php-namespace-monkey.js:141-169 | there is no namespace exactly when the file path is empty or no rule's path starts the project-relative path |
| Resolver.RelativePathUnderRoot | lib/php-namespace-monkey.js:152-154 | a file under its project root is matched on the part after `root + "/"` |
| Resolver.ResolutionIgnoresProjectRoot | lib/php-namespace-monkey.js:154-158 | two roots with the same relative layout resolve a file identically, because rules carry no root |
| Resolver.OutsideProjectKeepsPath | lib/php-namespace-monkey.js:152-154 | with no project root, the path is matched unchanged unless it contains `null/` |
| Resolver.RootMappingRule | lib/php-namespace-monkey.js:152-157 | the manifest path `""` becomes the rule `/`, which no project-relative path starts with and every absolute path outside the project roots does |
| Resolver.FirstMatchIsLongest | lib/php-namespace-monkey.js:156-160 | on a sorted table the first match has the longest matching path, and no match means no rule's path starts the relative path |
| Resolver.MoreSpecificRuleWins | lib/php-namespace-monkey.js:156-158 | on the loaded table, when a shorter and a longer rule both match, the rule chosen is at least as long as the longer one |
| Resolver.ResolveFirstMatch | lib/php-namespace-monkey.js:154-168 | the namespace is the first matching rule's namespace followed by the directories after its path, with one trailing backslash trimmed |
| Resolver.SubDirectoriesOfName | lib/php-namespace-monkey.js:162-166 | a bare file name has no sub-namespace |
| Resolver.SubDirectoriesOfNested | lib/php-namespace-monkey.js:162-166 | the sub-namespace of `dir/name` is `dir` with every `/` turned into `\` |
| Resolver.ResolveDirectChild | lib/php-namespace-monkey.js:162-168 | a file directly under the matched directory gets the rule's namespace with one trailing backslash removed |
| Resolver.ResolveNested | lib/php-namespace-monkey.js:162-168 | a nested file gets the rule's namespace followed by its directories joined with `\`, with one trailing backslash trimmed |
| Resolver.DirectExample | lib/php-namespace-monkey.js:162-168 | with `src/` mapped to `App\`, the file `src/Foo.php` gets namespace `App` |
| Resolver.NestedExample | lib/php-namespace-monkey.js:162-168 | with `src/` mapped to `App\`, the file `src/Models/User.php` gets namespace `App\Models` |
| Resolver.ClassNameIsFileStem | lib/php-namespace-monkey.js:171-173 | the class name is the last segment of the path without its `.php` extension, when that is the first `.php` |
| Resolver.ClassNameExample | lib/php-namespace-monkey.js:171-173 | `<dir>/User.php` gets class name `User` |
| Boilerplate.Header | lib/php-namespace-monkey.js:72-80 | the header is empty exactly for an unknown style, and otherwise starts with `<?php` and ends with the `namespace` declaration |
| Boilerplate.BoilerplateText | lib/php-namespace-monkey.js:70-84 | nothing is written exactly when no namespace or an empty one was resolved, or when the style is unknown and the class definition is off |
| Boilerplate.HeaderIsLines | lib/php-namespace-monkey.js:74-80 | `same-line` writes one line, `next-line` writes the tag and the declaration on two lines, and `psr-2` puts exactly one blank line between them |
| Boilerplate.ClassDefinitionIsLines | lib/php-namespace-monkey.js:82-84 | the class definition is a blank line, `class C`, `{` and `}` |
| Boilerplate.BoilerplateLines | lib/php-namespace-monkey.js:70-84 | split at newlines, the written text is exactly the header lines, then the class lines when enabled, then the empty piece after the final newline |
| NamespaceMonkey.PhpNamespaceMonkey.constructor | lib/php-namespace-monkey.js:32-41 | activation subscribes to new buffers exactly when no manifest is `null`; the table is what the loader as written leaves, and, when the load completes, the loaded table for the given roots, sorted and well formed |
| NamespaceMonkey.PhpNamespaceMonkey.LoadNamespaces | lib/php-namespace-monkey.js:88-134 | the load throws exactly when some manifest is `null`, and the table is then the rules of the roots before the first such one, unsorted; otherwise it is the loaded table of the roots whatever it held before, so reloading is idempotent, sorted and well formed |
| NamespaceMonkey.PhpNamespaceMonkey.PushRoot | lib/php-namespace-monkey.js:91-131 | one root's callback throws exactly on a `null` manifest, and pushes exactly that root's rules after the existing ones |
| NamespaceMonkey.LoadThrowsAt | lib/php-namespace-monkey.js:91-104 | the first `null` manifest ends the load with the rules of the roots before it |
| NamespaceMonkey.LoadCompletes | lib/php-namespace-monkey.js:88-134 | without a `null` manifest the load completes with the loaded table, sorted and well formed |
| NamespaceMonkey.PhpNamespaceMonkey.PushSections | lib/php-namespace-monkey.js:106-130 | the loop over the section keys pushes their sections' rules in key order |
| NamespaceMonkey.PhpNamespaceMonkey.PushSection | lib/php-namespace-monkey.js:108-116 | a missing section pushes nothing, and a present one pushes its entries' rules |
| NamespaceMonkey.PhpNamespaceMonkey.PushEntries | lib/php-namespace-monkey.js:117-129 | the loop over the namespace keys pushes each entry's rules in order and skips empty keys |
| NamespaceMonkey.PhpNamespaceMonkey.PushPaths | lib/php-namespace-monkey.js:120-128 | the loop over the paths pushes one slash-terminated rule per path, in order |
| NamespaceMonkey.PhpNamespaceMonkey.AddBoilerplate | lib/php-namespace-monkey.js:59-85 | outside the guards the buffer is unchanged; past them the buffer holds exactly the boilerplate text for the resolved namespace and class name |

## Left out

- Atom host APIs are not modelled:
  - command registration;
  - the `onDidAddBuffer` and `onDidSave` subscriptions;
  - `CompositeDisposable` and `deactivate`.
  They only decide when the modelled operations run.
- Settings are passed in as parameters:
  - `atom.config.get` supplies the style and the class-definition flag;
  - `atom.project.getPaths` supplies the roots;
  - `atom.project.relativizePath` supplies the project path (`None` when it reports null).
- Filesystem access and JSON parsing (`fs.existsSync`, `fs.readFileSync`, `JSON.parse`) are I/O. Each root's manifest is given already classified:
  - no manifest;
  - unparseable;
  - the literal `null`;
  - a document with or without a truthy `autoload` object.
  Sections are given as entries in `Object.keys` order, which is JavaScript's key order, with integer-like keys first.
- The asynchronous `fs.stat` callback and `Date.now()` are parameters of `AddBoilerplate`: the file's change time (`None` when `stat` fails) and the current time. The model runs the callback at once on the buffer as it was when checked. Edits made to the buffer between the check and the callback are not modelled.
- Manifest values that are neither a string nor an array of strings are not modelled. A number or an object would make `path.endsWith` throw, and so would such a value inside an array.
- A section value that is a non-object truthy value, such as a string, has its characters' indices as keys. This is not modelled: a section is a map from namespace keys to entries.
- `resolveNamespace` assigns to an undeclared `path`, which is a global in sloppy mode. The model treats it as a local variable. Whether the transpiled module runs in strict mode, where the assignment would throw, is not modelled.
- `Array.prototype.sort` is modelled as stable, as ES2019 requires. Older engines need not keep equal-length rules in push order.
- The sort compares `path.length`, which counts UTF-16 code units. The model's `|path|` counts characters, so a path holding a character outside the Basic Multilingual Plane is shorter in the model than in JavaScript. Only the order of such rules in the table can differ. Resolution is unaffected, because matching compares the characters themselves.
- Only `/` separated paths are modelled. Windows separators reach the same code unchanged, and the model treats them as ordinary characters.

## Findings

| source | as written | input that shows it | evidently intended | confidence | as-written member | corrected member |
|---|---|---|---|---|---|---|
| lib/php-namespace-monkey.js:99-104 | `JSON.parse` of a manifest whose content is `null` succeeds, and the next line reads `null.autoload`, outside any `try`; the exception ends `loadNamespaces`, so later roots are never read and the table is left unsorted; during activation (line 39) it also skips the buffer subscription at line 41, so no boilerplate is ever written | two roots: the first manifest is `null`, the second maps `App\` to `src` | a manifest that does not hold an autoload object is skipped like an unparseable one, and the other roots still load | medium, not executed | Rules.NullDocumentAbortsLoad, Rules.NullDocumentStopsLoad, NamespaceMonkey.PhpNamespaceMonkey.LoadNamespaces | Rules.SilentRootIsSkipped, Rules.LoadedTableSpec |
