/**
 * The namespace table built from the projects' parsed `composer.json` files:
 * the rules each manifest contributes, in push order, and the table after
 * sorting by descending path length.
 */
module Rules {
  import opened Wrappers
  import opened JsStrings

  /** One row of the table: a directory prefix relative to a project root, and its namespace. */
  datatype Rule = Rule(path: string, namespace: string)

  /** The value under one namespace key: a single path, or an array of paths. */
  datatype PathSpec = OnePath(path: string) | PathArray(paths: seq<string>)

  /** One namespace key of a `psr-0` or `psr-4` section and its value. */
  datatype Entry = Entry(namespace: string, target: PathSpec)

  /**
   * The parsed `autoload` object: section key (`psr-0`, `psr-4`, and any key
   * the loader ignores) to that section's entries, in `Object.keys` order.
   * A section whose value is falsy is not in the map.
   */
  type Autoload = map<string, seq<Entry>>

  /** What reading and parsing a project root's `composer.json` gives. */
  datatype Manifest =
    | NoManifest                           // no composer.json under the root
    | Unparseable                          // reading or JSON.parse threw
    | NullDocument                         // the document is the JSON literal `null`
    | Document(autoload: Option<Autoload>)  // None when `autoload` is absent or falsy

  /** The two autoload dialects read, in the order they are read. */
  const AUTOLOAD_KEYS: seq<string> := ["psr-0", "psr-4"]

  /** Every rule path ends with `/`; every rule namespace is a non-empty key. */
  predicate WellFormed(r: Rule) {
    EndsWith(r.path, "/") && r.namespace != ""
  }

  /** Appends `/` to a path that does not already end with one. */
  function WithTrailingSlash(path: string): (r: string)
    ensures EndsWith(r, "/")
    ensures StartsWith(r, path) && |r| <= |path| + 1
    ensures EndsWith(path, "/") ==> r == path
  {
    if EndsWith(path, "/") then path else path + "/"
  }

  /** Adding the slash twice is adding it once. */
  lemma WithTrailingSlashIdempotent(path: string)
    ensures WithTrailingSlash(WithTrailingSlash(path)) == WithTrailingSlash(path)
  {
  }

  function PathList(target: PathSpec): seq<string> {
    match target
    case OnePath(p) => [p]
    case PathArray(ps) => ps
  }

  /**
   * The rules a `forEach` over `xs` pushes when the step for `x` pushes
   * `step(x)`: the steps' rules concatenated in order.
   */
  function FlatMap<T>(step: T -> seq<Rule>, xs: seq<T>): seq<Rule>
    decreases |xs|
  {
    if xs == [] then []
    else FlatMap(step, xs[..|xs| - 1]) + step(xs[|xs| - 1])
  }

  /** One more step of the `forEach` pushes that step's rules after the others. */
  lemma FlatMapStep<T>(step: T -> seq<Rule>, xs: seq<T>, k: nat)
    requires k < |xs|
    ensures FlatMap(step, xs[..k + 1]) == FlatMap(step, xs[..k]) + step(xs[k])
  {
    assert xs[..k + 1][..k] == xs[..k];
  }

  /** A `forEach` over one element pushes that element's rules. */
  lemma FlatMapSingle<T>(step: T -> seq<Rule>, x: T)
    ensures FlatMap(step, [x]) == step(x)
  {
    assert [x][..0] == [];
  }

  /** The rules pushed over `a + b` are those pushed over `a`, then those over `b`. */
  lemma {:induction false} FlatMapAppend<T>(step: T -> seq<Rule>, a: seq<T>, b: seq<T>)
    ensures FlatMap(step, a + b) == FlatMap(step, a) + FlatMap(step, b)
    decreases |b|
  {
    if b == [] {
      assert a + b == a;
    } else {
      var ab, init := a + b, b[..|b| - 1];
      assert ab[..|ab| - 1] == a + init;
      assert ab[|ab| - 1] == b[|b| - 1];
      FlatMapAppend(step, a, init);
    }
  }

  /** When every step pushes only well-formed rules, so does the whole `forEach`. */
  lemma {:induction false} FlatMapWellFormed<T>(step: T -> seq<Rule>, xs: seq<T>)
    requires forall i :: 0 <= i < |xs| ==> forall r :: r in step(xs[i]) ==> WellFormed(r)
    ensures forall r :: r in FlatMap(step, xs) ==> WellFormed(r)
    decreases |xs|
  {
    if xs != [] {
      FlatMapWellFormed(step, xs[..|xs| - 1]);
    }
  }

  /** The rule pushed for one path of a namespace key. */
  function PathRule(namespace: string): string -> seq<Rule> {
    (path: string) => [Rule(WithTrailingSlash(path), namespace)]
  }

  /** The rules pushed for one namespace key, one per path, in order. */
  function PathRules(namespace: string, paths: seq<string>): seq<Rule> {
    FlatMap(PathRule(namespace), paths)
  }

  /** Each path gives exactly one rule, in the same position, carrying the key. */
  lemma {:induction false} PathRulesSpec(namespace: string, paths: seq<string>)
    ensures |PathRules(namespace, paths)| == |paths|
    ensures forall i :: 0 <= i < |paths| ==>
              PathRules(namespace, paths)[i] == Rule(WithTrailingSlash(paths[i]), namespace)
    decreases |paths|
  {
    if paths != [] {
      PathRulesSpec(namespace, paths[..|paths| - 1]);
    }
  }

  /** The rules pushed for one entry: none for an empty key. */
  function EntryRules(e: Entry): seq<Rule> {
    if e.namespace == "" then [] else PathRules(e.namespace, PathList(e.target))
  }

  /**
   * An empty key contributes nothing; a single path exactly one rule; an array
   * one rule per element, in order; every rule carries the key and ends with `/`.
   */
  lemma EntryRulesSpec(e: Entry)
    ensures e.namespace == "" ==> EntryRules(e) == []
    ensures e.namespace != "" && e.target.OnePath? ==>
              EntryRules(e) == [Rule(WithTrailingSlash(e.target.path), e.namespace)]
    ensures e.namespace != "" && e.target.PathArray? ==>
              |EntryRules(e)| == |e.target.paths| &&
              forall i :: 0 <= i < |e.target.paths| ==>
                EntryRules(e)[i] == Rule(WithTrailingSlash(e.target.paths[i]), e.namespace)
    ensures forall r :: r in EntryRules(e) ==> WellFormed(r) && r.namespace == e.namespace
  {
    PathRulesSpec(e.namespace, PathList(e.target));
  }

  function EntriesRules(entries: seq<Entry>): seq<Rule> {
    FlatMap(EntryRules, entries)
  }

  /** The rules of one section (`autoload[key]`); a missing or falsy section gives none. */
  function SectionRules(autoload: Autoload): string -> seq<Rule> {
    (key: string) => if key in autoload then EntriesRules(autoload[key]) else []
  }

  /** The rules one project root contributes: its `psr-0` rules, then its `psr-4` rules. */
  function RootRules(m: Manifest): seq<Rule> {
    if m.Document? && m.autoload.Some? then FlatMap(SectionRules(m.autoload.value), AUTOLOAD_KEYS) else []
  }

  /** Every rule pushed, root by root, before sorting. */
  function Collect(roots: seq<Manifest>): seq<Rule> {
    FlatMap(RootRules, roots)
  }

  /** Every collected rule has a path ending with `/` and a non-empty namespace. */
  lemma CollectWellFormed(roots: seq<Manifest>)
    ensures forall r :: r in Collect(roots) ==> WellFormed(r)
  {
    forall e: Entry ensures forall r :: r in EntryRules(e) ==> WellFormed(r) {
      EntryRulesSpec(e);
    }
    forall m: Manifest | m.Document? && m.autoload.Some?
      ensures forall r :: r in RootRules(m) ==> WellFormed(r)
    {
      var autoload := m.autoload.value;
      forall key: string ensures forall r :: r in SectionRules(autoload)(key) ==> WellFormed(r) {
        if key in autoload {
          FlatMapWellFormed(EntryRules, autoload[key]);
        }
      }
      FlatMapWellFormed(SectionRules(autoload), AUTOLOAD_KEYS);
    }
    FlatMapWellFormed(RootRules, roots);
  }

  /** Roots contribute independently: the rules of `a + b` are those of `a` followed by those of `b`. */
  lemma CollectAppend(a: seq<Manifest>, b: seq<Manifest>)
    ensures Collect(a + b) == Collect(a) + Collect(b)
  {
    FlatMapAppend(RootRules, a, b);
  }

  /** A root with no manifest, an unreadable one, or no autoload section adds no rule. */
  predicate Silent(m: Manifest) {
    !m.Document? || m.autoload.None?
  }

  /** A silent root neither adds rules nor stops the roots after it from being read. */
  lemma SilentRootIsSkipped(a: seq<Manifest>, m: Manifest, b: seq<Manifest>)
    requires Silent(m)
    ensures Collect(a + [m] + b) == Collect(a + b)
    ensures LoadedTable(a + [m] + b) == LoadedTable(a + b)
  {
    FlatMapSingle(RootRules, m);
    CollectAppend(a, [m]);
    var left := Collect(a + [m]);
    assert left == Collect(a);
    CollectAppend(a + [m], b);
    CollectAppend(a, b);
  }

  // ---------------------------------------------------------------------------
  // Sorting: `namespaces.sort((a, b) => b.path.length - a.path.length)`, which
  // is stable, so rules of equal path length keep their push order.

  /** Non-increasing path length along the table. */
  predicate SortedByPathLength(s: seq<Rule>) {
    forall i, j :: 0 <= i < j < |s| ==> |s[i].path| >= |s[j].path|
  }

  /** Places `x` after every rule whose path is at least as long. */
  function Insert(s: seq<Rule>, x: Rule): seq<Rule>
    decreases |s|
  {
    if s == [] then [x]
    else if |x.path| > |s[0].path| then [x] + s
    else [s[0]] + Insert(s[1..], x)
  }

  function SortByPathLength(s: seq<Rule>): seq<Rule>
    decreases |s|
  {
    if s == [] then []
    else Insert(SortByPathLength(s[..|s| - 1]), s[|s| - 1])
  }

  /** The rules of `s` whose path has length `n`, in their order in `s`. */
  function WithLength(s: seq<Rule>, n: nat): seq<Rule>
    decreases |s|
  {
    if s == [] then []
    else (if |s[0].path| == n then [s[0]] else []) + WithLength(s[1..], n)
  }

  lemma {:induction false} WithLengthAppend(a: seq<Rule>, b: seq<Rule>, n: nat)
    ensures WithLength(a + b, n) == WithLength(a, n) + WithLength(b, n)
    decreases |a|
  {
    if a == [] {
      assert a + b == b;
    } else {
      var head := if |a[0].path| == n then [a[0]] else [];
      assert (a + b)[0] == a[0];
      assert (a + b)[1..] == a[1..] + b;
      WithLengthAppend(a[1..], b, n);
      assert WithLength(a + b, n) == head + (WithLength(a[1..], n) + WithLength(b, n));
      assert head + (WithLength(a[1..], n) + WithLength(b, n)) == (head + WithLength(a[1..], n)) + WithLength(b, n);
    }
  }

  lemma {:induction false} WithLengthNone(s: seq<Rule>, n: nat)
    requires forall i :: 0 <= i < |s| ==> |s[i].path| < n
    ensures WithLength(s, n) == []
    decreases |s|
  {
    if s != [] {
      WithLengthNone(s[1..], n);
    }
  }

  lemma {:induction false} InsertPermutes(s: seq<Rule>, x: Rule)
    ensures multiset(Insert(s, x)) == multiset(s) + multiset{x}
    decreases |s|
  {
    if s != [] && |x.path| <= |s[0].path| {
      InsertPermutes(s[1..], x);
      assert s == [s[0]] + s[1..];
    }
  }

  lemma {:induction false} InsertSorted(s: seq<Rule>, x: Rule)
    requires SortedByPathLength(s)
    ensures SortedByPathLength(Insert(s, x))
    decreases |s|
  {
    if s != [] && |x.path| <= |s[0].path| {
      InsertSorted(s[1..], x);
      InsertPermutes(s[1..], x);
      var t := Insert(s[1..], x);
      forall j | 0 <= j < |t| ensures |t[j].path| <= |s[0].path| {
        assert t[j] in multiset(t);
        assert t[j] == x || t[j] in multiset(s[1..]);
      }
      assert Insert(s, x) == [s[0]] + t;
    }
  }

  lemma {:induction false} InsertStable(s: seq<Rule>, x: Rule, n: nat)
    requires SortedByPathLength(s)
    ensures WithLength(Insert(s, x), n) == WithLength(s, n) + (if |x.path| == n then [x] else [])
    decreases |s|
  {
    if s == [] {
    } else if |x.path| > |s[0].path| {
      assert ([x] + s)[1..] == s;
      if |x.path| == n {
        WithLengthNone(s, n);
      }
    } else {
      InsertStable(s[1..], x, n);
      var t := Insert(s[1..], x);
      assert ([s[0]] + t)[1..] == t;
    }
  }

  /**
   * Sorting orders the table by non-increasing path length, keeps exactly the
   * same rules, and keeps the push order among rules of equal path length.
   */
  lemma {:induction false} SortSpec(s: seq<Rule>)
    ensures SortedByPathLength(SortByPathLength(s))
    ensures multiset(SortByPathLength(s)) == multiset(s)
    ensures forall n: nat :: WithLength(SortByPathLength(s), n) == WithLength(s, n)
    decreases |s|
  {
    if s != [] {
      var init, last := s[..|s| - 1], s[|s| - 1];
      SortSpec(init);
      InsertPermutes(SortByPathLength(init), last);
      InsertSorted(SortByPathLength(init), last);
      assert s == init + [last];
      forall n: nat ensures WithLength(SortByPathLength(s), n) == WithLength(s, n) {
        InsertStable(SortByPathLength(init), last, n);
        WithLengthAppend(init, [last], n);
      }
    }
  }

  /** The table after a load: every rule pushed, sorted by descending path length. */
  function LoadedTable(roots: seq<Manifest>): seq<Rule> {
    SortByPathLength(Collect(roots))
  }

  /**
   * The loaded table is sorted longest path first, is a permutation of the
   * rules pushed that keeps their order among equal lengths, and holds only
   * well-formed rules.
   */
  lemma LoadedTableSpec(roots: seq<Manifest>)
    ensures SortedByPathLength(LoadedTable(roots))
    ensures multiset(LoadedTable(roots)) == multiset(Collect(roots))
    ensures forall n: nat :: WithLength(LoadedTable(roots), n) == WithLength(Collect(roots), n)
    ensures forall r :: r in LoadedTable(roots) ==> WellFormed(r)
  {
    SortSpec(Collect(roots));
    CollectWellFormed(roots);
    forall r | r in LoadedTable(roots) ensures WellFormed(r) {
      assert r in multiset(LoadedTable(roots));
    }
  }

  // ---------------------------------------------------------------------------
  // The loader as written: a document that is the JSON literal `null` passes
  // the try/catch around JSON.parse, and reading `.autoload` of it throws.
  // The exception leaves the rules pushed so far, unsorted, and reads no
  // further root.

  datatype LoadOutcome = Completed(table: seq<Rule>) | Threw(partial: seq<Rule>)

  /** The pushes as written, root by root, stopping at the first null document. */
  function CollectAsWritten(roots: seq<Manifest>): LoadOutcome
    decreases |roots|
  {
    if roots == [] then Completed([])
    else if roots[0].NullDocument? then Threw([])
    else
      match CollectAsWritten(roots[1..])
      case Completed(t) => Completed(RootRules(roots[0]) + t)
      case Threw(t) => Threw(RootRules(roots[0]) + t)
  }

  function LoadAsWritten(roots: seq<Manifest>): LoadOutcome {
    match CollectAsWritten(roots)
    case Completed(t) => Completed(SortByPathLength(t))
    case Threw(t) => Threw(t)
  }

  /** Without a null document, the code as written loads exactly the modelled table. */
  lemma {:induction false} AsWrittenWithoutNullDocument(roots: seq<Manifest>)
    requires forall i :: 0 <= i < |roots| ==> !roots[i].NullDocument?
    ensures CollectAsWritten(roots) == Completed(Collect(roots))
    ensures LoadAsWritten(roots) == Completed(LoadedTable(roots))
    decreases |roots|
  {
    if roots != [] {
      var head, tail := roots[0], roots[1..];
      AsWrittenWithoutNullDocument(tail);
      CollectAppend([head], tail);
      assert [head] + tail == roots;
      FlatMapSingle(RootRules, head);
      assert CollectAsWritten(roots) == Completed(RootRules(head) + Collect(tail));
    }
  }

  /**
   * As written, the first `null` manifest ends the load: the outcome is a
   * throw carrying exactly the rules of the roots before it, unsorted, and
   * nothing from the roots after it.
   */
  lemma {:induction false} NullDocumentStopsLoad(a: seq<Manifest>, b: seq<Manifest>)
    requires forall i :: 0 <= i < |a| ==> !a[i].NullDocument?
    ensures CollectAsWritten(a + [NullDocument] + b) == Threw(Collect(a))
    ensures LoadAsWritten(a + [NullDocument] + b) == Threw(Collect(a))
    decreases |a|
  {
    var roots := a + [NullDocument] + b;
    if a == [] {
      assert roots[0] == NullDocument;
    } else {
      assert roots[0] == a[0];
      assert roots[1..] == a[1..] + [NullDocument] + b;
      NullDocumentStopsLoad(a[1..], b);
      CollectAppend([a[0]], a[1..]);
      FlatMapSingle(RootRules, a[0]);
      assert [a[0]] + a[1..] == a;
    }
  }

  /** A `null` manifest in the first root loses the rules of the second. */
  lemma NullDocumentAbortsLoad()
    ensures var roots := [NullDocument, Document(Some(map["psr-4" := [Entry("App\\", OnePath("src"))]]))];
            LoadAsWritten(roots) == Threw([]) &&
            LoadedTable(roots) == [Rule("src/", "App\\")]
  {
    var m := Document(Some(map["psr-4" := [Entry("App\\", OnePath("src"))]]));
    var e := Entry("App\\", OnePath("src"));
    assert WithTrailingSlash("src") == "src/";
    assert PathRules("App\\", ["src"]) == [Rule("src/", "App\\")];
    assert EntriesRules([e]) == [Rule("src/", "App\\")];
    var autoload := m.autoload.value;
    assert SectionRules(autoload)("psr-0") == [];
    assert SectionRules(autoload)("psr-4") == [Rule("src/", "App\\")];
    FlatMapStep(SectionRules(autoload), AUTOLOAD_KEYS, 0);
    FlatMapStep(SectionRules(autoload), AUTOLOAD_KEYS, 1);
    assert AUTOLOAD_KEYS[..2] == AUTOLOAD_KEYS;
    assert RootRules(m) == [Rule("src/", "App\\")];
    SilentRootIsSkipped([], NullDocument, [m]);
    assert [NullDocument, m] == [] + [NullDocument] + [m];
    FlatMapSingle(RootRules, m);
  }
}
