/**
 * Resolving a new file's namespace and class name from its path and the
 * loaded table: `isPhpClassFile`, `resolveNamespace`, `resolveClassName`.
 */
module Resolver {
  import opened Wrappers
  import opened JsStrings
  import opened Rules

  /** A file name is a class file when its last segment is non-empty and the path ends with `.php`. */
  predicate IsPhpClassFile(path: string) {
    |LastSegment(path)| > 0 && EndsWith(path, ".php")
  }

  /** The non-empty-file-name test never decides: a path ending with `.php` has a non-empty last segment. */
  lemma IsPhpClassFileIff(path: string)
    ensures IsPhpClassFile(path) <==> EndsWith(path, ".php")
  {
    LastSegmentSpec(path);
    if EndsWith(path, ".php") {
      assert path[|path| - 1] == ".php"[3];
    }
  }

  /** `namespaces.find(n => path.startsWith(n.path))`, as the index of the rule found. */
  function FindRule(table: seq<Rule>, path: string): (k: Option<nat>)
    ensures k.Some? ==> k.value < |table| && StartsWith(path, table[k.value].path)
    ensures k.Some? ==> forall j :: 0 <= j < k.value ==> !StartsWith(path, table[j].path)
    ensures k.None? <==> forall j :: 0 <= j < |table| ==> !StartsWith(path, table[j].path)
    decreases |table|
  {
    if table == [] then None
    else if StartsWith(path, table[0].path) then Some(0)
    else
      match FindRule(table[1..], path)
      case None => None
      case Some(i) => Some(i + 1)
  }

  /**
   * `projectPath + '/'` for the project path that `relativizePath` reports:
   * JavaScript turns a missing (null) project path into the text `null`.
   */
  function ProjectPrefix(projectPath: Option<string>): string {
    match projectPath
    case None => "null/"
    case Some(p) => p + "/"
  }

  /** `path.replace(projectPath + '/', '')` */
  function RelativePath(projectPath: Option<string>, filePath: string): string {
    RemoveFirst(filePath, ProjectPrefix(projectPath))
  }

  /**
   * `rest.replace('.php', '').split('/').slice(0, -1).join('\\')`: the
   * directories before the file name, joined with backslashes.
   */
  function SubDirectories(rest: string): string {
    var parts := Split(RemoveFirst(rest, ".php"), '/');
    Join(parts[..|parts| - 1], "\\")
  }

  /** The sub-namespace below the matched prefix: `path.replace(prefix, '')`, then its directories. */
  function SubNamespace(path: string, prefix: string): string {
    SubDirectories(RemoveFirst(path, prefix))
  }

  /** `s.replace(/\\$/, '')`: drops one trailing backslash. */
  function TrimTrailingBackslash(s: string): string {
    if |s| > 0 && s[|s| - 1] == '\\' then s[..|s| - 1] else s
  }

  /**
   * `resolveNamespace`: the namespace of the first rule whose path starts the
   * project-relative path, followed by the intermediate directories; nothing
   * for an empty file path.
   */
  function ResolveNamespace(table: seq<Rule>, projectPath: Option<string>, filePath: string): (ns: Option<string>)
    ensures ns.None? <==>
              filePath == "" ||
              forall j :: 0 <= j < |table| ==> !StartsWith(RelativePath(projectPath, filePath), table[j].path)
  {
    if filePath == "" then None else
    var path := RelativePath(projectPath, filePath);
    match FindRule(table, path)
    case None => None
    case Some(k) => Some(TrimTrailingBackslash(table[k].namespace + SubNamespace(path, table[k].path)))
  }

  /** `resolveClassName`: the last segment of the path after removing the first `.php`. */
  function ResolveClassName(path: string): string {
    LastSegment(RemoveFirst(path, ".php"))
  }

  /** A file under its project root resolves on the part after `projectPath + "/"`. */
  lemma RelativePathUnderRoot(projectPath: string, rel: string)
    ensures RelativePath(Some(projectPath), projectPath + "/" + rel) == rel
  {
    RemoveFirstOfPrefix(projectPath + "/" + rel, projectPath + "/");
  }

  /**
   * The table is matched on the relative path alone: rules carry no project
   * root, so two projects with the same layout resolve a file identically.
   */
  lemma ResolutionIgnoresProjectRoot(table: seq<Rule>, root1: string, root2: string, rel: string)
    ensures ResolveNamespace(table, Some(root1), root1 + "/" + rel) ==
            ResolveNamespace(table, Some(root2), root2 + "/" + rel)
  {
    RelativePathUnderRoot(root1, rel);
    RelativePathUnderRoot(root2, rel);
  }

  /** A file outside every project root keeps its absolute path unless `null/` occurs in it. */
  lemma OutsideProjectKeepsPath(filePath: string)
    requires !Contains(filePath, "null/")
    ensures RelativePath(None, filePath) == filePath
  {
    IndexOfSpec(filePath, "null/");
  }

  /**
   * A manifest path `""` (a namespace mapped to the project root itself)
   * becomes the rule path `/`. No file inside a project starts its relative
   * path with `/`, while the absolute path of a file outside every project
   * root does.
   */
  lemma RootMappingRule(root: string, rel: string, outside: string)
    ensures WithTrailingSlash("") == "/"
    ensures !StartsWith(rel, "/") ==> !StartsWith(RelativePath(Some(root), root + "/" + rel), "/")
    ensures StartsWith(outside, "/") && !Contains(outside, "null/") ==>
              StartsWith(RelativePath(None, outside), "/")
  {
    RelativePathUnderRoot(root, rel);
    if !Contains(outside, "null/") {
      OutsideProjectKeepsPath(outside);
    }
  }

  /**
   * On a table sorted by descending path length the first matching rule has
   * the longest matching path; a rule of the same length has the same path.
   * No match means no rule's path starts the relative path.
   */
  lemma FirstMatchIsLongest(table: seq<Rule>, path: string)
    requires SortedByPathLength(table)
    ensures match FindRule(table, path)
            case None => forall r :: r in table ==> !StartsWith(path, r.path)
            case Some(k) => forall r :: r in table && StartsWith(path, r.path) ==>
                              |r.path| < |table[k].path| || r.path == table[k].path
  {
    match FindRule(table, path)
    case None =>
    case Some(k) =>
      forall r | r in table && StartsWith(path, r.path)
        ensures |r.path| < |table[k].path| || r.path == table[k].path
      {
        var j :| 0 <= j < |table| && table[j] == r;
        assert k <= j;
      }
  }

  /**
   * Longest-prefix resolution on the loaded table: when two rules both match
   * and one path strictly extends the other, the shorter one is never chosen.
   */
  lemma MoreSpecificRuleWins(roots: seq<Manifest>, path: string, shorter: Rule, longer: Rule)
    requires shorter in LoadedTable(roots) && longer in LoadedTable(roots)
    requires StartsWith(path, shorter.path) && StartsWith(path, longer.path)
    requires |shorter.path| < |longer.path|
    ensures FindRule(LoadedTable(roots), path).Some?
    ensures LoadedTable(roots)[FindRule(LoadedTable(roots), path).value].path != shorter.path
    ensures |LoadedTable(roots)[FindRule(LoadedTable(roots), path).value].path| >= |longer.path|
  {
    LoadedTableSpec(roots);
    FirstMatchIsLongest(LoadedTable(roots), path);
  }

  lemma FindRuleAt(table: seq<Rule>, path: string, k: nat)
    requires k < |table| && StartsWith(path, table[k].path)
    requires forall j :: 0 <= j < k ==> !StartsWith(path, table[j].path)
    ensures FindRule(table, path) == Some(k)
  {
  }

  /** Resolution of a file under its project root whose relative path first matches rule `k`. */
  lemma ResolveFirstMatch(table: seq<Rule>, projectPath: string, filePath: string, k: nat, rest: string)
    requires k < |table|
    requires filePath == projectPath + "/" + (table[k].path + rest)
    requires forall j :: 0 <= j < k ==> !StartsWith(table[k].path + rest, table[j].path)
    ensures ResolveNamespace(table, Some(projectPath), filePath) ==
            Some(TrimTrailingBackslash(table[k].namespace + SubDirectories(rest)))
  {
    var rel := table[k].path + rest;
    assert filePath != "" by {
      assert filePath[|projectPath|] == '/';
    }
    RelativePathUnderRoot(projectPath, rel);
    assert rel[..|table[k].path|] == table[k].path;
    FindRuleAt(table, rel, k);
    RemoveFirstOfPrefix(rel, table[k].path);
    assert rel[|table[k].path|..] == rest;
  }

  /** A file name alone has no directories. */
  lemma SubDirectoriesOfName(name: string)
    requires '/' !in name
    ensures SubDirectories(name) == ""
  {
    RemoveFirstKeepsOut(name, ".php", '/');
    SplitWithout(RemoveFirst(name, ".php"), '/');
  }

  /** The directories before a file name, with `/` turned into `\`, when `.php` does not occur in them. */
  lemma SubDirectoriesOfNested(dir: string, name: string)
    requires '/' !in name
    requires !Contains(dir, ".php")
    ensures SubDirectories(dir + "/" + name) == ReplaceAll(dir, '/', '\\')
  {
    RemoveFirstAfterSlash(dir, name, ".php");
    var stem := RemoveFirst(name, ".php");
    RemoveFirstKeepsOut(name, ".php", '/');
    SplitAppend(dir, stem, '/');
    SplitWithout(stem, '/');
    var parts := Split(dir + "/" + stem, '/');
    assert parts[..|parts| - 1] == Split(dir, '/');
    JoinSplitReplaces(dir, '/', '\\');
  }

  /**
   * A file directly under the matched directory (`src/Foo.php` under `src/`)
   * gets the rule's namespace with one trailing backslash removed.
   */
  lemma ResolveDirectChild(table: seq<Rule>, projectPath: string, filePath: string, k: nat, name: string)
    requires k < |table|
    requires filePath == projectPath + "/" + (table[k].path + name)
    requires forall j :: 0 <= j < k ==> !StartsWith(table[k].path + name, table[j].path)
    requires '/' !in name
    ensures ResolveNamespace(table, Some(projectPath), filePath) == Some(TrimTrailingBackslash(table[k].namespace))
  {
    ResolveFirstMatch(table, projectPath, filePath, k, name);
    SubDirectoriesOfName(name);
    assert table[k].namespace + "" == table[k].namespace;
  }

  /**
   * A file in nested directories (`src/Models/User.php` under `src/`) gets the
   * rule's namespace followed by the directories joined with backslashes,
   * when `.php` does not occur in those directories.
   */
  lemma ResolveNested(table: seq<Rule>, projectPath: string, filePath: string, k: nat, dir: string, name: string)
    requires k < |table|
    requires filePath == projectPath + "/" + (table[k].path + (dir + "/" + name))
    requires forall j :: 0 <= j < k ==> !StartsWith(table[k].path + (dir + "/" + name), table[j].path)
    requires '/' !in name
    requires !Contains(dir, ".php")
    ensures ResolveNamespace(table, Some(projectPath), filePath) ==
            Some(TrimTrailingBackslash(table[k].namespace + ReplaceAll(dir, '/', '\\')))
  {
    ResolveFirstMatch(table, projectPath, filePath, k, dir + "/" + name);
    SubDirectoriesOfNested(dir, name);
  }

  /** `.php` cannot occur in a text without a `.`. */
  lemma NoDotNoPhp(s: string)
    requires '.' !in s
    ensures !Contains(s, ".php")
  {
    forall j | 0 <= j <= |s| ensures !OccursAt(s, ".php", j) {
      if j + 4 <= |s| {
        assert s[j..j + 4][0] == s[j];
      }
    }
  }

  /** The class name is the file name without its `.php` extension, when that is the first `.php`. */
  lemma ClassNameIsFileStem(stem: string)
    requires !Contains(stem, ".php")
    ensures ResolveClassName(stem + ".php") == LastSegment(stem)
  {
    assert ".php"[0] !in ".php"[1..];
    RemoveFirstOfSuffix(stem, ".php");
  }

  /** The nested example: `src/` mapped to `App\`, file `src/Models/User.php` gives `App\Models`. */
  lemma NestedExample(table: seq<Rule>, root: string, filePath: string)
    requires table == [Rule("src/", "App\\")]
    requires filePath == root + "/src/Models/User.php"
    ensures ResolveNamespace(table, Some(root), filePath) == Some("App\\Models")
  {
    ModelsDirectory();
    NestedExamplePath(root);
    ResolveNested(table, root, filePath, 0, "Models", "User.php");
  }

  lemma NestedExamplePath(root: string)
    ensures root + "/src/Models/User.php" == root + "/" + ("src/" + ("Models" + "/" + "User.php"))
    ensures '/' !in "User.php"
  {
    assert "/src/Models/User.php" == "/" + ("src/" + ("Models" + "/" + "User.php"));
  }

  lemma ModelsDirectory()
    ensures !Contains("Models", ".php")
    ensures TrimTrailingBackslash("App\\" + ReplaceAll("Models", '/', '\\')) == "App\\Models"
  {
    NoDotNoPhp("Models");
    assert ReplaceAll("Models", '/', '\\') == "Models";
  }

  /** The direct example: `src/` mapped to `App\`, file `src/Foo.php` gives `App`. */
  lemma DirectExample(table: seq<Rule>, root: string, filePath: string)
    requires table == [Rule("src/", "App\\")]
    requires filePath == root + "/src/Foo.php"
    ensures ResolveNamespace(table, Some(root), filePath) == Some("App")
  {
    AppNamespace();
    ResolveDirectChild(table, root, filePath, 0, "Foo.php");
  }

  lemma AppNamespace()
    ensures TrimTrailingBackslash("App\\") == "App"
  {
  }

  /** The class name of `<dir>/User.php` is `User` when the directory has no `.` in it. */
  lemma ClassNameExample(dir: string)
    requires '.' !in dir
    ensures ResolveClassName(dir + "/User.php") == "User"
  {
    var stem := dir + "/" + "User";
    assert stem + ".php" == dir + "/User.php";
    assert '.' !in stem;
    NoDotNoPhp(stem);
    ClassNameIsFileStem(stem);
    LastSegmentAfterSlash(dir, "User");
  }
}
