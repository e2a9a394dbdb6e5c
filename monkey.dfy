/**
 * The plugin object: its namespace table, reloaded from the projects'
 * manifests, and the boilerplate it appends to a new, empty PHP class file.
 */
module NamespaceMonkey {
  import opened Wrappers
  import opened Rules
  import opened Resolver
  import opened Boilerplate

  /** An editor buffer: its text, and the path of the file behind it when there is one. */
  class TextBuffer {
    var text: string
    var file: Option<string>

    constructor (file: Option<string>, text: string)
      ensures this.file == file && this.text == text
    {
      this.file := file;
      this.text := text;
    }

    predicate IsEmpty()
      reads this
    {
      text == ""
    }

    /** Adds `s` at the end of the text. */
    method Append(s: string)
      modifies this
      ensures text == old(text) + s && file == old(file)
    {
      text := text + s;
    }
  }

  /**
   * Whether the boilerplate step goes past its guards: the buffer has a file
   * that is a PHP class file, the buffer is empty, `fs.stat` succeeded
   * (`ctime` is the file's change time in milliseconds) and the file changed
   * at most one second before `now`.
   */
  predicate WritesBoilerplate(file: Option<string>, text: string, ctime: Option<int>, now: int) {
    file.Some? && IsPhpClassFile(file.value) && text == "" && ctime.Some? && now - ctime.value <= 1000
  }

  lemma AppendAssociates(a: seq<Rule>, b: seq<Rule>, c: seq<Rule>)
    ensures a + (b + c) == (a + b) + c
  {
  }

  /** Whether some root's manifest is the JSON literal `null`. */
  predicate HasNullDocument(roots: seq<Manifest>) {
    exists i :: 0 <= i < |roots| && roots[i].NullDocument?
  }

  /** The first null document among the roots ends the load with the rules of the roots before it. */
  lemma LoadThrowsAt(roots: seq<Manifest>, i: nat)
    requires i < |roots| && roots[i].NullDocument?
    requires forall j :: 0 <= j < i ==> !roots[j].NullDocument?
    ensures HasNullDocument(roots)
    ensures LoadAsWritten(roots) == Threw(Collect(roots[..i]))
  {
    assert roots == roots[..i] + [NullDocument] + roots[i + 1..];
    NullDocumentStopsLoad(roots[..i], roots[i + 1..]);
  }

  /** Without a null document the load completes with the sorted, well-formed table. */
  lemma LoadCompletes(roots: seq<Manifest>)
    requires forall j :: 0 <= j < |roots| ==> !roots[j].NullDocument?
    ensures !HasNullDocument(roots)
    ensures LoadAsWritten(roots) == Completed(LoadedTable(roots))
    ensures SortedByPathLength(LoadedTable(roots)) && forall r :: r in LoadedTable(roots) ==> WellFormed(r)
  {
    AsWrittenWithoutNullDocument(roots);
    LoadedTableSpec(roots);
  }

  class PhpNamespaceMonkey {
    /** Prefix rules, longest path first once a load completes. */
    var namespaces: seq<Rule>
    /** Whether activation got as far as subscribing to new buffers. */
    var listening: bool

    /** The table is sorted longest path first and holds only well-formed rules. */
    ghost predicate Valid()
      reads this
    {
      SortedByPathLength(namespaces) && forall r :: r in namespaces ==> WellFormed(r)
    }

    /**
     * Activation loads the table from the roots open at that time, then
     * subscribes to new buffers; a load that throws ends activation before
     * the subscription.
     */
    constructor (roots: seq<Manifest>)
      ensures listening <==> !HasNullDocument(roots)
      ensures LoadAsWritten(roots) == if listening then Completed(namespaces) else Threw(namespaces)
      ensures listening ==> namespaces == LoadedTable(roots) && Valid()
    {
      namespaces := [];
      listening := false;
      new;
      var threw := LoadNamespaces(roots);
      listening := !threw;
    }

    /**
     * Rebuilds the table: clears it, pushes every rule of every root in
     * order, then sorts it by descending path length. A root whose manifest
     * is `null` throws: the load stops there and the rules pushed so far stay
     * in the table, unsorted.
     */
    method LoadNamespaces(roots: seq<Manifest>) returns (threw: bool)
      modifies this
      ensures threw <==> HasNullDocument(roots)
      ensures LoadAsWritten(roots) == if threw then Threw(namespaces) else Completed(namespaces)
      ensures !threw ==> namespaces == LoadedTable(roots) && Valid()
      ensures listening == old(listening)
    {
      namespaces := [];
      threw := false;
      var i := 0;
      while i < |roots| && !threw
        invariant 0 <= i <= |roots|
        invariant forall j :: 0 <= j < i ==> !roots[j].NullDocument?
        invariant !threw ==> namespaces == Collect(roots[..i])
        invariant threw ==> i < |roots| && roots[i].NullDocument? && namespaces == Collect(roots[..i])
        invariant listening == old(listening)
        decreases |roots| - i, if threw then 0 else 1
      {
        FlatMapStep(RootRules, roots, i);
        threw := PushRoot(roots[i]);
        if !threw {
          i := i + 1;
        }
      }
      if threw {
        LoadThrowsAt(roots, i);
      } else {
        assert roots[..i] == roots;
        LoadCompletes(roots);
        namespaces := SortByPathLength(namespaces);
      }
    }

    /**
     * The work for one project root: a missing, unreadable or autoload-less
     * manifest pushes nothing; reading `autoload` of a `null` one throws.
     */
    method PushRoot(m: Manifest) returns (threw: bool)
      modifies this
      ensures threw <==> m.NullDocument?
      ensures namespaces == old(namespaces) + RootRules(m)
      ensures listening == old(listening)
    {
      threw := m.NullDocument?;
      if !m.Document? || m.autoload.None? {
        return;
      }
      PushSections(m.autoload.value, AUTOLOAD_KEYS);
    }

    /** The sections read from one `autoload` object, key by key. */
    method PushSections(autoload: Autoload, keys: seq<string>)
      modifies this
      ensures namespaces == old(namespaces) + FlatMap(SectionRules(autoload), keys)
      ensures listening == old(listening)
    {
      var j := 0;
      while j < |keys|
        invariant 0 <= j <= |keys|
        invariant namespaces == old(namespaces) + FlatMap(SectionRules(autoload), keys[..j])
        invariant listening == old(listening)
      {
        FlatMapStep(SectionRules(autoload), keys, j);
        AppendAssociates(old(namespaces), FlatMap(SectionRules(autoload), keys[..j]), SectionRules(autoload)(keys[j]));
        PushSection(autoload, keys[j]);
        j := j + 1;
      }
      assert keys[..j] == keys;
    }

    /** The work for one section key: `autoload[key]`, when present, entry by entry. */
    method PushSection(autoload: Autoload, key: string)
      modifies this
      ensures namespaces == old(namespaces) + SectionRules(autoload)(key)
      ensures listening == old(listening)
    {
      if key in autoload {
        PushEntries(autoload[key]);
      }
    }

    /** The work for one section: each namespace key in turn. */
    method PushEntries(entries: seq<Entry>)
      modifies this
      ensures namespaces == old(namespaces) + EntriesRules(entries)
      ensures listening == old(listening)
    {
      var k := 0;
      while k < |entries|
        invariant 0 <= k <= |entries|
        invariant namespaces == old(namespaces) + EntriesRules(entries[..k])
        invariant listening == old(listening)
      {
        FlatMapStep(EntryRules, entries, k);
        AppendAssociates(old(namespaces), EntriesRules(entries[..k]), EntryRules(entries[k]));
        var e := entries[k];
        if e.namespace != "" {
          PushPaths(e.namespace, PathList(e.target));
        }
        k := k + 1;
      }
      assert entries[..k] == entries;
    }

    /** The work for one namespace key: one rule per path, with the trailing `/` added. */
    method PushPaths(namespace: string, paths: seq<string>)
      modifies this
      ensures namespaces == old(namespaces) + PathRules(namespace, paths)
      ensures listening == old(listening)
    {
      var l := 0;
      while l < |paths|
        invariant 0 <= l <= |paths|
        invariant namespaces == old(namespaces) + PathRules(namespace, paths[..l])
        invariant listening == old(listening)
      {
        FlatMapStep(PathRule(namespace), paths, l);
        AppendAssociates(old(namespaces), PathRules(namespace, paths[..l]), PathRule(namespace)(paths[l]));
        namespaces := namespaces + [Rule(WithTrailingSlash(paths[l]), namespace)];
        l := l + 1;
      }
      assert paths[..l] == paths;
    }

    /**
     * Fills a new PHP class file: past the guards, resolves the namespace and
     * class name from the file path, and appends the header in `style` and,
     * when `includeClassDefinition` is set, an empty class definition.
     * `projectPath` is the project root `relativizePath` reports for the file.
     */
    method AddBoilerplate(buffer: TextBuffer, projectPath: Option<string>, ctime: Option<int>, now: int,
                          style: string, includeClassDefinition: bool)
      modifies buffer
      ensures buffer.file == old(buffer.file)
      ensures !WritesBoilerplate(old(buffer.file), old(buffer.text), ctime, now) ==> buffer.text == old(buffer.text)
      ensures WritesBoilerplate(old(buffer.file), old(buffer.text), ctime, now) ==>
                buffer.text == BoilerplateText(ResolveNamespace(namespaces, projectPath, buffer.file.value),
                                               ResolveClassName(buffer.file.value), style, includeClassDefinition)
    {
      if buffer.file.None? || !IsPhpClassFile(buffer.file.value) || !buffer.IsEmpty() {
        return;
      }
      if ctime.None? {
        return;
      }
      if now - ctime.value > 1000 {
        return;
      }
      var path := buffer.file.value;
      var namespace := ResolveNamespace(namespaces, projectPath, path);
      var className := ResolveClassName(path);
      if namespace.None? || namespace.value == "" {
        return;
      }
      if style == SAME_LINE {
        buffer.Append("<?php namespace " + namespace.value + ";\n");
      } else if style == NEXT_LINE {
        buffer.Append("<?php\nnamespace " + namespace.value + ";\n");
      } else if style == PSR_2 {
        buffer.Append("<?php\n\nnamespace " + namespace.value + ";\n");
      }
      assert buffer.text == Header(namespace.value, style);
      if includeClassDefinition {
        buffer.Append("\nclass " + className + "\n{\n}\n");
        assert buffer.text == Header(namespace.value, style) + ClassDefinition(className);
      }
    }
  }
}
