// The text written into a new, empty PHP class file: a PHP open tag with the
// namespace declaration in one of three styles, then optionally an empty
// class body named after the file.

module Boilerplate {
  import opened Wrappers
  import opened JsStrings

  const SAME_LINE := "same-line"
  const NEXT_LINE := "next-line"
  const PSR_2 := "psr-2"

  /** The three values of the `namespaceStyle` setting that write a header. */
  predicate KnownStyle(style: string) {
    style == SAME_LINE || style == NEXT_LINE || style == PSR_2
  }

  /** The open tag and namespace declaration; an unknown style writes nothing. */
  function Header(namespace: string, style: string): (h: string)
    ensures h == "" <==> !KnownStyle(style)
    ensures KnownStyle(style) ==> StartsWith(h, "<?php") && EndsWith(h, namespace + ";\n")
  {
    if style == SAME_LINE then "<?php namespace " + namespace + ";\n"
    else if style == NEXT_LINE then "<?php\nnamespace " + namespace + ";\n"
    else if style == PSR_2 then "<?php\n\nnamespace " + namespace + ";\n"
    else ""
  }

  /** A blank line, then `class <name>` with an empty body on its own lines. */
  function ClassDefinition(className: string): string {
    "\nclass " + className + "\n{\n}\n"
  }

  /**
   * Everything appended to the buffer once the namespace and class name are
   * resolved: nothing when no namespace was found or it is empty, otherwise
   * the header followed by the class definition when that setting is on.
   */
  function BoilerplateText(namespace: Option<string>, className: string, style: string,
                           includeClassDefinition: bool): (text: string)
    ensures text == "" <==>
              namespace.None? || namespace.value == "" || (!KnownStyle(style) && !includeClassDefinition)
  {
    if namespace.None? || namespace.value == "" then ""
    else Header(namespace.value, style) + (if includeClassDefinition then ClassDefinition(className) else "")
  }

  // ---------------------------------------------------------------------------
  // An independent, line-by-line description of the same text.

  /** Each line followed by a newline. */
  function Unlines(lines: seq<string>): string
    decreases |lines|
  {
    if lines == [] then "" else lines[0] + "\n" + Unlines(lines[1..])
  }

  lemma {:induction false} UnlinesAppend(a: seq<string>, b: seq<string>)
    ensures Unlines(a + b) == Unlines(a) + Unlines(b)
    decreases |a|
  {
    if a == [] {
      assert a + b == b;
    } else {
      assert (a + b)[1..] == a[1..] + b;
      UnlinesAppend(a[1..], b);
    }
  }

  /** Splitting newline-terminated lines at `\n` gives the lines back, then an empty piece. */
  lemma {:induction false} SplitUnlines(lines: seq<string>)
    requires forall k :: 0 <= k < |lines| ==> '\n' !in lines[k]
    ensures Split(Unlines(lines), '\n') == lines + [""]
    decreases |lines|
  {
    if lines != [] {
      SplitUnlines(lines[1..]);
      SplitAtFirst(lines[0], Unlines(lines[1..]), '\n');
      assert lines[0] + "\n" + Unlines(lines[1..]) == lines[0] + ['\n'] + Unlines(lines[1..]);
      assert [lines[0]] + (lines[1..] + [""]) == lines + [""];
    }
  }

  /**
   * The header's lines: the tag and declaration share a line, follow each
   * other, or are separated by exactly one blank line (PSR-2).
   */
  function HeaderLines(namespace: string, style: string): seq<string> {
    if style == SAME_LINE then ["<?php namespace " + namespace + ";"]
    else if style == NEXT_LINE then ["<?php", "namespace " + namespace + ";"]
    else if style == PSR_2 then ["<?php", "", "namespace " + namespace + ";"]
    else []
  }

  function ClassLines(className: string): seq<string> {
    ["", "class " + className, "{", "}"]
  }

  lemma UnlinesCons(line: string, rest: seq<string>)
    ensures Unlines([line] + rest) == line + "\n" + Unlines(rest)
  {
    assert ([line] + rest)[1..] == rest;
  }

  lemma UnlinesSingle(line: string)
    ensures Unlines([line]) == line + "\n"
  {
    assert [line][1..] == [];
  }

  lemma SameLineIsLines(namespace: string)
    ensures Header(namespace, SAME_LINE) == Unlines(HeaderLines(namespace, SAME_LINE))
  {
    var decl := "namespace " + namespace + ";";
    var line := "<?php " + decl;
    UnlinesSingle(line);
    assert Header(namespace, SAME_LINE) == line + "\n";
  }

  lemma NextLineIsLines(namespace: string)
    ensures Header(namespace, NEXT_LINE) == Unlines(HeaderLines(namespace, NEXT_LINE))
  {
    var decl := "namespace " + namespace + ";";
    var declLine := Unlines([decl]);
    UnlinesSingle(decl);
    assert declLine == decl + "\n";
    UnlinesCons("<?php", [decl]);
    assert ["<?php"] + [decl] == HeaderLines(namespace, NEXT_LINE);
    assert Header(namespace, NEXT_LINE) == "<?php" + "\n" + declLine;
  }

  lemma Psr2IsLines(namespace: string)
    ensures Header(namespace, PSR_2) == Unlines(HeaderLines(namespace, PSR_2))
  {
    var decl := "namespace " + namespace + ";";
    var declLine := Unlines([decl]);
    UnlinesSingle(decl);
    assert declLine == decl + "\n";
    var blankThenDecl := Unlines(["", decl]);
    UnlinesCons("", [decl]);
    assert [""] + [decl] == ["", decl];
    assert blankThenDecl == "\n" + declLine;
    UnlinesCons("<?php", ["", decl]);
    assert ["<?php"] + ["", decl] == HeaderLines(namespace, PSR_2);
    assert Header(namespace, PSR_2) == "<?php" + "\n" + blankThenDecl;
  }

  lemma HeaderIsLines(namespace: string, style: string)
    ensures Header(namespace, style) == Unlines(HeaderLines(namespace, style))
  {
    if style == SAME_LINE {
      SameLineIsLines(namespace);
    } else if style == NEXT_LINE {
      NextLineIsLines(namespace);
    } else if style == PSR_2 {
      Psr2IsLines(namespace);
    }
  }

  lemma ClassDefinitionIsLines(className: string)
    ensures ClassDefinition(className) == Unlines(ClassLines(className))
  {
    var decl := "class " + className;
    UnlinesSingle("}");
    UnlinesCons("{", ["}"]);
    UnlinesCons(decl, ["{", "}"]);
    UnlinesCons("", [decl, "{", "}"]);
    assert ["{"] + ["}"] == ["{", "}"];
    assert [decl] + ["{", "}"] == [decl, "{", "}"];
    assert [""] + [decl, "{", "}"] == ClassLines(className);
  }

  /**
   * When a namespace was resolved and neither it nor the class name holds a
   * newline, the appended text splits into exactly the header lines, then
   * the class lines when requested, then the empty piece after the final
   * newline.
   */
  lemma BoilerplateLines(namespace: string, className: string, style: string, includeClassDefinition: bool)
    requires namespace != ""
    requires '\n' !in namespace && '\n' !in className
    ensures Split(BoilerplateText(Some(namespace), className, style, includeClassDefinition), '\n') ==
            HeaderLines(namespace, style) + (if includeClassDefinition then ClassLines(className) else []) + [""]
  {
    var head := HeaderLines(namespace, style);
    var body := if includeClassDefinition then ClassLines(className) else [];
    HeaderIsLines(namespace, style);
    ClassDefinitionIsLines(className);
    UnlinesAppend(head, body);
    assert Unlines(body) == (if includeClassDefinition then ClassDefinition(className) else "");
    forall k | 0 <= k < |head + body| ensures '\n' !in (head + body)[k] {
      var line := (head + body)[k];
      assert line == "<?php namespace " + namespace + ";" || line == "<?php" || line == ""
          || line == "namespace " + namespace + ";" || line == "class " + className
          || line == "{" || line == "}";
    }
    SplitUnlines(head + body);
  }
}
