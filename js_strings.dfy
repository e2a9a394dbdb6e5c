/**
 * The JavaScript string operations the resolver is built from, on `seq<char>`:
 * `startsWith`, `endsWith`, `indexOf`, `replace` with a string pattern (which
 * replaces the FIRST occurrence only), `split` on one character and `join`.
 */
module JsStrings {
  import opened Wrappers

  /** `s.startsWith(p)` */
  predicate StartsWith(s: string, p: string) {
    |p| <= |s| && s[..|p|] == p
  }

  /** `s.endsWith(p)` */
  predicate EndsWith(s: string, p: string) {
    |p| <= |s| && s[|s| - |p|..] == p
  }

  /** `p` occurs in `s` at index `i`. */
  predicate OccursAt(s: string, p: string, i: int) {
    0 <= i && i + |p| <= |s| && s[i..i + |p|] == p
  }

  /** `s.includes(p)` */
  predicate Contains(s: string, p: string) {
    exists i | 0 <= i <= |s| :: OccursAt(s, p, i)
  }

  /** `s.indexOf(p)`, with `None` for JavaScript's -1. */
  function IndexOf(s: string, p: string): (r: Option<nat>)
    ensures r.Some? ==> r.value + |p| <= |s|
    decreases |s|
  {
    if |s| < |p| then None
    else if s[..|p|] == p then Some(0)
    else
      match IndexOf(s[1..], p)
      case None => None
      case Some(i) => Some(i + 1)
  }

  lemma OccursAtTail(s: string, p: string, i: nat)
    requires |s| > 0
    ensures OccursAt(s, p, i + 1) <==> OccursAt(s[1..], p, i)
  {
    if i + 1 + |p| <= |s| {
      assert s[1..][i..i + |p|] == s[i + 1..i + 1 + |p|];
    }
  }

  /** `indexOf` finds the first occurrence, and finds none exactly when there is none. */
  lemma {:induction false} IndexOfSpec(s: string, p: string)
    ensures match IndexOf(s, p)
            case Some(i) => OccursAt(s, p, i) && forall j :: 0 <= j < i ==> !OccursAt(s, p, j)
            case None => forall j :: !OccursAt(s, p, j)
    decreases |s|
  {
    if |s| < |p| {
    } else if s[..|p|] == p {
      assert OccursAt(s, p, 0);
    } else {
      assert !OccursAt(s, p, 0);
      IndexOfSpec(s[1..], p);
      match IndexOf(s[1..], p)
      case None =>
        forall j | OccursAt(s, p, j) ensures false {
          OccursAtTail(s, p, j - 1);
        }
      case Some(i) =>
        OccursAtTail(s, p, i);
        forall j | 0 < j < i + 1 ensures !OccursAt(s, p, j) {
          OccursAtTail(s, p, j - 1);
        }
    }
  }

  /** `indexOf` is determined by the first occurrence. */
  lemma IndexOfFirst(s: string, p: string, i: nat)
    requires OccursAt(s, p, i)
    requires forall j :: 0 <= j < i ==> !OccursAt(s, p, j)
    ensures IndexOf(s, p) == Some(i)
  {
    IndexOfSpec(s, p);
  }

  /** `s.replace(p, '')` for a string pattern: removes the first occurrence of `p`, if any. */
  function RemoveFirst(s: string, p: string): string {
    match IndexOf(s, p)
    case None => s
    case Some(i) => s[..i] + s[i + |p|..]
  }

  /** When `s` starts with `p`, the first occurrence is the prefix itself. */
  lemma RemoveFirstOfPrefix(s: string, p: string)
    requires StartsWith(s, p)
    ensures RemoveFirst(s, p) == s[|p|..]
  {
    IndexOfFirst(s, p, 0);
  }

  /** Removing characters never introduces a character. */
  lemma RemoveFirstKeepsOut(s: string, p: string, c: char)
    requires c !in s
    ensures c !in RemoveFirst(s, p)
  {
    IndexOfSpec(s, p);
    match IndexOf(s, p)
    case None =>
    case Some(i) =>
      assert RemoveFirst(s, p) == s[..i] + s[i + |p|..];
      assert c !in s[..i] && c !in s[i + |p|..];
  }

  /** An occurrence of `p` in `a + "/" + b` that starts within `a` needs `p` in `a` or `/` in `p`. */
  lemma NoOccurrenceBeforeSlash(a: string, b: string, p: string, j: int)
    requires '/' !in p
    requires !Contains(a, p)
    requires 0 <= j <= |a|
    ensures !OccursAt(a + "/" + b, p, j)
  {
    var s := a + "/" + b;
    if j + |p| <= |a| {
      assert s[j..j + |p|] == a[j..j + |p|];
      assert !OccursAt(a, p, j);
    } else if j + |p| <= |s| {
      assert s[j..j + |p|][|a| - j] == '/';
    }
  }

  /** Occurrences in `b` are the occurrences in `a + "/" + b` shifted past the `/`. */
  lemma OccursAfterSlash(a: string, b: string, p: string, t: nat)
    ensures OccursAt(a + "/" + b, p, |a| + 1 + t) <==> OccursAt(b, p, t)
  {
    var s := a + "/" + b;
    if |a| + 1 + t + |p| <= |s| {
      assert s[|a| + 1 + t..|a| + 1 + t + |p|] == b[t..t + |p|];
    }
  }

  /** The first occurrence in `a + "/" + b` is the first occurrence in `b`, shifted. */
  lemma IndexOfAfterSlash(a: string, b: string, p: string)
    requires '/' !in p
    requires !Contains(a, p)
    ensures IndexOf(a + "/" + b, p) == match IndexOf(b, p)
                                       case None => None
                                       case Some(i) => Some(|a| + 1 + i)
  {
    var s := a + "/" + b;
    var off := |a| + 1;
    IndexOfSpec(b, p);
    match IndexOf(b, p)
    case None =>
      forall j | 0 <= j ensures !OccursAt(s, p, j) {
        if j < off {
          NoOccurrenceBeforeSlash(a, b, p, j);
        } else {
          OccursAfterSlash(a, b, p, j - off);
        }
      }
      IndexOfSpec(s, p);
    case Some(i) =>
      forall j | 0 <= j < off + i ensures !OccursAt(s, p, j) {
        if j < off {
          NoOccurrenceBeforeSlash(a, b, p, j);
        } else {
          OccursAfterSlash(a, b, p, j - off);
        }
      }
      OccursAfterSlash(a, b, p, i);
      IndexOfFirst(s, p, off + i);
  }

  /**
   * A pattern without a `/` cannot occur across a `/`: if it does not occur
   * in `a`, its first occurrence in `a + "/" + b` lies in `b`.
   */
  lemma RemoveFirstAfterSlash(a: string, b: string, p: string)
    requires '/' !in p
    requires !Contains(a, p)
    ensures RemoveFirst(a + "/" + b, p) == a + "/" + RemoveFirst(b, p)
  {
    var s := a + "/" + b;
    IndexOfAfterSlash(a, b, p);
    match IndexOf(b, p)
    case None =>
      assert IndexOf(s, p) == None;
    case Some(i) =>
      var at := |a| + 1 + i;
      assert IndexOf(s, p) == Some(at);
      assert RemoveFirst(s, p) == s[..at] + s[at + |p|..];
      assert RemoveFirst(b, p) == b[..i] + b[i + |p|..];
      assert s[..at] == a + "/" + b[..i];
      assert s[at + |p|..] == b[i + |p|..];
  }

  /**
   * When `p` does not occur in `stem` and cannot overlap itself (its first
   * character does not recur), the first occurrence in `stem + p` is the final one.
   */
  lemma RemoveFirstOfSuffix(stem: string, p: string)
    requires !Contains(stem, p)
    requires |p| > 0 && p[0] !in p[1..]
    ensures RemoveFirst(stem + p, p) == stem
  {
    var s := stem + p;
    assert s[|stem|..|stem| + |p|] == p;
    forall j | 0 <= j < |stem| ensures !OccursAt(s, p, j) {
      if j + |p| <= |stem| {
        assert s[j..j + |p|] == stem[j..j + |p|];
        assert !OccursAt(stem, p, j);
      } else {
        var t := |stem| - j;
        assert s[j..j + |p|][t] == p[0];
        assert p[t] == p[1..][t - 1];
      }
    }
    IndexOfFirst(s, p, |stem|);
    assert s[..|stem|] == stem;
  }

  /** `parts.join(sep)` */
  function Join(parts: seq<string>, sep: string): string
    decreases |parts|
  {
    if |parts| == 0 then ""
    else if |parts| == 1 then parts[0]
    else parts[0] + sep + Join(parts[1..], sep)
  }

  lemma JoinGrowsHead(x: string, rest: seq<string>, sep: string)
    requires |rest| >= 1
    ensures Join([x + rest[0]] + rest[1..], sep) == x + Join(rest, sep)
  {
    var parts := [x + rest[0]] + rest[1..];
    assert parts[1..] == rest[1..];
    if |rest| > 1 {
      assert Join(rest, sep) == rest[0] + sep + Join(rest[1..], sep);
    }
  }

  /**
   * `s.split(sep)` for a one-character separator: the pieces between the
   * separators, one more piece than there are separators.
   */
  function Split(s: string, sep: char): (parts: seq<string>)
    ensures |parts| >= 1
    ensures forall k :: 0 <= k < |parts| ==> sep !in parts[k]
    ensures Join(parts, [sep]) == s
    decreases |s|
  {
    if s == [] then [""]
    else
      var rest := Split(s[1..], sep);
      if s[0] == sep then
        assert ([""] + rest)[1..] == rest;
        [""] + rest
      else
        JoinGrowsHead([s[0]], rest, [sep]);
        [[s[0]] + rest[0]] + rest[1..]
  }

  lemma {:induction false} JoinAppend(a: seq<string>, b: seq<string>, sep: string)
    requires |a| >= 1 && |b| >= 1
    ensures Join(a + b, sep) == Join(a, sep) + sep + Join(b, sep)
    decreases |a|
  {
    if |a| == 1 {
      assert (a + b)[1..] == b;
    } else {
      assert (a + b)[1..] == a[1..] + b;
      JoinAppend(a[1..], b, sep);
    }
  }

  lemma {:induction false} SplitWithout(s: string, sep: char)
    requires sep !in s
    ensures Split(s, sep) == [s]
    decreases |s|
  {
    if s != [] {
      SplitWithout(s[1..], sep);
    }
  }

  lemma {:induction false} SplitAtFirst(a: string, b: string, sep: char)
    requires sep !in a
    ensures Split(a + [sep] + b, sep) == [a] + Split(b, sep)
    decreases |a|
  {
    var s := a + [sep] + b;
    if a == [] {
      assert s[1..] == b;
    } else {
      assert s[1..] == a[1..] + [sep] + b;
      SplitAtFirst(a[1..], b, sep);
      assert [s[0]] + a[1..] == a;
    }
  }

  /** `split` undoes `join` when no piece holds the separator. */
  lemma {:induction false} SplitJoin(parts: seq<string>, sep: char)
    requires |parts| >= 1
    requires forall k :: 0 <= k < |parts| ==> sep !in parts[k]
    ensures Split(Join(parts, [sep]), sep) == parts
    decreases |parts|
  {
    if |parts| == 1 {
      SplitWithout(parts[0], sep);
    } else {
      SplitJoin(parts[1..], sep);
      SplitAtFirst(parts[0], Join(parts[1..], [sep]), sep);
    }
  }

  /** Splitting at a separator splits the two sides independently. */
  lemma SplitAppend(a: string, b: string, sep: char)
    ensures Split(a + [sep] + b, sep) == Split(a, sep) + Split(b, sep)
  {
    var pa, pb := Split(a, sep), Split(b, sep);
    JoinAppend(pa, pb, [sep]);
    SplitJoin(pa + pb, sep);
  }

  /** `s.split('/').slice(-1)[0]`: the text after the last `/`. */
  function LastSegment(s: string): string {
    var parts := Split(s, '/');
    parts[|parts| - 1]
  }

  /** The last segment holds no `/`, ends `s`, and is all of `s` or follows a `/`. */
  lemma LastSegmentSpec(s: string)
    ensures '/' !in LastSegment(s)
    ensures EndsWith(s, LastSegment(s))
    ensures |LastSegment(s)| == |s| || s[|s| - |LastSegment(s)| - 1] == '/'
  {
    var parts := Split(s, '/');
    var n := |parts|;
    var last := parts[n - 1];
    if n == 1 {
      assert s == last;
    } else {
      var init := parts[..n - 1];
      assert parts == init + [last];
      JoinAppend(init, [last], "/");
      var pre := Join(init, "/");
      assert s == pre + "/" + last;
      assert s[|s| - |last|..] == last;
      assert s[|s| - |last| - 1] == '/';
    }
  }

  /** The segment after the last `/` is the last segment. */
  lemma LastSegmentAfterSlash(dir: string, name: string)
    requires '/' !in name
    ensures LastSegment(dir + "/" + name) == name
    ensures LastSegment(name) == name
  {
    SplitAppend(dir, name, '/');
    SplitWithout(name, '/');
  }

  /** Every `from` replaced by `to`. */
  function ReplaceAll(s: string, from: char, to: char): (r: string)
    ensures |r| == |s|
    decreases |s|
  {
    if s == [] then ""
    else [if s[0] == from then to else s[0]] + ReplaceAll(s[1..], from, to)
  }

  /** `s.split(a).join(b)` replaces every `a` by `b`. */
  lemma {:induction false} JoinSplitReplaces(s: string, from: char, to: char)
    ensures Join(Split(s, from), [to]) == ReplaceAll(s, from, to)
    decreases |s|
  {
    if s != [] {
      var rest := Split(s[1..], from);
      JoinSplitReplaces(s[1..], from, to);
      if s[0] == from {
        assert ([""] + rest)[1..] == rest;
      } else {
        JoinGrowsHead([s[0]], rest, [to]);
      }
    }
  }
}
