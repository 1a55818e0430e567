/**
 * The include/exclude decision of the selective instrumentation support, on top
 * of the wildcard matcher.
 */
module Selective {
  import opened Wildcard

  /** A pattern without a separator sees only the base name of what it is compared with. */
  ghost predicate Selects(pattern: string, name: string, star: char) {
    Glob(pattern, if DIR in pattern then name else BaseName(name), star)
  }

  ghost predicate SomeSelects(patterns: seq<string>, name: string, star: char) {
    exists k :: 0 <= k < |patterns| && Selects(patterns[k], name, star)
  }

  /** What the lists promise: excluded names never, otherwise included names, and all names when nothing is included. */
  ghost predicate Wanted(excluded: seq<string>, included: seq<string>, name: string, star: char) {
    && !SomeSelects(excluded, name, star)
    && (included == [] || SomeSelects(included, name, star))
  }

  const POMP2_INIT := "POMP2_INIT_#"

  method AnyMatch(patterns: seq<string>, name: string, star: char) returns (found: bool)
    ensures found <==> SomeSelects(patterns, name, star)
  {
    for k := 0 to |patterns|
      invariant forall i :: 0 <= i < k ==> !Selects(patterns[i], name, star)
    {
      found := WildcardCompare(patterns[k], name, star);
      if found {
        assert Selects(patterns[k], name, star);
        return;
      }
      assert !Selects(patterns[k], name, star);
    }
    found := false;
  }

  lemma SomeSelectsCons(pattern: string, patterns: seq<string>, name: string, star: char)
    ensures SomeSelects([pattern] + patterns, name, star) <==>
              Selects(pattern, name, star) || SomeSelects(patterns, name, star)
  {
    var all := [pattern] + patterns;
    assert all[0] == pattern;
    assert forall k :: 0 <= k < |patterns| ==> all[k + 1] == patterns[k];
    if k :| 0 <= k < |all| && Selects(all[k], name, star) {
      assert k == 0 || all[k] == patterns[k - 1];
    }
    if k :| 0 <= k < |patterns| && Selects(patterns[k], name, star) {
      assert Selects(all[k + 1], name, star);
    }
    if Selects(pattern, name, star) {
      assert Selects(all[0], name, star);
    }
  }

  class Requests {
    var excludeList: seq<string>
    var includeList: seq<string>
    var fileExcludeList: seq<string>
    var fileIncludeList: seq<string>

    constructor (excludes: seq<string>, includes: seq<string>, fileExcludes: seq<string>, fileIncludes: seq<string>)
      ensures excludeList == excludes && includeList == includes
      ensures fileExcludeList == fileExcludes && fileIncludeList == fileIncludes
    {
      excludeList, includeList := excludes, includes;
      fileExcludeList, fileIncludeList := fileExcludes, fileIncludes;
    }

    /** Routines: '#' is the star, and the POMP2 initialisation routines are never instrumented. */
    method InstrumentEntity(name: string) returns (wanted: bool)
      ensures wanted <==> Wanted(["POMP2_INIT_#"] + excludeList, includeList, name, '#')
    {
      SomeSelectsCons(POMP2_INIT, excludeList, name, '#');
      var found := WildcardCompare(POMP2_INIT, name, '#');
      if found {
        return false;
      }
      found := AnyMatch(excludeList, name, '#');
      if found {
        return false;
      }
      if includeList == [] {
        return true;
      }
      wanted := AnyMatch(includeList, name, '#');
    }

    /** Files: '*' is the star. */
    method ProcessFileForInstrumentation(name: string) returns (wanted: bool)
      ensures wanted <==> Wanted(fileExcludeList, fileIncludeList, name, '*')
    {
      var found := AnyMatch(fileExcludeList, name, '*');
      if found {
        return false;
      }
      if fileIncludeList == [] {
        return true;
      }
      wanted := AnyMatch(fileIncludeList, name, '*');
    }
  }

  // ---------- what the decision means ----------

  ghost predicate Literal(pattern: string, star: char) {
    star !in pattern && '?' !in pattern && ' ' !in pattern
  }

  /** A pattern without wildcards and blanks accepts itself and nothing else. */
  lemma {:induction false} LiteralAcceptsItself(pattern: string, w: nat, s: string, p: nat, star: char)
    requires w <= |pattern| && p <= |s| && Literal(pattern, star)
    ensures Accepts(pattern, w, s, p, star) <==> pattern[w..] == s[p..]
    decreases |pattern| - w
  {
    if w < |pattern| {
      assert pattern[w] in pattern;
      if p < |s| {
        LiteralAcceptsItself(pattern, w + 1, s, p + 1, star);
        assert pattern[w..] == [pattern[w]] + pattern[w + 1..] && s[p..] == [s[p]] + s[p + 1..];
      }
    }
  }

  /**
   * Selecting a file by its plain name selects it in every directory: for a list of
   * literal patterns without separators the decision depends on the base name only.
   */
  lemma PlainNamesIgnoreDirectories(patterns: seq<string>, name: string, star: char)
    requires forall k :: 0 <= k < |patterns| ==> Literal(patterns[k], star) && DIR !in patterns[k]
    ensures SomeSelects(patterns, name, star) <==> BaseName(name) in patterns
  {
    forall k | 0 <= k < |patterns|
      ensures Selects(patterns[k], name, star) <==> patterns[k] == BaseName(name)
    {
      AcceptsIsGlob(patterns[k], BaseName(name), star);
      LiteralAcceptsItself(patterns[k], 0, BaseName(name), 0, star);
    }
  }

  lemma BehindSlash(dir: string, name: string)
    requires '/' !in name
    ensures BaseName(dir + "/" + name) == name
  {
    var path := dir + "/" + name;
    BaseNameAfterSeparator(path, |dir|);
    assert path[|dir| + 1..] == name;
    BaseNameIsLastPart(name);
  }

  /** A file named without its directory is selected in any directory, and no other file is. */
  lemma NamedInAnyDirectory(pattern: string, dir: string, name: string, star: char)
    requires Literal(pattern, star) && '/' !in pattern && '/' !in name
    ensures Selects(pattern, dir + "/" + name, star) <==> pattern == name
  {
    BehindSlash(dir, name);
    AcceptsIsGlob(pattern, name, star);
    LiteralAcceptsItself(pattern, 0, name, 0, star);
  }
}
