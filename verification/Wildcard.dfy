/**
 * The wildcard matcher of the selective instrumentation support: an iterative
 * scan with a single backtrack point, proved to decide a declarative glob
 * relation.
 *
 * A C string is the sequence of its characters before the terminating NUL, so
 * "*p is NUL" reads "the index has reached the length".
 */
module Wildcard {

  const DIR := '/'

  // ---------- path prefix ----------

  /** The part of a path after its last separator (the whole path if it has none). */
  function BaseName(path: string): (base: string)
    ensures DIR !in base && |base| <= |path|
  {
    if path == [] || path[|path| - 1] == DIR then []
    else BaseName(path[..|path| - 1]) + [path[|path| - 1]]
  }

  /** It is what stands behind the last separator, or everything. */
  lemma {:induction false} BaseNameIsLastPart(path: string)
    ensures var base := BaseName(path);
            && base == path[|path| - |base|..]
            && (if DIR in path then |base| < |path| && path[|path| - |base| - 1] == DIR else base == path)
  {
    if path != [] && path[|path| - 1] != DIR {
      var front := path[..|path| - 1];
      BaseNameIsLastPart(front);
      assert path == front + [path[|path| - 1]];
    }
  }

  /** Dropping everything up to one separator does not change the base name. */
  lemma {:induction false} BaseNameAfterSeparator(path: string, k: nat)
    requires k < |path| && path[k] == DIR
    ensures BaseName(path[k + 1..]) == BaseName(path)
  {
    var tail := path[k + 1..];
    if tail != [] {
      assert tail[|tail| - 1] == path[|path| - 1];
      if path[|path| - 1] != DIR {
        BaseNameAfterSeparator(path[..|path| - 1], k);
        assert path[..|path| - 1][k + 1..] == tail[..|tail| - 1];
      }
    }
  }

  /** strchr: the index of the first occurrence of a character, or the length. */
  method FirstIndex(s: string, c: char) returns (k: nat)
    ensures k <= |s|
    ensures c !in s[..k]
    ensures k < |s| ==> s[k] == c
  {
    k := 0;
    while k < |s| && s[k] != c
      invariant k <= |s|
      invariant c !in s[..k]
    {
      k := k + 1;
    }
  }

  method RemovePath(path: string) returns (base: string)
    ensures base == BaseName(path)
  {
    base := path;
    var k := FirstIndex(base, DIR);
    while k < |base|
      invariant 0 <= k <= |base| && DIR !in base[..k] && (k < |base| ==> base[k] == DIR)
      invariant BaseName(base) == BaseName(path)
      decreases |base|
    {
      BaseNameAfterSeparator(base, k);
      base := base[k + 1..];
      k := FirstIndex(base, DIR);
    }
    assert base[..k] == base;
    BaseNameIsLastPart(base);
  }

  // ---------- the declarative glob relation ----------

  /**
   * What a pattern denotes: the star is any run of characters, '?' is any one
   * character, every other character is itself.
   */
  ghost predicate Denotes(wild: string, s: string, star: char)
    decreases |wild|
  {
    if wild == [] then s == []
    else if wild[0] == star then exists k :: 0 <= k <= |s| && Denotes(wild[1..], s[k..], star)
    else s != [] && (wild[0] == '?' || wild[0] == s[0]) && Denotes(wild[1..], s[1..], star)
  }

  /** Stars and blanks: the part of a pattern that may match nothing at its end. */
  ghost predicate Padding(wild: string, star: char) {
    forall k :: 0 <= k < |wild| ==> wild[k] == star || wild[k] == ' '
  }

  ghost predicate DenotesUpTo(wild: string, cut: nat, s: string, star: char) {
    cut <= |wild| && Denotes(wild[..cut], s, star) && Padding(wild[cut..], star)
  }

  /** A pattern accepts a string when some part of it without trailing padding denotes it. */
  ghost predicate Glob(wild: string, s: string, star: char) {
    exists cut: nat :: DenotesUpTo(wild, cut, s, star)
  }

  // ---------- a deterministic reading of the relation, by positions ----------

  ghost predicate PaddingFrom(wild: string, w: nat, star: char) {
    forall k :: w <= k < |wild| ==> wild[k] == star || wild[k] == ' '
  }

  /** The pattern from position w accepts the string from position p. */
  ghost predicate Accepts(wild: string, w: nat, s: string, p: nat, star: char)
    requires w <= |wild| && p <= |s|
    decreases |wild| - w + |s| - p
  {
    if p == |s| then PaddingFrom(wild, w, star)
    else if w == |wild| then false
    else if wild[w] == star then Accepts(wild, w + 1, s, p, star) || Accepts(wild, w, s, p + 1, star)
    else (wild[w] == '?' || wild[w] == s[p]) && Accepts(wild, w + 1, s, p + 1, star)
  }

  /** A star may swallow any stretch before a position where the rest, or the star itself, accepts. */
  lemma {:induction false} StarSwallows(wild: string, w: nat, s: string, p: nat, later: nat, star: char)
    requires w < |wild| && wild[w] == star && p <= later <= |s|
    requires Accepts(wild, w, s, later, star) || Accepts(wild, w + 1, s, later, star)
    ensures Accepts(wild, w, s, p, star)
    decreases later - p
  {
    if p < later {
      StarSwallows(wild, w, s, p + 1, later, star);
    }
  }

  /** An accepted star takes some stretch and the rest of the pattern accepts behind it. */
  lemma {:induction false} StarTakes(wild: string, w: nat, s: string, p: nat, star: char) returns (later: nat)
    requires w < |wild| && wild[w] == star && p <= |s| && Accepts(wild, w, s, p, star)
    ensures p <= later <= |s| && Accepts(wild, w + 1, s, later, star)
    decreases |s| - p
  {
    if p == |s| || Accepts(wild, w + 1, s, p, star) {
      later := p;
    } else {
      later := StarTakes(wild, w, s, p + 1, star);
    }
  }

  lemma {:induction false} AcceptsThenGlob(wild: string, w: nat, s: string, p: nat, star: char) returns (cut: nat)
    requires w <= |wild| && p <= |s| && Accepts(wild, w, s, p, star)
    ensures DenotesUpTo(wild[w..], cut, s[p..], star)
    decreases |wild| - w
  {
    var pattern, rest := wild[w..], s[p..];
    if p == |s| {
      cut := 0;
      assert rest == [] && pattern[..0] == [] && pattern[0..] == pattern;
    } else {
      var later := p + 1;
      if wild[w] == star {
        later := StarTakes(wild, w, s, p, star);
      }
      var c := AcceptsThenGlob(wild, w + 1, s, later, star);
      cut := c + 1;
      assert pattern[..cut][1..] == wild[w + 1..][..c];
      assert pattern[cut..] == wild[w + 1..][c..];
      assert rest[later - p..] == s[later..];
      assert Denotes(pattern[..cut][1..], rest[later - p..], star);
    }
  }

  lemma {:induction false} GlobThenAccepts(wild: string, w: nat, cut: nat, s: string, p: nat, star: char)
    requires w <= |wild| && p <= |s| && DenotesUpTo(wild[w..], cut, s[p..], star)
    ensures Accepts(wild, w, s, p, star)
    decreases |wild| - w
  {
    var pattern, rest := wild[w..], s[p..];
    if cut == 0 {
      assert forall k :: w <= k < |wild| ==> pattern[0..][k - w] == wild[k];
    } else {
      assert pattern[..cut][1..] == wild[w + 1..][..cut - 1];
      assert pattern[cut..] == wild[w + 1..][cut - 1..];
      if wild[w] == star {
        var k :| 0 <= k <= |rest| && Denotes(pattern[..cut][1..], rest[k..], star);
        assert rest[k..] == s[p + k..];
        GlobThenAccepts(wild, w + 1, cut - 1, s, p + k, star);
        StarSwallows(wild, w, s, p, p + k, star);
      } else {
        assert rest[1..] == s[p + 1..];
        GlobThenAccepts(wild, w + 1, cut - 1, s, p + 1, star);
      }
    }
  }

  /** The deterministic reading and the declarative relation agree on all inputs. */
  lemma AcceptsIsGlob(wild: string, s: string, star: char)
    ensures Accepts(wild, 0, s, 0, star) <==> Glob(wild, s, star)
  {
    assert wild[0..] == wild && s[0..] == s;
    if Accepts(wild, 0, s, 0, star) {
      var _ := AcceptsThenGlob(wild, 0, s, 0, star);
    }
    if Glob(wild, s, star) {
      var cut: nat :| DenotesUpTo(wild, cut, s, star);
      GlobThenAccepts(wild, 0, cut, s, 0, star);
    }
  }

  // ---------- why one backtrack point is enough ----------

  ghost predicate StarFree(wild: string, from: nat, to: nat, star: char) {
    forall k :: from <= k < to && k < |wild| ==> wild[k] != star
  }

  /**
   * A star-free segment in front of a pattern takes exactly its own length, or the
   * string ends inside it and the pattern behind it is padding.
   */
  lemma {:induction false} SegmentThenRest(wild: string, mp: nat, w: nat, s: string, from: nat, star: char)
    requires mp <= w <= |wild| && StarFree(wild, mp, w, star)
    requires from <= |s| && Accepts(wild, mp, s, from, star)
    ensures if w - mp <= |s| - from then Accepts(wild, w, s, from + w - mp, star) else PaddingFrom(wild, w, star)
    decreases w - mp
  {
    if mp < w && from < |s| {
      SegmentThenRest(wild, mp + 1, w, s, from + 1, star);
    }
  }

  lemma {:induction false} PaddingAfterStarAccepts(wild: string, w: nat, s: string, p: nat, star: char)
    requires w < |wild| && wild[w] == star && PaddingFrom(wild, w, star) && p <= |s|
    ensures Accepts(wild, w, s, p, star)
    decreases |s| - p
  {
    if p < |s| {
      PaddingAfterStarAccepts(wild, w, s, p + 1, star);
    }
  }

  /** The alternatives still open at a backtrack point: the star before mp takes more, up to cp or beyond. */
  ghost predicate Retry(wild: string, mp: nat, s: string, cp: nat, star: char)
    requires 0 < mp <= |wild|
  {
    cp <= |s| && Accepts(wild, mp - 1, s, cp, star)
  }

  /**
   * Dropping the older backtrack point when a newer star is reached loses nothing:
   * the segment between them was matched at position at, the newer star stands behind it.
   */
  lemma NewerStarSubsumes(wild: string, mp: nat, w: nat, s: string, at: nat, star: char)
    requires 0 < mp <= w < |wild| && wild[mp - 1] == star && StarFree(wild, mp, w, star) && wild[w] == star
    requires at + w - mp <= |s|
    requires Retry(wild, mp, s, at + 1, star)
    ensures Accepts(wild, w, s, at + w - mp, star)
  {
    var from := StarTakes(wild, mp - 1, s, at + 1, star);
    SegmentThenRest(wild, mp, w, s, from, star);
    if w - mp <= |s| - from {
      StarSwallows(wild, w, s, at + w - mp, from + w - mp, star);
    } else {
      PaddingAfterStarAccepts(wild, w, s, at + w - mp, star);
    }
  }

  /** When the scan has used up the string, retrying later could only succeed on padding. */
  lemma NoRetryAtEnd(wild: string, mp: nat, w: nat, s: string, cp: nat, star: char)
    requires 0 < mp <= w <= |wild| && wild[mp - 1] == star && StarFree(wild, mp, w, star)
    requires 0 < cp && w - mp == |s| - (cp - 1)
    requires Retry(wild, mp, s, cp, star)
    ensures PaddingFrom(wild, w, star)
  {
    var from := StarTakes(wild, mp - 1, s, cp, star);
    SegmentThenRest(wild, mp, w, s, from, star);
  }

  /** How much the first character of a pattern takes. */
  lemma FirstTakes(wild: string, s: string, star: char) returns (j: nat)
    requires wild != [] && Denotes(wild, s, star)
    ensures j <= |s| && Denotes(wild[1..], s[j..], star)
    ensures wild[0] != star ==> j == 1 && (wild[0] == '?' || wild[0] == s[0])
  {
    if wild[0] == star {
      j :| 0 <= j <= |s| && Denotes(wild[1..], s[j..], star);
    } else {
      j := 1;
    }
  }

  lemma FirstAnd(wild: string, s: string, star: char, j: nat)
    requires wild != [] && j <= |s| && Denotes(wild[1..], s[j..], star)
    requires wild[0] != star ==> j == 1 && (wild[0] == '?' || wild[0] == s[0])
    ensures Denotes(wild, s, star)
  {
  }

  lemma SliceParts(s: string, j: nat, i: nat)
    requires j + i <= |s|
    ensures s[..j + i][j..] == s[j..][..i] && s[j..][i..] == s[j + i..]
  {
  }

  lemma FirstAndPart(a: string, s: string, star: char, j: nat, i: nat)
    requires a != [] && j + i <= |s| && Denotes(a[1..], s[j..][..i], star)
    requires a[0] != star ==> j == 1 && (a[0] == '?' || a[0] == s[0])
    ensures Denotes(a, s[..j + i], star)
  {
    SliceParts(s, j, i);
    FirstAnd(a, s[..j + i], star, j);
  }

  lemma {:induction false} DenotesParts(a: string, b: string, s: string, star: char, ab: string) returns (k: nat)
    requires ab == a + b && Denotes(ab, s, star)
    ensures k <= |s| && Denotes(a, s[..k], star) && Denotes(b, s[k..], star)
    decreases |a|
  {
    if a == [] {
      k := 0;
      assert ab == b && s[0..] == s && s[..0] == [];
    } else {
      assert ab[1..] == a[1..] + b;
      var j := FirstTakes(ab, s, star);
      var i := DenotesParts(a[1..], b, s[j..], star, ab[1..]);
      SliceParts(s, j, i);
      FirstAndPart(a, s, star, j, i);
      k := j + i;
    }
  }

  lemma {:induction false} PartsDenote(a: string, b: string, s: string, star: char, k: nat)
    requires k <= |s| && Denotes(a, s[..k], star) && Denotes(b, s[k..], star)
    ensures Denotes(a + b, s, star)
    decreases |a|
  {
    if a == [] {
      assert a + b == b && s[k..] == s;
    } else {
      assert (a + b)[1..] == a[1..] + b;
      var j := FirstTakes(a, s[..k], star);
      SliceParts(s, j, k - j);
      PartsDenote(a[1..], b, s[j..], star, k - j);
      FirstAnd(a + b, s, star, j);
    }
  }

  /** A pattern in two parts denotes what is in two parts. */
  lemma DenotesConcat(a: string, b: string, s: string, star: char)
    ensures Denotes(a + b, s, star) <==> exists k :: 0 <= k <= |s| && Denotes(a, s[..k], star) && Denotes(b, s[k..], star)
  {
    if Denotes(a + b, s, star) {
      var _ := DenotesParts(a, b, s, star, a + b);
    }
    if k :| 0 <= k <= |s| && Denotes(a, s[..k], star) && Denotes(b, s[k..], star) {
      PartsDenote(a, b, s, star, k);
    }
  }

  /** A blank or a star behind a pattern takes nothing away. */
  lemma PaddingAllowed(wild: string, s: string, star: char, c: char)
    requires Glob(wild, s, star) && (c == ' ' || c == star)
    ensures Glob(wild + [c], s, star)
  {
    var cut: nat :| DenotesUpTo(wild, cut, s, star);
    var more := wild + [c];
    assert more[..cut] == wild[..cut] && more[cut..] == wild[cut..] + [c];
    assert DenotesUpTo(more, cut, s, star);
  }

  /** The star alone accepts everything, '?' alone exactly the strings of one character. */
  lemma StarAndQuestionMark(s: string, star: char)
    ensures Glob([star], s, star)
    ensures star != '?' ==> (Glob("?", s, star) <==> |s| == 1)
  {
    AcceptsIsGlob([star], s, star);
    AcceptsIsGlob("?", s, star);
    PaddingAfterStarAccepts([star], 0, s, 0, star);
  }

  // ---------- the matcher ----------

  /** The scan from the first star on: w and p move, mp and cp are the backtrack point. */
  method ScanFromStar(wild: string, start: nat, s: string, begin: nat, star: char) returns (matched: bool)
    requires start <= |wild| && begin <= |s|
    requires begin < |s| ==> start < |wild| && wild[start] == star
    ensures matched <==> Accepts(wild, start, s, begin, star)
  {
    ghost var wanted := Accepts(wild, start, s, begin, star);
    var w, p := start, begin;
    var mp, cp := start, begin;  // set at each star: the pattern behind it, the next position to retry
    while p < |s|
      invariant start <= mp <= w <= |wild| && 0 <= p <= |s| && 0 <= cp <= |s| + 1
      invariant mp == start ==> w == start && p == begin
      invariant mp > start ==> 0 < cp && w - mp == p - (cp - 1)
      invariant mp > start ==> wild[mp - 1] == star && StarFree(wild, mp, w, star)
      invariant mp > start ==> (wanted <==> Accepts(wild, w, s, p, star) || Retry(wild, mp, s, cp, star))
      decreases |wild| - mp, |s| + 1 - cp, |s| - p
    {
      if w < |wild| && wild[w] == star {
        if mp > start && Retry(wild, mp, s, cp, star) {
          NewerStarSubsumes(wild, mp, w, s, cp - 1, star);
        }
        assert wanted <==> Accepts(wild, w, s, p, star);
        w := w + 1;
        if w == |wild| {
          PaddingAfterStarAccepts(wild, w - 1, s, p, star);
          return true;
        }
        mp := w;
        cp := p + 1;
      } else if w < |wild| && (wild[w] == s[p] || wild[w] == '?') {
        w := w + 1;
        p := p + 1;
      } else {
        w := mp;
        p := cp;
        cp := cp + 1;
      }
    }
    if mp > start && Retry(wild, mp, s, cp, star) {
      NoRetryAtEnd(wild, mp, w, s, cp, star);
    }
    assert wanted <==> PaddingFrom(wild, w, star);
    while w < |wild| && (wild[w] == star || wild[w] == ' ')
      invariant 0 <= w <= |wild|
      invariant wanted <==> PaddingFrom(wild, w, star)
    {
      w := w + 1;
    }
    matched := w == |wild|;
  }

  /** wildcardCompare: strip the path, compare up to the first star, then scan. */
  method WildcardCompare(wild: string, path: string, star: char) returns (matched: bool)
    ensures matched <==> Glob(wild, if DIR in wild then path else BaseName(path), star)
  {
    var s := path;
    var sep := FirstIndex(wild, DIR);
    if sep == |wild| {
      assert wild[..sep] == wild;
      s := RemovePath(s);
    }
    AcceptsIsGlob(wild, s, star);
    var w, p := 0, 0;
    while p < |s| && !(w < |wild| && wild[w] == star)
      invariant 0 <= w <= |wild| && 0 <= p <= |s|
      invariant Accepts(wild, 0, s, 0, star) <==> Accepts(wild, w, s, p, star)
    {
      if !(w < |wild| && wild[w] == s[p]) && !(w < |wild| && wild[w] == '?') {
        return false;
      }
      w, p := w + 1, p + 1;
    }
    matched := ScanFromStar(wild, w, s, p, star);
  }
}
