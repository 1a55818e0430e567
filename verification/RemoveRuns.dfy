/**
 * In-place compaction of blanks in a C string, with a length bound that is not updated when
 * the string gets shorter.
 */
module RemoveRuns {

  const NUL := '\0'

  // ---------- reference ----------

  function DropLeading(s: string): (r: string)
    ensures |r| <= |s| && (r != [] ==> r[0] != ' ')
  {
    if s != [] && s[0] == ' ' then DropLeading(s[1..]) else s
  }

  /** Every run of blanks becomes one blank. */
  function Squeeze(s: string): string
    decreases |s|
  {
    if s == [] then []
    else if s[0] == ' ' then [' '] + Squeeze(DropLeading(s[1..]))
    else [s[0]] + Squeeze(s[1..])
  }

  /** Leading blanks dropped, every other run reduced to one blank. */
  function Compact(s: string): string { Squeeze(DropLeading(s)) }

  // ---------- what the reference promises ----------

  ghost predicate NoAdjacentBlanks(s: string) {
    forall k :: 0 <= k < |s| - 1 ==> !(s[k] == ' ' && s[k + 1] == ' ')
  }

  lemma {:induction false} SqueezeShape(s: string)
    ensures NoAdjacentBlanks(Squeeze(s))
    ensures Squeeze(s) == [] <==> s == []
    ensures s != [] ==> Squeeze(s)[0] == s[0]
    decreases |s|
  {
    if s != [] {
      var rest := if s[0] == ' ' then DropLeading(s[1..]) else s[1..];
      SqueezeShape(rest);
      assert Squeeze(s) == [s[0]] + Squeeze(rest);
    }
  }

  /** A string without adjacent blanks is left alone. */
  lemma {:induction false} SqueezeKeeps(s: string)
    requires NoAdjacentBlanks(s)
    ensures Squeeze(s) == s
    decreases |s|
  {
    if s != [] {
      SqueezeKeeps(s[1..]);
      if s[0] == ' ' {
        assert s[1..] != [] ==> s[1] != ' ';
        assert DropLeading(s[1..]) == s[1..];
      }
      assert s == [s[0]] + s[1..];
    }
  }

  /** The result has no two adjacent blanks and no leading one, and compacting again changes nothing. */
  lemma CompactIsIdempotent(s: string)
    ensures NoAdjacentBlanks(Compact(s)) && (Compact(s) != [] ==> Compact(s)[0] != ' ')
    ensures Compact(Compact(s)) == Compact(s)
  {
    SqueezeShape(DropLeading(s));
    SqueezeKeeps(Compact(s));
    assert DropLeading(Compact(s)) == Compact(s);
  }

  function WordLength(s: string): (n: nat)
    ensures n <= |s| && (s != [] && s[0] != ' ' ==> n > 0)
  {
    if s != [] && s[0] != ' ' then 1 + WordLength(s[1..]) else 0
  }

  /** The words of a string: its maximal runs of other characters than blanks. */
  function Words(s: string): seq<string>
    decreases |s|
  {
    var t := DropLeading(s);
    if t == [] then [] else [t[..WordLength(t)]] + Words(t[WordLength(t)..])
  }

  lemma {:induction false} SqueezeWord(s: string)
    ensures Squeeze(s) == s[..WordLength(s)] + Squeeze(s[WordLength(s)..])
    decreases |s|
  {
    var n := WordLength(s);
    if n > 0 {
      var rest := s[1..];
      SqueezeWord(rest);
      SliceStep(s, n);
      ghost var left, right := rest[..n - 1], Squeeze(s[n..]);
      assert Squeeze(rest) == left + right;
      assert [s[0]] + (left + right) == ([s[0]] + left) + right;
    } else {
      assert s[0..] == s && s[..0] == [];
    }
  }

  lemma SliceStep(s: string, n: nat)
    requires 0 < n <= |s|
    ensures s[..n] == [s[0]] + s[1..][..n - 1] && s[1..][n - 1..] == s[n..]
  {
  }

  lemma {:induction false} SqueezeKeepsWordLength(s: string)
    ensures WordLength(Squeeze(s)) == WordLength(s)
    decreases |s|
  {
    if WordLength(s) > 0 {
      SqueezeKeepsWordLength(s[1..]);
      WordLengthCons(s[0], Squeeze(s[1..]));
    } else {
      SqueezeShape(s);
    }
  }

  lemma WordLengthCons(c: char, s: string)
    requires c != ' '
    ensures WordLength([c] + s) == 1 + WordLength(s)
  {
    assert ([c] + s)[1..] == s;
  }

  lemma DropBeforeSqueeze(s: string)
    ensures DropLeading(Squeeze(s)) == Squeeze(DropLeading(s))
  {
    if s != [] && s[0] == ' ' {
      SqueezeShape(DropLeading(s[1..]));
      assert Squeeze(s)[1..] == Squeeze(DropLeading(s[1..]));
    } else {
      SqueezeShape(s);
    }
  }

  /** No word is lost, changed or joined with another. */
  lemma {:induction false} SqueezeKeepsWords(s: string)
    ensures Words(Squeeze(s)) == Words(s)
    decreases |s|
  {
    DropBeforeSqueeze(s);
    var t := DropLeading(s);
    SqueezeShape(t);
    if t != [] {
      var n := WordLength(t);
      SqueezeWord(t);
      SqueezeKeepsWordLength(t);
      assert Squeeze(t)[..n] == t[..n] && Squeeze(t)[n..] == Squeeze(t[n..]);
      SqueezeKeepsWords(t[n..]);
    }
  }

  lemma CompactKeepsWords(s: string)
    ensures Words(Compact(s)) == Words(s)
  {
    SqueezeKeepsWords(DropLeading(s));
    DropTwice(s);
  }

  lemma DropTwice(s: string)
    ensures DropLeading(DropLeading(s)) == DropLeading(s) && Words(DropLeading(s)) == Words(s)
  {
  }

  lemma {:induction false} SqueezeEnd(s: string)
    requires s != []
    ensures Squeeze(s) != [] && (Squeeze(s)[|Squeeze(s)| - 1] == ' ' <==> s[|s| - 1] == ' ')
    decreases |s|
  {
    var rest := if s[0] == ' ' then DropLeading(s[1..]) else s[1..];
    SqueezeShape(rest);
    assert Squeeze(s) == [s[0]] + Squeeze(rest);
    if rest == [] {
      if s[0] == ' ' {
        AllDropped(s[1..]);
      }
    } else {
      DropKeepsEnd(s[1..]);
      SqueezeEnd(rest);
    }
  }

  lemma {:induction false} AllDropped(s: string)
    requires DropLeading(s) == []
    ensures s != [] ==> s[|s| - 1] == ' '
  {
    if |s| > 1 {
      AllDropped(s[1..]);
    }
  }

  lemma {:induction false} DropKeepsEnd(s: string)
    ensures DropLeading(s) != [] ==> s != [] && DropLeading(s)[|DropLeading(s)| - 1] == s[|s| - 1]
  {
    if |s| > 1 && s[0] == ' ' {
      DropKeepsEnd(s[1..]);
    }
  }

  /** A blank at the end is kept; nothing is left exactly of a string without words. */
  lemma CompactEnd(s: string)
    ensures Compact(s) == [] <==> Words(s) == []
    ensures Compact(s) != [] ==> s != [] && (Compact(s)[|Compact(s)| - 1] == ' ' <==> s[|s| - 1] == ' ')
  {
    SqueezeShape(DropLeading(s));
    if DropLeading(s) != [] {
      SqueezeEnd(DropLeading(s));
      DropKeepsEnd(s);
    }
  }

  // ---------- the in-place loops ----------

  /** The buffer holds the string text from position at, with its terminator. */
  ghost predicate Holds(buf: seq<char>, at: nat, text: string) {
    && at + |text| < |buf| && buf[at + |text|] == NUL
    && forall k :: at <= k < at + |text| ==> buf[k] == text[k - at] != NUL
  }

  lemma {:induction false} DropRun(s: string, n: nat)
    requires n <= |s| && (forall k :: 0 <= k < n ==> s[k] == ' ') && (n < |s| ==> s[n] != ' ')
    ensures DropLeading(s) == s[n..]
    decreases n
  {
    if n > 0 {
      DropRun(s[1..], n - 1);
      assert s[1..][n - 1..] == s[n..];
    } else {
      assert s[0..] == s;
    }
  }

  /** The text with the blanks between positions i and next taken out. */
  ghost function Without(text: string, i: nat, next: nat): string
    requires i < next <= |text|
  {
    text[..i + 1] + text[next..]
  }

  lemma WithoutBlanks(text: string, i: nat, next: nat)
    requires i < next <= |text| && (forall k :: i < k < next ==> text[k] == ' ')
    requires next < |text| ==> text[next] != ' '
    ensures Without(text, i, next)[..i + 1] == text[..i + 1]
    ensures Without(text, i, next)[i + 1..] == DropLeading(text[i + 1..])
  {
    DropRun(text[i + 1..], next - i - 1);
    assert text[i + 1..][next - i - 1..] == text[next..];
  }

  /** What closing the run at position p of the buffer does to the text that starts at position at. */
  ghost predicate RunClosed(text': string, text: string, i: nat) {
    if i < |text| then
      i < |text'| <= |text| && text'[..i + 1] == text[..i + 1] && text'[i + 1..] == DropLeading(text[i + 1..])
    else
      text' == text
  }

  /** The buffer with the characters between p and q taken out, up to the terminator at end. */
  ghost predicate Shifted(after: seq<char>, before: seq<char>, p: nat, q: nat, end: nat) {
    && p < q <= end < |before| == |after|
    && (forall k :: 0 <= k <= p ==> after[k] == before[k])
    && (forall k :: p < k <= end - (q - p - 1) ==> after[k] == before[k + (q - p - 1)])
  }

  ghost predicate Blanks(buf: seq<char>, p: nat, q: nat) {
    p < q < |buf| && forall k :: p <= k < q ==> buf[k] == ' '
  }

  lemma ShiftedText(before: seq<char>, after: seq<char>, at: nat, p: nat, q: nat, end: nat, text: string) returns (text': string)
    requires Holds(before, at, text) && at <= p && at + |text| <= end
    requires Shifted(after, before, p, q, end) && Blanks(before, p, q) && (q < end ==> before[q] != ' ')
    ensures Holds(after, at, text') && RunClosed(text', text, p - at)
  {
    var i, next := p - at, q - at;
    text' := text;
    if i < |text| {
      assert before[at + |text|] == NUL;
      assert next <= |text|;
      forall k | i < k < next ensures text[k] == ' ' {
        assert before[at + k] == text[k];
      }
      assert next < |text| ==> text[next] == before[at + next] != ' ';
      text' := Without(text, i, next);
      WithoutBlanks(text, i, next);
      ShiftedHolds(before, after, at, p, q, end, text);
    } else {
      assert forall k :: at <= k <= at + |text| ==> after[k] == before[k];
    }
  }

  lemma ShiftedHolds(before: seq<char>, after: seq<char>, at: nat, p: nat, q: nat, end: nat, text: string)
    requires Holds(before, at, text) && at <= p < q <= at + |text| <= end
    requires Shifted(after, before, p, q, end)
    ensures Holds(after, at, Without(text, p - at, q - at))
  {
    var i, skip := p - at, q - p - 1;
    var short := Without(text, i, q - at);
    assert after[at + |short|] == before[at + |text|];
    forall k | at <= k < at + |short| ensures after[k] == short[k - at] != NUL {
      if k <= p {
        assert short[k - at] == text[k - at] == before[k];
      } else {
        assert short[k - at] == text[k - at + skip] == before[k + skip];
      }
    }
  }

  /** The shift of everything from q on down to p + 1, with the terminator at the old end. */
  method ShiftLeft(buf: array<char>, p: nat, q: nat, end: nat)
    requires p < q <= end < buf.Length
    modifies buf
    ensures Shifted(buf[..], old(buf[..]), p, q, end)
  {
    ghost var before := buf[..];
    var skip := q - p - 1;
    for j := p + 1 to end - skip + 1
      invariant forall k :: 0 <= k <= p || j <= k < buf.Length ==> buf[k] == before[k]
      invariant forall k :: p < k < j ==> buf[k] == before[k + skip]
    {
      buf[j] := buf[j + skip];
    }
  }

  /** One blank of the string: the end of its run is found and what follows the run moves up. */
  method CloseRun(buf: array<char>, at: nat, end: nat, p: nat, ghost text: string) returns (ghost text': string)
    requires at <= p < end < buf.Length && at + |text| <= end
    requires Holds(buf[..], at, text) && buf[p] == ' '
    modifies buf
    ensures Holds(buf[..], at, text') && RunClosed(text', text, p - at)
  {
    ghost var before := buf[..];
    var q := p + 1;
    while q < end && buf[q] == ' '
      invariant p < q <= end
      invariant Blanks(before, p, q)
    {
      q := q + 1;
    }
    ShiftLeft(buf, p, q, end);
    text' := ShiftedText(before, buf[..], at, p, q, end, text);
  }

  /** Squeezing continues behind position i: what is in front of it is final. */
  ghost predicate SqueezedTo(result: string, text: string, i: nat) {
    if i <= |text| then result == text[..i] + Squeeze(text[i..]) else result == text
  }

  lemma SqueezeStep(result: string, text: string, i: nat, text': string)
    requires SqueezedTo(result, text, i)
    requires if i < |text| && text[i] == ' ' then RunClosed(text', text, i) else text' == text
    ensures SqueezedTo(result, text', i + 1)
  {
    if i < |text| {
      assert text[i..][1..] == text[i + 1..];
      assert text[..i + 1] == text[..i] + [text[i]];
    } else if i == |text| {
      assert text[..i] == text && text[i..] == [];
    }
  }

  lemma HoldsTail(buf: seq<char>, at: nat, text: string)
    requires Holds(buf, at, text) && buf[at] == ' '
    ensures text != [] && text[0] == ' ' && Holds(buf, at + 1, text[1..])
  {
    assert text != [] ==> buf[at] == text[0];
    if text == [] {
      assert false;
    }
  }

  /**
   * removeRuns.  The bound end stays at the terminator of the uncompacted string, so the loop runs
   * on over left-over characters; nothing it does there reaches the string.
   */
  method RemoveRuns(buf: array<char>, begin: nat, ghost text: string) returns (str: nat, ghost result: string)
    requires Holds(buf[..], begin, text)
    modifies buf
    ensures begin <= str && result == Compact(text) && Holds(buf[..], str, result)
  {
    str := begin;
    ghost var rest := text;
    while buf[str] != NUL && buf[str] == ' '
      invariant begin <= str && Holds(buf[..], str, rest) && DropLeading(rest) == DropLeading(text)
      decreases |rest|
    {
      HoldsTail(buf[..], str, rest);
      rest := rest[1..];
      str := str + 1;
    }
    assert DropLeading(rest) == rest;
    result := Squeeze(rest);
    SqueezeRuns(buf, str, rest);
  }

  /** The loop over the runs of a string that starts at position str. */
  method SqueezeRuns(buf: array<char>, str: nat, ghost text: string)
    requires Holds(buf[..], str, text)
    modifies buf
    ensures Holds(buf[..], str, Squeeze(text))
  {
    ghost var rest := text;
    var end := StringEnd(buf, str, text);
    assert rest[..0] == [] && rest[0..] == rest;
    for p := str to end
      invariant str + |rest| <= end && Holds(buf[..], str, rest) && SqueezedTo(Squeeze(text), rest, p - str)
    {
      ghost var rest' := rest;
      if buf[p] == ' ' {
        rest' := CloseRun(buf, str, end, p, rest);
      } else {
        assert p - str < |rest| ==> buf[p] == rest[p - str];
      }
      SqueezeStep(Squeeze(text), rest, p - str, rest');
      rest := rest';
    }
    assert rest[..|rest|] == rest && rest[|rest|..] == [];
  }

  /** strlen: the terminator of the string that starts at position str. */
  method StringEnd(buf: array<char>, str: nat, ghost text: string) returns (end: nat)
    requires Holds(buf[..], str, text)
    ensures end == str + |text|
  {
    end := str;
    assert buf[str + |text|] == NUL;
    while buf[end] != NUL
      invariant str <= end <= str + |text|
      decreases str + |text| - end
    {
      end := end + 1;
    }
  }
}
