/**
 * The event loop over the lines of an event definition file, for any way of decoding one line.
 * When the file ends before the announced number of events, the line buffer keeps the last line
 * and the loop goes on with it.
 */
module EdfLoop {
  import opened EventTable
  import opened Scan

  /** What a line defines, given the tag variable as the line before left it; None ends the program. */
  type Decoder = (string, int) -> Option<EdfEntry>

  /** Empty lines and comments are skipped without being counted. */
  predicate Skipped(line: string) { line != [] && (line[0] == NEWLINE || line[0] == '#') }

  function Cons(e: EdfEntry, p: Parsed): Parsed {
    if p.Entries? then Entries([e] + p.es) else p
  }

  /** The line in the buffer after fgets, and the lines behind it. */
  function Next(lines: seq<string>, kept: string): string { if lines == [] then kept else lines[0] }

  function Behind(lines: seq<string>): seq<string> { if lines == [] then [] else lines[1..] }

  /** The loop over n events; kept is in the line buffer and tag in the tag variable from before. */
  function ParseLines(decode: Decoder, lines: seq<string>, n: nat, kept: string, tag: int): Parsed
    decreases |lines|, n
  {
    if n == 0 then Entries([])
    else
      var line, rest := Next(lines, kept), Behind(lines);
      if Skipped(line) then
        if lines == [] then Endless else ParseLines(decode, rest, n, line, tag)
      else
        match decode(line, tag)
        case None => Corrupt
        case Some(e) => Cons(e, ParseLines(decode, rest, n - 1, line, e.tag))
  }

  // ---------- the loop as it runs ----------

  /** What is to come when the entries in done have been taken. */
  ghost function Onward(decode: Decoder, lines: seq<string>, n: nat, kept: string, tag: int, done: seq<EdfEntry>): Parsed
    decreases |lines|, n
  {
    var line, rest := Next(lines, kept), Behind(lines);
    if n == 0 then Entries(done)
    else if Skipped(line) then
      if lines == [] then Endless else Onward(decode, rest, n, line, tag, done)
    else
      match decode(line, tag)
      case None => Corrupt
      case Some(e) => Onward(decode, rest, n - 1, line, e.tag, done + [e])
  }

  lemma {:induction false} OnwardIsParse(decode: Decoder, lines: seq<string>, n: nat, kept: string, tag: int, done: seq<EdfEntry>)
    ensures var p := ParseLines(decode, lines, n, kept, tag);
            Onward(decode, lines, n, kept, tag, done) == if p.Entries? then Entries(done + p.es) else p
    decreases |lines|, n
  {
    var line, rest := Next(lines, kept), Behind(lines);
    if n == 0 {
      assert done + [] == done;
    } else if Skipped(line) {
      if lines != [] {
        OnwardIsParse(decode, rest, n, line, tag, done);
      }
    } else if decode(line, tag).Some? {
      var e := decode(line, tag).value;
      OnwardIsParse(decode, rest, n - 1, line, e.tag, done + [e]);
      var p := ParseLines(decode, rest, n - 1, line, e.tag);
      assert p.Entries? ==> done + ([e] + p.es) == done + [e] + p.es;
    }
  }

  // ---------- the outcome without the loop ----------

  predicate Decodes(decode: Decoder, line: string) { decode(line, 0).Some? }

  /** Whether a line ends the program does not depend on the lines before it, and its own tag is as good as any. */
  ghost predicate TagBlind(decode: Decoder) {
    forall line, tag ::
      && (decode(line, tag).Some? <==> Decodes(decode, line))
      && (decode(line, tag).Some? ==> decode(line, decode(line, tag).value.tag) == decode(line, tag))
  }

  function EventLines(lines: seq<string>): seq<string> {
    if lines == [] then []
    else if Skipped(lines[0]) then EventLines(lines[1..])
    else [lines[0]] + EventLines(lines[1..])
  }

  function LastLine(lines: seq<string>, kept: string): string {
    if lines == [] then kept else lines[|lines| - 1]
  }

  predicate AllDecode(decode: Decoder, lines: seq<string>) {
    forall k :: 0 <= k < |lines| ==> Decodes(decode, lines[k])
  }

  /** What lines that all decode define. */
  function DecodeAll(decode: Decoder, lines: seq<string>, tag: int): seq<EdfEntry> {
    if lines == [] then []
    else
      match decode(lines[0], tag)
      case None => []
      case Some(e) => [e] + DecodeAll(decode, lines[1..], e.tag)
  }

  function Copies<T>(x: T, n: nat): (r: seq<T>)
    ensures |r| == n && forall k :: 0 <= k < n ==> r[k] == x
  {
    if n == 0 then [] else [x] + Copies(x, n - 1)
  }

  function Decoded(decode: Decoder, lines: seq<string>, tag: int): Parsed {
    if AllDecode(decode, lines) then Entries(DecodeAll(decode, lines, tag)) else Corrupt
  }

  lemma DecodedCons(decode: Decoder, line: string, rest: seq<string>, tag: int)
    requires TagBlind(decode)
    ensures Decoded(decode, [line] + rest, tag) ==
              match decode(line, tag)
              case None => Corrupt
              case Some(e) => Cons(e, Decoded(decode, rest, e.tag))
  {
    var lines := [line] + rest;
    assert lines[0] == line && lines[1..] == rest;
    assert decode(line, tag).Some? <==> Decodes(decode, line);
    assert forall k :: 0 <= k < |rest| ==> lines[k + 1] == rest[k];
  }

  /**
   * The outcome for every file and every announced number of events: the first n event lines, or, when
   * there are fewer, all of them and then the line that was read last, again and again.
   */
  function Outcome(decode: Decoder, lines: seq<string>, n: nat, kept: string, tag: int): Parsed {
    var events, last := EventLines(lines), LastLine(lines, kept);
    if n <= |events| then Decoded(decode, events[..n], tag)
    else if !AllDecode(decode, events) then Corrupt
    else if Skipped(last) then Endless
    else Decoded(decode, events + Copies(last, n - |events|), tag)
  }

  lemma {:induction false} KeptLineAgain(decode: Decoder, n: nat, kept: string, tag: int)
    requires TagBlind(decode) && !Skipped(kept)
    ensures ParseLines(decode, [], n, kept, tag) == Decoded(decode, Copies(kept, n), tag)
    decreases n
  {
    if n > 0 {
      DecodedCons(decode, kept, Copies(kept, n - 1), tag);
      if decode(kept, tag).Some? {
        KeptLineAgain(decode, n - 1, kept, decode(kept, tag).value.tag);
      }
    }
  }

  lemma OutcomeSkips(decode: Decoder, line: string, rest: seq<string>, n: nat, kept: string, tag: int)
    requires Skipped(line)
    ensures Outcome(decode, [line] + rest, n, kept, tag) == Outcome(decode, rest, n, line, tag)
  {
    assert ([line] + rest)[1..] == rest;
  }

  lemma AllDecodeCons(decode: Decoder, line: string, rest: seq<string>)
    ensures AllDecode(decode, [line] + rest) <==> Decodes(decode, line) && AllDecode(decode, rest)
  {
    var lines := [line] + rest;
    assert lines[0] == line && forall k :: 0 <= k < |rest| ==> lines[k + 1] == rest[k];
  }

  lemma OutcomeTakes(decode: Decoder, line: string, rest: seq<string>, n: nat, kept: string, tag: int)
    requires TagBlind(decode) && !Skipped(line) && n > 0
    ensures Outcome(decode, [line] + rest, n, kept, tag) ==
              match decode(line, tag)
              case None => Corrupt
              case Some(e) => Cons(e, Outcome(decode, rest, n - 1, line, e.tag))
  {
    var events, last := EventLines(rest), LastLine(rest, line);
    assert ([line] + rest)[1..] == rest;
    assert decode(line, tag).Some? <==> Decodes(decode, line);
    if n <= |events| + 1 {
      DecodedCons(decode, line, events[..n - 1], tag);
      assert ([line] + events)[..n] == [line] + events[..n - 1];
    } else {
      var copies := Copies(last, n - 1 - |events|);
      AllDecodeCons(decode, line, events);
      DecodedCons(decode, line, events + copies, tag);
      assert [line] + events + copies == [line] + (events + copies);
    }
  }

  /** The loop comes to exactly that. */
  lemma {:induction false} LoopOutcome(decode: Decoder, lines: seq<string>, n: nat, kept: string, tag: int)
    requires TagBlind(decode)
    ensures ParseLines(decode, lines, n, kept, tag) == Outcome(decode, lines, n, kept, tag)
    decreases |lines|, n
  {
    if n == 0 {
      assert EventLines(lines)[..0] == [];
    } else if lines == [] {
      if !Skipped(kept) {
        KeptLineAgain(decode, n, kept, tag);
        assert [] + Copies(kept, n) == Copies(kept, n);
      }
    } else {
      var line, rest := lines[0], lines[1..];
      assert lines == [line] + rest;
      if Skipped(line) {
        OutcomeSkips(decode, line, rest, n, kept, tag);
        LoopOutcome(decode, rest, n, line, tag);
      } else {
        OutcomeTakes(decode, line, rest, n, kept, tag);
        if decode(line, tag).Some? {
          LoopOutcome(decode, rest, n - 1, line, decode(line, tag).value.tag);
        }
      }
    }
  }

  // ---------- files that end early ----------

  /** The loop never ends exactly when too few events are there, all of them decode, and the last line is a skipped one. */
  lemma EndlessIff(decode: Decoder, lines: seq<string>, n: nat, kept: string, tag: int)
    requires TagBlind(decode)
    ensures ParseLines(decode, lines, n, kept, tag) == Endless <==>
              && |EventLines(lines)| < n && AllDecode(decode, EventLines(lines))
              && Skipped(LastLine(lines, kept))
  {
    LoopOutcome(decode, lines, n, kept, tag);
  }

  lemma {:induction false} DecodeCopies(decode: Decoder, line: string, n: nat, tag: int)
    requires TagBlind(decode) && Decodes(decode, line)
    requires decode(line, tag).Some? && decode(line, tag).value.tag == tag
    ensures DecodeAll(decode, Copies(line, n), tag) == Copies(decode(line, tag).value, n)
    decreases n
  {
    if n > 0 {
      DecodeCopies(decode, line, n - 1, tag);
      assert Copies(line, n)[1..] == Copies(line, n - 1);
    }
  }

  /** Behind lines that decode, copies of the last of them define copies of its entry. */
  lemma {:induction false} DecodeThenCopies(decode: Decoder, lines: seq<string>, n: nat, tag: int)
    requires TagBlind(decode) && lines != [] && AllDecode(decode, lines)
    ensures var es, copies := DecodeAll(decode, lines, tag), Copies(lines[|lines| - 1], n);
            && |es| == |lines| && AllDecode(decode, lines + copies)
            && DecodeAll(decode, lines + copies, tag) == es + Copies(es[|es| - 1], n)
    decreases |lines|
  {
    var line, rest, copies := lines[0], lines[1..], Copies(lines[|lines| - 1], n);
    assert Decodes(decode, line) && decode(line, tag).Some?;
    var e := decode(line, tag).value;
    assert (lines + copies)[0] == line && (lines + copies)[1..] == rest + copies;
    if rest == [] {
      DecodeCopies(decode, line, n, e.tag);
      assert rest + copies == copies;
      assert DecodeAll(decode, lines, tag) == [e];
    } else {
      DecodeThenCopies(decode, rest, n, e.tag);
      var es := DecodeAll(decode, rest, e.tag);
      assert DecodeAll(decode, lines, tag) == [e] + es;
    }
  }

  lemma {:induction false} LastEvent(lines: seq<string>)
    requires lines != [] && !Skipped(lines[|lines| - 1])
    ensures var events := EventLines(lines); events != [] && events[|events| - 1] == lines[|lines| - 1]
    decreases |lines|
  {
    if |lines| > 1 {
      LastEvent(lines[1..]);
    } else {
      assert lines[1..] == [];
    }
  }

  /** When the last line is an event line, the missing events are copies of the last one. */
  lemma EarlyEnd(decode: Decoder, lines: seq<string>, n: nat, kept: string, tag: int, es: seq<EdfEntry>)
    requires TagBlind(decode) && lines != [] && !Skipped(lines[|lines| - 1])
    requires AllDecode(decode, EventLines(lines)) && es == DecodeAll(decode, EventLines(lines), tag)
    requires n >= |EventLines(lines)|
    ensures |es| == |EventLines(lines)| > 0
    ensures ParseLines(decode, lines, n, kept, tag) == Entries(es + Copies(es[|es| - 1], n - |es|))
  {
    var events := EventLines(lines);
    LastEvent(lines);
    LoopOutcome(decode, lines, n, kept, tag);
    DecodeThenCopies(decode, events, n - |events|, tag);
    if n == |events| {
      assert events[..n] == events && events + [] == events;
    }
  }

  // ---------- the header ----------

  /** What the header buffer holds after the loop: the comment line met last, or what it held before. */
  function HeaderAfter(lines: seq<string>, n: nat, header: string): string {
    if n == 0 || lines == [] then header
    else if Skipped(lines[0]) then HeaderAfter(lines[1..], n, if lines[0][0] == '#' then lines[0] else header)
    else HeaderAfter(lines[1..], n - 1, header)
  }

  // ---------- what the loop can give ----------

  /** What holds of every entry that a line of some kind can define holds of all entries. */
  lemma {:induction false} EntriesFromLines(decode: Decoder, lines: seq<string>, n: nat, kept: string, tag: int,
                                            proper: string -> bool, shape: EdfEntry -> bool)
    requires forall line, t :: proper(line) && decode(line, t).Some? ==> shape(decode(line, t).value)
    requires proper(kept) && forall k :: 0 <= k < |lines| ==> proper(lines[k])
    requires ParseLines(decode, lines, n, kept, tag).Entries?
    ensures var es := ParseLines(decode, lines, n, kept, tag).es;
            |es| == n && forall k :: 0 <= k < n ==> shape(es[k])
    decreases |lines|, n
  {
    if n > 0 {
      var line, rest := Next(lines, kept), Behind(lines);
      assert proper(line);
      if Skipped(line) {
        EntriesFromLines(decode, rest, n, line, tag, proper, shape);
      } else {
        var e := decode(line, tag).value;
        EntriesFromLines(decode, rest, n - 1, line, e.tag, proper, shape);
        assert shape(e);
      }
    }
  }
}
