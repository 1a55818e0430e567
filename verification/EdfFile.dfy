/**
 * Whole event definition files: printing the merged file and parsing texts.  The round trip is
 * not always exact and parsing does not always end; the theorems say exactly when.
 */
module EdfFile {
  import opened EventTable
  import opened Scan
  import opened EdfLine
  import opened EdfLoop

  // ---------- texts and lines ----------

  /** fgets: a line with its newline, or what is left of the text. */
  function ReadLine(text: string): (r: (string, string))
    ensures text != [] ==> |r.1| < |text|
  {
    var i := First(text, NEWLINE);
    if i == |text| then (text, []) else (text[..i + 1], text[i + 1..])
  }

  function Lines(text: string): seq<string>
    decreases |text|
  {
    if text == [] then [] else [ReadLine(text).0] + Lines(ReadLine(text).1)
  }

  const DYNAMIC := "dynamic_trace_events"

  /** A dynamic event file: the number of events and the trace flag, then the events. */
  function ParseFile(text: string, tag: int): Parsed {
    var (line, rest) := ReadLine(text);
    match ScanInt(line)
    case None => Corrupt
    case Some((n, flag)) =>
      if ScanWord(flag).Some? && ScanWord(flag).value.0 == DYNAMIC
      then ParseLines(DecodeLine, Lines(rest), if n < 0 then 0 else n, line, tag) else Corrupt
  }

  function PrintEntries(es: seq<EdfEntry>): string {
    if es == [] then [] else PrintEntry(es[0]) + PrintEntries(es[1..])
  }

  /** The first line of a file. */
  function CountLine(n: nat, flag: string): string { PrintInt(n) + ([' '] + (flag + [NEWLINE])) }

  /** store_merged_edffile */
  function PrintFile(header: string, es: seq<EdfEntry>): string {
    CountLine(|es|, DYNAMIC) + (header + PrintEntries(es))
  }

  /** What the header buffer can hold: nothing, or a comment line. */
  predicate HeaderLine(header: string) {
    header == [] || (header[0] == '#' && NewlineOnlyAtEnd(header) && EndsLine(header))
  }

  // ---------- reading lines ----------

  lemma ReadsTo(a: string, b: string)
    requires Without(a, NEWLINE)
    ensures ReadLine(a + [NEWLINE] + b) == (a + [NEWLINE], b)
  {
    var text := a + [NEWLINE] + b;
    assert forall j :: 0 <= j < |a| ==> text[j] == a[j];
    FirstIs(text, NEWLINE, |a|);
    assert text[..|a| + 1] == a + [NEWLINE] && text[|a| + 1..] == b;
  }

  lemma ReadsAll(a: string)
    requires Without(a, NEWLINE)
    ensures ReadLine(a) == (a, [])
  {
    FirstIs(a, NEWLINE, |a|);
  }

  lemma ReadsPast(a: string, b: string)
    requires Without(a, NEWLINE)
    ensures var line := ReadLine(a + b).0; |line| >= |a| && line[..|a|] == a
  {
    var text := a + b;
    FirstPlace(text, NEWLINE);
    assert forall j :: 0 <= j < |a| ==> text[j] == a[j];
    assert text[..|a|] == a;
  }

  /** A line that ends, in front of more text. */
  lemma LinesOf(line: string, more: string)
    requires EndsLine(line) && NewlineOnlyAtEnd(line)
    ensures Lines(line + more) == [line] + Lines(more)
    ensures ReadLine(line + more) == (line, more)
  {
    var a := line[..|line| - 1];
    assert line == a + [NEWLINE];
    ReadsTo(a, more);
  }

  lemma LinesEndRight(text: string)
    ensures NewlineOnlyAtEnd(ReadLine(text).0)
    ensures forall k :: 0 <= k < |Lines(text)| ==> NewlineOnlyAtEnd(Lines(text)[k])
    decreases |text|
  {
    FirstPlace(text, NEWLINE);
    if text != [] {
      LinesEndRight(ReadLine(text).1);
    }
  }

  // ---------- the first line ----------

  lemma WordRegroup(n: string, flag: string)
    ensures n + ([' '] + (flag + [NEWLINE])) == n + ([' '] + flag) + [NEWLINE]
  {
  }

  lemma CountLineShape(n: nat, flag: string)
    requires NoSpaces(flag)
    ensures EndsLine(CountLine(n, flag)) && NewlineOnlyAtEnd(CountLine(n, flag))
  {
    PrintIntIsPlain(n, NEWLINE);
    WordRegroup(PrintInt(n), flag);
  }

  lemma CountLineScanned(n: nat, flag: string)
    requires flag != [] && NoSpaces(flag)
    ensures var r := ScanInt(CountLine(n, flag));
            && r.Some? && r.value.0 == n
            && ScanWord(r.value.1) == Some((flag, [NEWLINE]))
  {
    ScanPrintedInt(n, [' '] + (flag + [NEWLINE]));
    ScanPrintedWord(flag, [NEWLINE]);
  }

  lemma DynamicIsWord()
    ensures DYNAMIC != [] && NoSpaces(DYNAMIC)
  {
  }

  /** A file with a proper first line is parsed by the loop. */
  lemma FileIsLoop(n: nat, more: string, tag: int)
    ensures ParseFile(CountLine(n, DYNAMIC) + more, tag) ==
              ParseLines(DecodeLine, Lines(more), n, CountLine(n, DYNAMIC), tag)
  {
    DynamicIsWord();
    CountLineShape(n, DYNAMIC);
    CountLineScanned(n, DYNAMIC);
    LinesOf(CountLine(n, DYNAMIC), more);
  }

  lemma LineDecoderIsTagBlind()
    ensures TagBlind(DecodeLine)
  {
    forall line, tag
      ensures DecodeLine(line, tag).Some? <==> Decodes(DecodeLine, line)
      ensures DecodeLine(line, tag).Some? ==> DecodeLine(line, DecodeLine(line, tag).value.tag) == DecodeLine(line, tag)
    {
      TagBlindLine(line, tag);
    }
  }

  // ---------- files that end early ----------

  /** The number of events the first line announces; 0 when it is not that of a dynamic event file. */
  function Announced(text: string): nat {
    match ScanInt(ReadLine(text).0)
    case None => 0
    case Some((n, flag)) =>
      if n > 0 && ScanWord(flag).Some? && ScanWord(flag).value.0 == DYNAMIC then n else 0
  }

  /** The lines behind the first one. */
  function Body(text: string): seq<string> { Lines(ReadLine(text).1) }

  lemma FirstLineNotSkipped(text: string)
    requires Announced(text) > 0
    ensures !Skipped(ReadLine(text).0)
  {
    var line := ReadLine(text).0;
    LinesEndRight(text);
    if Skipped(line) {
      NoNumber(line);
    }
  }

  lemma NoNumber(line: string)
    requires Skipped(line) && NewlineOnlyAtEnd(line)
    ensures ScanInt(line) == None
  {
    if line[0] == NEWLINE {
      assert line[1..] == [];
    }
  }

  lemma ParsedByLoop(text: string, tag: int)
    requires Announced(text) > 0
    ensures ParseFile(text, tag) == ParseLines(DecodeLine, Body(text), Announced(text), ReadLine(text).0, tag)
  {
  }

  /**
   * A file never stops being parsed exactly when fewer event lines follow than announced, all of them
   * decode, and the last line is empty or a comment.
   */
  lemma NeverEndsIff(text: string, tag: int, body: seq<string>)
    requires body == Body(text)
    ensures ParseFile(text, tag) == Endless <==>
              && |EventLines(body)| < Announced(text) && AllDecode(DecodeLine, EventLines(body))
              && body != [] && Skipped(body[|body| - 1])
  {
    if Announced(text) > 0 {
      ParsedByLoop(text, tag);
      FirstLineNotSkipped(text);
      LineDecoderIsTagBlind();
      EndlessIff(DecodeLine, body, Announced(text), ReadLine(text).0, tag);
    }
  }

  lemma AnnouncedByCount(n: nat, more: string)
    ensures var text := CountLine(n, DYNAMIC) + more;
            Announced(text) == n && Body(text) == Lines(more)
  {
    DynamicIsWord();
    CountLineShape(n, DYNAMIC);
    CountLineScanned(n, DYNAMIC);
    LinesOf(CountLine(n, DYNAMIC), more);
  }

  lemma NothingButSkipped(n: nat, line: string, tag: int)
    requires n > 0 && Skipped(line) && EndsLine(line) && NewlineOnlyAtEnd(line)
    ensures ParseFile(CountLine(n, DYNAMIC) + line, tag) == Endless
  {
    LinesOf(line, "");
    assert line + "" == line;
    assert Lines(line) == [line];
    assert EventLines([line]) == [] by {
      assert [line][1..] == [];
    }
    AnnouncedByCount(n, line);
    NeverEndsIff(CountLine(n, DYNAMIC) + line, tag, [line]);
  }

  /** Two events announced, and nothing but a comment or an empty line follows. */
  lemma CommentAtEndNeverEnds(tag: int)
    ensures ParseFile(CountLine(2, "dynamic_trace_events") + "#\n", tag) == Endless
    ensures ParseFile(CountLine(2, "dynamic_trace_events") + "\n", tag) == Endless
  {
    NothingButSkipped(2, "#\n", tag);
    NothingButSkipped(2, "\n", tag);
  }

  /** When the last line is an event line, the missing events are copies of the last one. */
  lemma MissingEventsAreCopies(text: string, tag: int, body: seq<string>, es: seq<EdfEntry>)
    requires body == Body(text) && body != [] && !Skipped(body[|body| - 1])
    requires AllDecode(DecodeLine, EventLines(body)) && es == DecodeAll(DecodeLine, EventLines(body), tag)
    requires 0 < Announced(text) && |EventLines(body)| <= Announced(text)
    ensures |es| == |EventLines(body)| > 0
    ensures ParseFile(text, tag) == Entries(es + Copies(es[|es| - 1], Announced(text) - |es|))
  {
    LineDecoderIsTagBlind();
    EarlyEnd(DecodeLine, body, Announced(text), ReadLine(text).0, tag, es);
    ParsedByLoop(text, tag);
  }

  lemma OneLine(decode: Decoder, line: string, tag: int, e: EdfEntry)
    requires !Skipped(line) && decode(line, 0).Some? && decode(line, tag) == Some(e)
    ensures EventLines([line]) == [line] && AllDecode(decode, [line]) && DecodeAll(decode, [line], tag) == [e]
  {
    assert [line][1..] == [];
  }

  /** Two events announced, and only one follows: it is taken twice. */
  lemma OneEventTwice(e: EdfEntry, tag: int)
    requires FromLine(e) && QUOTE !in e.state
    ensures ParseFile(CountLine(2, DYNAMIC) + PrintEntry(e), tag) == Entries([e, e])
  {
    PrintedLast(e);
    PrintedNotSkipped(e, []);
    DecodeClean(e, tag);
    DecodeClean(e, 0);
    AnnouncedByCount(2, PrintEntry(e));
    OneLine(DecodeLine, PrintEntry(e), tag, e);
    MissingEventsAreCopies(CountLine(2, DYNAMIC) + PrintEntry(e), tag, [PrintEntry(e)], [e]);
    assert [e] + Copies(e, 1) == [e, e];
  }

  /** Every entry of every file that can be parsed has the shape of one read from a line. */
  lemma ParsedFileHasShape(text: string, tag: int)
    requires ParseFile(text, tag).Entries?
    ensures forall k :: 0 <= k < |ParseFile(text, tag).es| ==> FromLine(ParseFile(text, tag).es[k])
  {
    var (line, rest) := ReadLine(text);
    LinesEndRight(text);
    LinesEndRight(rest);
    forall l, t | NewlineOnlyAtEnd(l) && DecodeLine(l, t).Some?
      ensures FromLine(DecodeLine(l, t).value)
    {
      DecodedHasShape(l, t);
    }
    var n := ScanInt(line).value.0;
    EntriesFromLines(DecodeLine, Lines(rest), if n < 0 then 0 else n, line, tag, NewlineOnlyAtEnd, FromLine);
  }

  // ---------- lines of a printed file ----------

  /** The printed line up to and with the name holds no newline and does not look like a comment. */
  lemma NoNewlineBeforeParam(e: EdfEntry)
    requires FromLine(e)
    ensures Without(Prefix(e) + e.name, NEWLINE)
    ensures Prefix(e) != [] && !Skipped(Prefix(e))
  {
    PrefixHas(e, NEWLINE);
    PrintIntIsPlain(e.localId, NEWLINE);
    PrintIntIsPlain(e.localId, '#');
    assert Prefix(e)[0] == PrintInt(e.localId)[0];
  }

  lemma LongerNotSkipped(a: string, b: string)
    requires a != [] && !Skipped(a)
    ensures !Skipped(a + b)
  {
  }

  lemma PrintedNotSkipped(e: EdfEntry, extra: string)
    requires FromLine(e)
    ensures PrintEntry(e) != [] && !Skipped(PrintEntry(e)) && !Skipped(PrintEntry(e) + extra)
  {
    NoNewlineBeforeParam(e);
    LongerNotSkipped(Prefix(e), e.name + ([' '] + e.param));
    Associates(Prefix(e), e.name, [' '] + e.param);
    LongerNotSkipped(PrintEntry(e), extra);
  }

  lemma JoinedNewline(a: string, param: string)
    requires Without(a, NEWLINE) && NewlineOnlyAtEnd(param)
    ensures EndsLine(param) ==> NewlineOnlyAtEnd(a + ([' '] + param)) && EndsLine(a + ([' '] + param))
    ensures !EndsLine(param) ==> Without(a + ([' '] + param), NEWLINE)
  {
  }

  /** An entry whose parameter ends its line. */
  lemma PrintedOwnLine(e: EdfEntry, more: string)
    requires FromLine(e) && EndsLine(e.param)
    ensures Lines(PrintEntry(e) + more) == [PrintEntry(e)] + Lines(more)
  {
    NoNewlineBeforeParam(e);
    JoinedNewline(Prefix(e) + e.name, e.param);
    LinesOf(PrintEntry(e), more);
  }

  /** The last entry. */
  lemma PrintedLast(e: EdfEntry)
    requires FromLine(e)
    ensures Lines(PrintEntry(e)) == [PrintEntry(e)]
  {
    if EndsLine(e.param) {
      PrintedOwnLine(e, []);
      assert PrintEntry(e) + [] == PrintEntry(e);
    } else {
      NoNewlineBeforeParam(e);
      JoinedNewline(Prefix(e) + e.name, e.param);
      ReadsAll(PrintEntry(e));
      PrintedNotSkipped(e, []);
    }
  }

  /** An entry whose parameter does not end its line is glued to at least the next entry's name. */
  lemma PrintedGlued(e: EdfEntry, next: EdfEntry, more: string) returns (extra: string)
    requires FromLine(e) && FromLine(next) && !EndsLine(e.param)
    ensures var lines := Lines(PrintEntry(e) + (PrintEntry(next) + more));
            lines != [] && lines[0] == PrintEntry(e) + extra
    ensures QUOTE in extra
  {
    NoNewlineBeforeParam(e);
    NoNewlineBeforeParam(next);
    JoinedNewline(Prefix(e) + e.name, e.param);
    var quoted, tail := Prefix(next) + next.name, [' '] + next.param + more;
    assert PrintEntry(next) + more == quoted + tail by {
      Associates(quoted, [' '] + next.param, more);
    }
    Associates(PrintEntry(e), quoted, tail);
    extra := GluedLine(PrintEntry(e), quoted, tail);
    assert quoted[|quoted| - 1] == QUOTE;
    assert QUOTE in quoted;
  }

  lemma GluedLine(a: string, b: string, more: string) returns (extra: string)
    requires a != [] && Without(a, NEWLINE) && Without(b, NEWLINE)
    ensures var lines := Lines(a + b + more); lines != [] && lines[0] == a + extra
    ensures |extra| >= |b| && extra[..|b|] == b
    ensures forall c :: c in b ==> c in extra
  {
    ReadsPast(a + b, more);
    var line := ReadLine(a + b + more).0;
    extra := line[|a|..];
    assert line[..|a|] == line[..|a + b|][..|a|] == a;
    assert extra[..|b|] == line[..|a + b|][|a|..] == b;
  }

  // ---------- the round trip ----------

  ghost predicate Recoverable(es: seq<EdfEntry>) {
    forall k :: 0 <= k < |es| ==> QUOTE !in es[k].state && (k < |es| - 1 ==> EndsLine(es[k].param))
  }

  lemma RecoverableCons(es: seq<EdfEntry>)
    requires es != []
    ensures Recoverable(es) <==>
              QUOTE !in es[0].state && (|es| > 1 ==> EndsLine(es[0].param)) && Recoverable(es[1..])
  {
    assert forall k :: 0 < k < |es| ==> es[k] == es[1..][k - 1];
    assert forall k :: 0 <= k < |es[1..]| ==> es[1..][k] == es[k + 1];
  }

  /** One round of the loop on a line that is not skipped, against a list of entries. */
  lemma ParseHead(decode: Decoder, es: seq<EdfEntry>, line: string, rest: seq<string>, kept: string, tag: int)
    requires es != [] && !Skipped(line)
    ensures ParseLines(decode, [line] + rest, |es|, kept, tag) == Entries(es) <==>
              && decode(line, tag) == Some(es[0])
              && ParseLines(decode, rest, |es| - 1, line, es[0].tag) == Entries(es[1..])
  {
    assert ([line] + rest)[1..] == rest;
    if decode(line, tag).Some? {
      var e := decode(line, tag).value;
      var p := ParseLines(decode, rest, |es| - 1, line, e.tag);
      assert es == [es[0]] + es[1..];
      assert p.Entries? ==> ([e] + p.es)[0] == e && ([e] + p.es)[1..] == p.es;
    }
  }

  /** An entry on a line of its own: recovered unless its state spoils it. */
  lemma ParseOwnLine(es: seq<EdfEntry>, lines: seq<string>, kept: string, tag: int)
    requires es != [] && FromLine(es[0])
    ensures ParseLines(DecodeLine, [PrintEntry(es[0])] + lines, |es|, kept, tag) == Entries(es) <==>
              && QUOTE !in es[0].state
              && ParseLines(DecodeLine, lines, |es| - 1, PrintEntry(es[0]), es[0].tag) == Entries(es[1..])
  {
    PrintedNotSkipped(es[0], []);
    ParseHead(DecodeLine, es, PrintEntry(es[0]), lines, kept, tag);
    if QUOTE in es[0].state {
      assert PrintEntry(es[0]) + [] == PrintEntry(es[0]);
      DecodeSpoiled(es[0], [], tag);
    } else {
      DecodeClean(es[0], tag);
    }
  }

  /** An entry glued to the next one is not recovered. */
  lemma ParseGlued(es: seq<EdfEntry>, kept: string, tag: int)
    requires |es| > 1 && FromLine(es[0]) && FromLine(es[1]) && !EndsLine(es[0].param)
    ensures ParseLines(DecodeLine, Lines(PrintEntries(es)), |es|, kept, tag) != Entries(es)
  {
    var extra := PrintedGlued(es[0], es[1], PrintEntries(es[1..][1..]));
    var lines := Lines(PrintEntries(es));
    assert lines == [lines[0]] + lines[1..];
    PrintedNotSkipped(es[0], extra);
    ParseHead(DecodeLine, es, lines[0], lines[1..], kept, tag);
    DecodeSpoiled(es[0], extra, tag);
  }

  lemma PrintedHead(es: seq<EdfEntry>)
    requires es != [] && FromLine(es[0]) && (EndsLine(es[0].param) || |es| == 1)
    ensures Lines(PrintEntries(es)) == [PrintEntry(es[0])] + Lines(PrintEntries(es[1..]))
  {
    if EndsLine(es[0].param) {
      PrintedOwnLine(es[0], PrintEntries(es[1..]));
    } else {
      assert es[1..] == [];
      assert PrintEntry(es[0]) + [] == PrintEntry(es[0]);
      PrintedLast(es[0]);
    }
  }

  /** Parsing the printed entries recovers them exactly when they are recoverable. */
  lemma {:induction false} ParsePrinted(es: seq<EdfEntry>, kept: string, tag: int)
    requires forall k :: 0 <= k < |es| ==> FromLine(es[k])
    ensures ParseLines(DecodeLine, Lines(PrintEntries(es)), |es|, kept, tag) == Entries(es) <==> Recoverable(es)
    decreases |es|
  {
    if es != [] {
      RecoverableCons(es);
      if EndsLine(es[0].param) || |es| == 1 {
        PrintedHead(es);
        ParseOwnLine(es, Lines(PrintEntries(es[1..])), kept, tag);
        ParsePrinted(es[1..], PrintEntry(es[0]), es[0].tag);
      } else {
        ParseGlued(es, kept, tag);
      }
    }
  }

  /** The header, if any, is skipped. */
  lemma HeaderSkipped(header: string, more: string, n: nat, kept: string, tag: int) returns (last: string)
    requires HeaderLine(header) && n > 0
    ensures ParseLines(DecodeLine, Lines(header + more), n, kept, tag) == ParseLines(DecodeLine, Lines(more), n, last, tag)
  {
    last := kept;
    if header == [] {
      assert header + more == more;
    } else {
      LinesOf(header, more);
      SkipsFirst(DecodeLine, header, Lines(more), n, kept, tag);
      last := header;
    }
  }

  lemma SkipsFirst(decode: Decoder, line: string, rest: seq<string>, n: nat, kept: string, tag: int)
    requires Skipped(line) && n > 0
    ensures ParseLines(decode, [line] + rest, n, kept, tag) == ParseLines(decode, rest, n, line, tag)
  {
    assert ([line] + rest)[1..] == rest;
  }

  /**
   * The round trip of the merged event file.  It is exact if and only if no state holds a quote and
   * every parameter but the last one's brings its own line end.
   */
  lemma RoundTrip(header: string, es: seq<EdfEntry>, tag: int)
    requires HeaderLine(header) && forall k :: 0 <= k < |es| ==> FromLine(es[k])
    ensures ParseFile(PrintFile(header, es), tag) == Entries(es) <==> Recoverable(es)
  {
    FileIsLoop(|es|, header + PrintEntries(es), tag);
    if es != [] {
      var last := HeaderSkipped(header, PrintEntries(es), |es|, CountLine(|es|, DYNAMIC), tag);
      ParsePrinted(es, last, tag);
    }
  }

  lemma {:induction false} NoCommentPrinted(es: seq<EdfEntry>, header: string)
    requires (forall k :: 0 <= k < |es| ==> FromLine(es[k])) && Recoverable(es)
    ensures HeaderAfter(Lines(PrintEntries(es)), |es|, header) == header
    decreases |es|
  {
    if es != [] {
      RecoverableCons(es);
      PrintedHead(es);
      PrintedNotSkipped(es[0], []);
      NoCommentPrinted(es[1..], header);
      EventFirst(PrintEntry(es[0]), Lines(PrintEntries(es[1..])), |es|, header);
    }
  }

  lemma EventFirst(line: string, rest: seq<string>, n: nat, header: string)
    requires n > 0
    ensures !Skipped(line) ==> HeaderAfter([line] + rest, n, header) == HeaderAfter(rest, n - 1, header)
    ensures Skipped(line) && line[0] == '#' ==> HeaderAfter([line] + rest, n, header) == HeaderAfter(rest, n, line)
  {
    assert ([line] + rest)[1..] == rest;
  }

  /** Reading the printed file back, the parser meets the header that was printed. */
  lemma PrintedHeaderIsMet(header: string, es: seq<EdfEntry>, kept: string)
    requires HeaderLine(header) && es != [] && (forall k :: 0 <= k < |es| ==> FromLine(es[k])) && Recoverable(es)
    ensures HeaderAfter(Body(PrintFile(header, es)), |es|, kept) == if header == [] then kept else header
  {
    AnnouncedByCount(|es|, header + PrintEntries(es));
    if header == [] {
      assert header + PrintEntries(es) == PrintEntries(es);
      NoCommentPrinted(es, kept);
    } else {
      LinesOf(header, PrintEntries(es));
      EventFirst(header, Lines(PrintEntries(es)), |es|, kept);
      NoCommentPrinted(es, header);
    }
  }

  lemma SampleLine(e: EdfEntry)
    requires e == EdfEntry(5, "S", 0, "\"f\"", "p\n")
    ensures PrintEntry(e) == "5 S 0 \"f\" p\n" && FromLine(e)
  {
    assert PrintInt(5) == "5" && PrintInt(0) == "0";
    assert Prefix(e) == "5 S 0 ";
    assert Prefix(e) + e.name == "5 S 0 \"f\"";
  }

  /** A file as it stands on disk. */
  lemma SampleFile(tag: int)
    ensures ParseFile("1" + (" " + ("dynamic_trace_events" + "\n")) + ("# header\n" + "5 S 0 \"f\" p\n"), tag) ==
              Entries([EdfEntry(5, "S", 0, "\"f\"", "p\n")])
  {
    var e := EdfEntry(5, "S", 0, "\"f\"", "p\n");
    SampleLine(e);
    assert [e][1..] == [];
    assert PrintEntries([e]) == PrintEntry(e) + [];
    assert PrintEntries([e]) == PrintEntry(e);
    assert PrintInt(1) == "1";
    RoundTrip("# header\n", [e], tag);
  }

  /** So there are event files whose merged file does not read back. */
  lemma RoundTripFails(header: string, e: EdfEntry, next: EdfEntry, tag: int)
    requires HeaderLine(header) && FromLine(e) && FromLine(next) && e.param == []
    ensures ParseFile(PrintFile(header, [e, next]), tag) != Entries([e, next])
  {
    var es := [e, next];
    RoundTrip(header, es, tag);
    assert es[0] == e;
  }

  // ---------- the loops ----------

  lemma StoreStep(text: string, e: string, rest: string)
    ensures text + (e + rest) == text + e + rest
  {
  }

  /** store_merged_edffile: header and entries, in the order the map is walked. */
  method StoreText(header: string, es: seq<EdfEntry>) returns (text: string)
    ensures text == PrintFile(header, es)
  {
    var first := CountLine(|es|, DYNAMIC);
    text := first + header;
    StoreStep(first, header, PrintEntries(es));
    for i := 0 to |es|
      invariant text + PrintEntries(es[i..]) == PrintFile(header, es)
    {
      assert es[i..][1..] == es[i + 1..];
      StoreStep(text, PrintEntry(es[i]), PrintEntries(es[i + 1..]));
      text := text + PrintEntry(es[i]);
    }
    assert text + [] == text;
  }

  /**
   * parse_edf_file on a text: the events are counted off the first line, read line by line and entered
   * into the table as they come.  Corrupt is an early end of the program; Endless is a run that stays
   * in the loop, where this method stops.
   */
  method ParseText(table: EventTable, node: nat, text: string, oldTag: int, header: string) returns (r: Parsed, header': string)
    requires node < |table.parsed| == |table.nodeEventTable|
    modifies table
    ensures r == ParseFile(text, oldTag)
    ensures r.Entries? ==> table.Value() == AfterLines(old(table.Value()), node, r.es)
    ensures r.Entries? ==> header' == HeaderAfter(Body(text), Announced(text), header)
    ensures table.stored == old(table.stored)
  {
    if Announced(text) == 0 {
      return NothingAnnounced(text, oldTag), header;
    }
    var (line, rest) := ReadLine(text);
    var n := Announced(text);
    ParsedByLoop(text, oldTag);
    r, header' := ReadEvents(DecodeLine, table, node, rest, n, line, oldTag, header);
  }

  function NothingAnnounced(text: string, tag: int): (r: Parsed)
    requires Announced(text) == 0
    ensures r == ParseFile(text, tag)
    ensures r.Entries? ==> r.es == []
  {
    match ScanInt(ReadLine(text).0)
    case None => Corrupt
    case Some((n, flag)) =>
      if ScanWord(flag).Some? && ScanWord(flag).value.0 == DYNAMIC then Entries([]) else Corrupt
  }

  /** fgets into the line buffer, which keeps its line at the end of the file. */
  method Fgets(text: string, linebuf: string) returns (atEnd: bool, line: string, rest: string)
    ensures atEnd <==> Lines(text) == []
    ensures line == Next(Lines(text), linebuf) && Lines(rest) == Behind(Lines(text))
    ensures if atEnd then rest == text else |rest| < |text|
  {
    atEnd, line, rest := text == [], linebuf, text;
    if !atEnd {
      line, rest := ReadLine(text).0, ReadLine(text).1;
    }
  }

  /** Decode a line and enter its event. */
  method TakeEvent(decode: Decoder, table: EventTable, node: nat, line: string, tag: int,
                   ghost before: Tables, ghost es: seq<EdfEntry>) returns (e: Option<EdfEntry>)
    requires node < |before.parsed| == |before.nodeEventTable| && table.Value() == AfterLines(before, node, es)
    modifies table
    ensures e == decode(line, tag) && table.stored == old(table.stored)
    ensures e.Some? ==> table.Value() == AfterLines(before, node, es + [e.value])
  {
    e := decode(line, tag);
    if e.Some? {
      assert (es + [e.value])[..|es|] == es;
      table.DefineEvent(node, e.value);
    }
  }

  /** The state of the event loop: events taken, text left, line buffer, tag variable and header buffer. */
  datatype Loop = Loop(es: seq<EdfEntry>, rest: string, linebuf: string, tag: int, header: string)

  /** What the loop will come to from a state. */
  ghost function Comes(decode: Decoder, n: nat, l: Loop): Parsed {
    if |l.es| <= n then Onward(decode, Lines(l.rest), n - |l.es|, l.linebuf, l.tag, l.es) else Corrupt
  }

  /** What the header buffer will hold then. */
  ghost function HeaderComes(n: nat, l: Loop): string {
    if |l.es| <= n then HeaderAfter(Lines(l.rest), n - |l.es|, l.header) else l.header
  }

  lemma HeaderStep(n: nat, l: Loop, l': Loop, line: string)
    requires |l.es| < n && line == Next(Lines(l.rest), l.linebuf) && Lines(l'.rest) == Behind(Lines(l.rest))
    requires if Skipped(line) then
               Lines(l.rest) != [] && |l'.es| == |l.es| && l'.header == (if line[0] == '#' then line else l.header)
             else
               |l'.es| == |l.es| + 1 && l'.header == l.header
    ensures HeaderComes(n, l) == HeaderComes(n, l')
  {
  }

  lemma ComesStep(decode: Decoder, n: nat, l: Loop, line: string, rest: string)
    requires |l.es| < n && line == Next(Lines(l.rest), l.linebuf) && Lines(rest) == Behind(Lines(l.rest))
    ensures Comes(decode, n, l) ==
              if Skipped(line) then
                if Lines(l.rest) == [] then Endless
                else Comes(decode, n, l.(rest := rest, linebuf := line, header := if line[0] == '#' then line else l.header))
              else
                match decode(line, l.tag)
                case None => Corrupt
                case Some(e) => Comes(decode, n, Loop(l.es + [e], rest, line, e.tag, l.header))
  {
  }

  /** One round of the event loop; stopped is an early end or an endless loop. */
  method OneRound(decode: Decoder, table: EventTable, node: nat, n: nat, l: Loop, ghost before: Tables)
    returns (stopped: bool, r: Parsed, l': Loop)
    requires |l.es| < n
    requires node < |before.parsed| == |before.nodeEventTable| && table.Value() == AfterLines(before, node, l.es)
    modifies table
    ensures table.stored == old(table.stored)
    ensures stopped ==> !r.Entries? && Comes(decode, n, l) == r
    ensures !stopped ==> HeaderComes(n, l) == HeaderComes(n, l')
    ensures !stopped ==> Comes(decode, n, l) == Comes(decode, n, l') && table.Value() == AfterLines(before, node, l'.es)
    ensures !stopped ==> |l.es| <= |l'.es| <= n && |l'.rest| <= |l.rest| && (|l.es| < |l'.es| || |l'.rest| < |l.rest|)
  {
    var atEnd, line, rest := Fgets(l.rest, l.linebuf);
    ComesStep(decode, n, l, line, rest);
    stopped, r, l' := true, Corrupt, l;
    if Skipped(line) {
      if atEnd {
        r := Endless;
      } else {
        stopped, l' := false, l.(rest := rest, linebuf := line, header := if line[0] == '#' then line else l.header);
        HeaderStep(n, l, l', line);
      }
    } else {
      var e := TakeEvent(decode, table, node, line, l.tag, before, l.es);
      if e.Some? {
        stopped, l' := false, Loop(l.es + [e.value], rest, line, e.value.tag, l.header);
        HeaderStep(n, l, l', line);
      }
    }
  }

  /** The event loop, with its line buffer and its tag variable. */
  method ReadEvents(decode: Decoder, table: EventTable, node: nat, text: string, n: nat, first: string, oldTag: int, header: string)
    returns (r: Parsed, header': string)
    requires node < |table.parsed| == |table.nodeEventTable|
    modifies table
    ensures r == ParseLines(decode, Lines(text), n, first, oldTag)
    ensures r.Entries? ==> table.Value() == AfterLines(old(table.Value()), node, r.es)
    ensures r.Entries? ==> header' == HeaderAfter(Lines(text), n, header)
    ensures table.stored == old(table.stored)
  {
    ghost var before := table.Value();
    OnwardIsParse(decode, Lines(text), n, first, oldTag, []);
    var l := Loop([], text, first, oldTag, header);
    ghost var wanted, wantedHeader := Comes(decode, n, l), HeaderComes(n, l);
    while |l.es| < n
      invariant |l.es| <= n && wanted == Comes(decode, n, l) && wantedHeader == HeaderComes(n, l)
      invariant table.Value() == AfterLines(before, node, l.es) && table.stored == old(table.stored)
      decreases |l.rest|, n - |l.es|
    {
      var stopped;
      stopped, r, l := OneRound(decode, table, node, n, l, before);
      if stopped {
        header' := l.header;
        return;
      }
    }
    r, header' := Entries(l.es), l.header;
  }
}
