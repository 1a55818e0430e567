/**
 * The merger from its list of trace files to its two output files.
 */
module MergeProgram {
  import opened TraceReader
  import opened MergeSpec
  import opened EventTable
  import opened OutputBuffer
  import opened TraceMerge
  import opened Meaning
  import opened Merger
  import opened Counting

  /** Empty trace files are ignored; the others are numbered in the order given. */
  function Kept(files: seq<TraceFile>): seq<seq<Record>> {
    if files == [] then []
    else
      var n := |files| - 1;
      Kept(files[..n]) + (if files[n].records == [] then [] else [files[n].records])
  }

  function KeptOffsets(files: seq<TraceFile>, offsets: seq<int>): seq<int>
    requires |offsets| == |files|
  {
    if files == [] then []
    else
      var n := |files| - 1;
      KeptOffsets(files[..n], offsets[..n]) + (if files[n].records == [] then [] else [offsets[n]])
  }

  /** The id's meaning, read off the merged event file: a name that a version up to the given one gave the local id. */
  ghost predicate MeansInFile(stored: map<string, EventDescr>, edf: EdfFiles, node: nat, local: int, g: int, step: nat) {
    if g == 0 then NameOf(Defs(edf, node, 0), local).None?
    else exists name :: name in stored && stored[name].gid == g && SeenBy(edf, node, step, local, Some(name))
  }

  /** Distinct names have distinct ids, and the ids are 1 .. number of names. */
  ghost predicate Numbered(stored: map<string, EventDescr>, count: nat) {
    && (forall n :: n in stored ==> 1 <= stored[n].gid <= count)
    && (forall n, m :: n in stored && m in stored && stored[n].gid == stored[m].gid ==> n == m)
    && (forall g :: 1 <= g <= count ==> HasId(stored, g))
  }

  ghost predicate HasId(stored: map<string, EventDescr>, g: int) {
    exists n :: n in stored && stored[n].gid == g
  }

  ghost predicate Describes(d: EventDescr, e: EdfEntry) { d.state == e.state && d.tag == e.tag && d.param == e.param }

  ghost predicate DescribedLater(edf: EdfFiles, n: nat, step: nat, name: string, d: EventDescr) {
    exists e :: DefinedIn(edf, n, step, name, Some(e)) && Describes(d, e)
  }

  /**
   * Every name of the event files as first read has the descriptor of its first definition line, in the
   * order of the traces; other names have that of a first line in a later version.
   */
  ghost predicate DefinedBy(edf: EdfFiles, n: nat, step: nat, stored: map<string, EventDescr>) {
    forall name ::
      if FirstDef(AllDefs(edf, n), name).Some? then
        name in stored && Describes(stored[name], FirstDef(AllDefs(edf, n), name).value)
      else
        name in stored ==> DescribedLater(edf, n, step, name, stored[name])
  }

  lemma LogDefines(edf: EdfFiles, n: nat, step: nat, log: seq<EdfEntry>, stored: map<string, EventDescr>)
    requires LogOf(edf, n, step, log) && FirstWins(stored, log)
    ensures DefinedBy(edf, n, step, stored)
  {
    forall name | FirstDef(AllDefs(edf, n), name).None? && name in stored
      ensures DescribedLater(edf, n, step, name, stored[name])
    {
      assert FirstDef(log, name).Some?;
      var e := FirstDef(log, name).value;
      assert DefinedIn(edf, n, step, name, Some(e)) && Describes(stored[name], e);
    }
  }

  /** Record by record: the same record with a global id that means the same, in the merged file's terms. */
  ghost predicate FaithfulOutput(stored: map<string, EventDescr>, edf: EdfFiles, traces: seq<seq<Record>>,
                                 offsets: seq<int>, items: seq<Item>, recs: seq<Record>)
  {
    && |recs| == |items| && |offsets| == |traces|
    && forall k :: 0 <= k < |items| ==>
         var a := items[k];
         && In(traces, a)
         && var rec := traces[a.src][a.pos];
            && recs[k] == rec.(ev := recs[k].ev, nid := (rec.nid + offsets[a.src]) % 0x10000)
            && MeansInFile(stored, edf, a.src, rec.ev, recs[k].ev, k + 1)
            && (recs[k].ev == 0 ==> Lacked(edf, traces, items, k + 1, a.src, rec.ev))
  }

  lemma KeptSnoc(files: seq<TraceFile>, offsets: seq<int>, i: nat)
    requires |offsets| == |files| && i < |files|
    ensures Kept(files[..i + 1]) == Kept(files[..i]) + (if files[i].records == [] then [] else [files[i].records])
    ensures KeptOffsets(files[..i + 1], offsets[..i + 1]) ==
              KeptOffsets(files[..i], offsets[..i]) + (if files[i].records == [] then [] else [offsets[i]])
  {
    assert files[..i + 1][..i] == files[..i] && offsets[..i + 1][..i] == offsets[..i];
  }

  /** Every descriptor stands at the first record of its trace. */
  ghost predicate Opened(sources: seq<Source>, traces: seq<seq<Record>>, offsets: seq<int>)
    reads Objects(sources)
  {
    && |sources| == |traces| == |offsets|
    && forall i :: 0 <= i < |sources| ==>
         assert sources[i].Footprint() <= Objects(sources);
         traces[i] != [] && sources[i].Standing(traces[i], 0) && sources[i].addOffset == offsets[i]
  }

  ghost predicate PairwiseApart(sources: seq<Source>) {
    forall i, j :: 0 <= i < |sources| && 0 <= j < |sources| && i != j ==>
      sources[i].Footprint() !! sources[j].Footprint()
  }

  ghost predicate NoZeros(table: seq<map<int, int>>) {
    forall i, l :: 0 <= i < |table| && l in table[i] ==> table[i][l] != 0
  }

  /** The tables once the first n nodes' event files have been parsed. */
  ghost function Started(edf: EdfFiles, n: nat, nodes: nat): (t: Tables)
    requires n <= nodes
    ensures |t.parsed| == |t.nodeEventTable| == nodes
  {
    if n == 0 then Tables(map[], 1, seq(nodes, _ => map[]), [], seq(nodes, _ => []), [])
    else AfterLines(Started(edf, n - 1, nodes), n - 1, Defs(edf, n - 1, 0))
  }

  /** The event files of the kept traces have been parsed, once each. */
  ghost predicate ParsedOnce(table: EventTable, edf: EdfFiles, n: nat, nodes: nat)
    reads table
  {
    n <= nodes && table.Value() == Started(edf, n, nodes) && AllParsed(edf, n)
  }

  ghost predicate AllParsed(edf: EdfFiles, n: nat) { forall i :: 0 <= i < n ==> edf(i, 0).Entries? }

  ghost predicate ReadOnce(t: Tables, edf: EdfFiles, n: nat) {
    && n <= |t.parsed| && t.log == AllDefs(edf, n) && NoZeros(t.nodeEventTable)
    && (forall i :: 0 <= i < n ==> t.parsed[i] == Defs(edf, i, 0))
    && (forall i :: n <= i < |t.parsed| ==> t.parsed[i] == [])
  }

  lemma ReadOneMore(t: Tables, edf: EdfFiles, n: nat, t': Tables)
    requires ReadOnce(t, edf, n) && n < |t.parsed|
    requires t'.parsed == t.parsed[n := t.parsed[n] + Defs(edf, n, 0)] && t'.log == t.log + Defs(edf, n, 0)
    requires NoNewZeros(t.nodeEventTable, t'.nodeEventTable)
    ensures ReadOnce(t', edf, n + 1)
  {
    assert t'.parsed[n] == Defs(edf, n, 0);
  }

  /** Open one trace: its first record, or nothing when it is empty. */
  method OpenTrace(file: TraceFile, offset: int, capacity: nat) returns (outcome: Outcome, s: Source?, ghost created: set<object>)
    requires file.pos == 0 && capacity > 0
    modifies file`pos
    ensures outcome.Got? <==> s != null
    ensures outcome.Got? ==> file.records != [] && s.Standing(file.records, 0) && s.addOffset == offset
    ensures fresh(created) && (outcome.Got? ==> s.Footprint() == created + {file})
    ensures outcome.AtEnd? ==> file.records == [] && !file.torn
    ensures outcome.ReadError? ==> file.torn
  {
    var reader := new Reader(file, capacity);
    outcome := reader.NextRecord();
    if outcome.Got? {
      s := new Source(reader, offset);
      created := {s, reader, reader.buffer};
    } else {
      s, created := null, {};
    }
  }

  lemma {:induction false} StartedSound(edf: EdfFiles, n: nat, nodes: nat)
    requires n <= nodes
    ensures Sound(Started(edf, n, nodes))
    decreases n
  {
    if n > 0 {
      StartedSound(edf, n - 1, nodes);
      LinesSound(Started(edf, n - 1, nodes), n - 1, Defs(edf, n - 1, 0));
    }
  }

  lemma StartedNoZeros(edf: EdfFiles, n: nat, nodes: nat)
    requires 0 < n <= nodes
    ensures NoNewZeros(Started(edf, n - 1, nodes).nodeEventTable, Started(edf, n, nodes).nodeEventTable)
  {
    StartedSound(edf, n - 1, nodes);
    LinesSound(Started(edf, n - 1, nodes), n - 1, Defs(edf, n - 1, 0));
  }

  lemma {:induction false} StartedReadOnce(edf: EdfFiles, n: nat, nodes: nat)
    requires n <= nodes
    ensures ReadOnce(Started(edf, n, nodes), edf, n)
    decreases n
  {
    if n > 0 {
      StartedReadOnce(edf, n - 1, nodes);
      StartedNoZeros(edf, n, nodes);
      var t := Started(edf, n - 1, nodes);
      LinesLogged(t, n - 1, Defs(edf, n - 1, 0));
      ReadOneMore(t, edf, n - 1, Started(edf, n, nodes));
    }
  }

  /** Parse the event file of the trace just opened. */
  method ParseNext(table: EventTable, edf: EdfFiles, n: nat, ghost nodes: nat) returns (ok: bool)
    requires ParsedOnce(table, edf, n, nodes) && n < nodes
    modifies table
    ensures ok ==> ParsedOnce(table, edf, n + 1, nodes)
    ensures !ok ==> !edf(n, 0).Entries?
  {
    assert |table.Value().parsed| == |table.Value().nodeEventTable| == nodes;
    ok := table.ParseEdfFile(n, edf(n, 0));
  }

  ghost predicate GivesUp(files: seq<TraceFile>, edf: EdfFiles) {
    || Kept(files) == []
    || (exists k :: 0 <= k < |files| && files[k].torn)
    || (exists i: nat, t: nat :: i < |Kept(files)| && !edf(i, t).Entries?)
  }

  /** A non-empty, untorn trace to merge, and event files that can be parsed as first read. */
  ghost predicate Usable(files: seq<TraceFile>, edf: EdfFiles) {
    && Kept(files) != [] && (forall k :: 0 <= k < |files| ==> !files[k].torn)
    && (forall i :: 0 <= i < |Kept(files)| ==> edf(i, 0).Entries?)
  }

  /** Event files that are not rewritten while the merger runs. */
  ghost predicate Finished(edf: EdfFiles) { forall i: nat, t: nat :: edf(i, t) == edf(i, 0) }

  /** With finished event files the reasons to give up are exactly the ways the input is unusable. */
  lemma GivesUpIffUnusable(files: seq<TraceFile>, edf: EdfFiles)
    requires Finished(edf)
    ensures GivesUp(files, edf) <==> !Usable(files, edf)
  {
    if i: nat, t: nat :| i < |Kept(files)| && !edf(i, t).Entries? {
      assert edf(i, t) == edf(i, 0);
    }
  }

  lemma {:induction false} KeptGrows(files: seq<TraceFile>, n: nat)
    requires n <= |files|
    ensures |Kept(files[..n])| <= |Kept(files)|
    decreases |files| - n
  {
    if n < |files| {
      KeptGrows(files, n + 1);
      assert files[..n + 1][..n] == files[..n];
    } else {
      assert files[..n] == files;
    }
  }

  /** Every file with records is kept, behind the kept ones before it, with its offset ... */
  lemma {:induction false} KeptHolds(files: seq<TraceFile>, offsets: seq<int>, i: nat)
    requires |offsets| == |files| && i < |files| && files[i].records != []
    ensures |Kept(files)| == |KeptOffsets(files, offsets)|
    ensures var at := |Kept(files[..i])|;
            && at < |Kept(files)| && Kept(files)[at] == files[i].records
            && KeptOffsets(files, offsets)[at] == offsets[i]
    decreases |files|
  {
    var n := |files| - 1;
    KeptTogether(files[..n], offsets[..n]);
    if i < n {
      KeptHolds(files[..n], offsets[..n], i);
      assert files[..n][..i] == files[..i];
    }
  }

  lemma {:induction false} KeptTogether(files: seq<TraceFile>, offsets: seq<int>)
    requires |offsets| == |files|
    ensures |Kept(files)| == |KeptOffsets(files, offsets)|
    decreases |files|
  {
    if files != [] {
      KeptTogether(files[..|files| - 1], offsets[..|files| - 1]);
    }
  }

  /** ... and nothing else is kept. */
  lemma {:induction false} KeptOnly(files: seq<TraceFile>, j: nat) returns (i: nat)
    requires j < |Kept(files)|
    ensures i < |files| && files[i].records != [] && Kept(files)[j] == files[i].records && |Kept(files[..i])| == j
    decreases |files|
  {
    var n := |files| - 1;
    if j < |Kept(files[..n])| {
      i := KeptOnly(files[..n], j);
      assert files[..n][..i] == files[..i];
    } else {
      i := n;
    }
  }

  /** The event file of a trace that is kept is one of those that matter. */
  lemma BadEventFile(files: seq<TraceFile>, edf: EdfFiles, i: nat)
    requires i < |files| && files[i].records != [] && !edf(|Kept(files[..i])|, 0).Entries?
    ensures GivesUp(files, edf)
  {
    KeptGrows(files, i + 1);
    assert files[..i + 1][..i] == files[..i];
  }

  lemma ObjectsSnoc(sources: seq<Source>, s: Source)
    ensures Objects(sources + [s]) == Objects(sources) + s.Footprint()
  {
    var more := sources + [s];
    forall o
      ensures o in Objects(more) <==> o in Objects(sources) + s.Footprint()
    {
      if o in Objects(sources) {
        var i :| 0 <= i < |sources| && o in sources[i].Footprint();
        assert o in more[i].Footprint();
      }
      if o in s.Footprint() {
        assert o in more[|sources|].Footprint();
      }
    }
  }

  lemma ApartSnoc(sources: seq<Source>, s: Source)
    requires PairwiseApart(sources) && s.Footprint() !! Objects(sources)
    ensures PairwiseApart(sources + [s])
  {
    forall i | 0 <= i < |sources|
      ensures sources[i].Footprint() !! s.Footprint()
    {
      assert sources[i].Footprint() <= Objects(sources);
    }
  }

  lemma AddSource(sources: seq<Source>, traces: seq<seq<Record>>, offsets: seq<int>, s: Source, trace: seq<Record>)
    requires Opened(sources, traces, offsets) && PairwiseApart(sources)
    requires trace != [] && s.Standing(trace, 0) && s.Footprint() !! Objects(sources)
    ensures Opened(sources + [s], traces + [trace], offsets + [s.addOffset]) && PairwiseApart(sources + [s])
    ensures Objects(sources + [s]) == Objects(sources) + s.Footprint()
  {
    ObjectsSnoc(sources, s);
    ApartSnoc(sources, s);
  }

  ghost function FilesOf(files: seq<TraceFile>, n: nat): set<object>
    requires n <= |files|
  {
    set k | 0 <= k < n :: files[k]
  }

  /** Every descriptor reads one of the first n files. */
  ghost predicate ReadFrom(files: seq<TraceFile>, n: nat, sources: seq<Source>)
    requires n <= |files|
  {
    forall i :: 0 <= i < |sources| ==> sources[i].reader.fd in files[..n]
  }

  ghost predicate OpenIn(file: TraceFile, sources: seq<Source>) {
    exists i :: 0 <= i < |sources| && sources[i].reader.fd == file
  }

  /** A torn file is noticed when it is opened unless it has whole records to be read first. */
  ghost predicate TornAreOpen(files: seq<TraceFile>, n: nat, sources: seq<Source>)
    requires n <= |files|
  {
    forall k :: 0 <= k < n && files[k].torn ==> OpenIn(files[k], sources)
  }

  lemma StillOpen(files: seq<TraceFile>, n: nat, sources: seq<Source>, more: seq<Source>)
    requires n < |files| && TornAreOpen(files, n, sources) && ReadFrom(files, n, sources) && sources <= more
    requires files[n].torn ==> OpenIn(files[n], more)
    requires forall i :: |sources| <= i < |more| ==> more[i].reader.fd == files[n]
    ensures TornAreOpen(files, n + 1, more) && ReadFrom(files, n + 1, more)
  {
    assert files[..n + 1] == files[..n] + [files[n]];
    forall i | 0 <= i < |more|
      ensures more[i].reader.fd in files[..n + 1]
    {
      assert i < |sources| ==> more[i] == sources[i];
    }
    forall k | 0 <= k < n && files[k].torn
      ensures OpenIn(files[k], more)
    {
      var i :| 0 <= i < |sources| && sources[i].reader.fd == files[k];
      assert more[i].reader.fd == files[k];
    }
  }

  /** The state of the opening loop after n files. */
  ghost predicate SoFar(files: seq<TraceFile>, offsets: seq<int>, n: nat, sources: seq<Source>)
    requires n <= |files| == |offsets|
    reads Objects(sources)
  {
    && Opened(sources, Kept(files[..n]), KeptOffsets(files[..n], offsets[..n])) && PairwiseApart(sources)
    && TornAreOpen(files, n, sources) && ReadFrom(files, n, sources)
  }

  lemma OneMoreOpen(files: seq<TraceFile>, offsets: seq<int>, n: nat, sources: seq<Source>, s: Source)
    requires n < |files| == |offsets| && SoFar(files, offsets, n, sources)
    requires files[n].records != [] && s.Standing(files[n].records, 0)
    requires s.addOffset == offsets[n] && s.reader.fd == files[n] && s.Footprint() !! Objects(sources)
    ensures SoFar(files, offsets, n + 1, sources + [s])
    ensures Objects(sources + [s]) == Objects(sources) + s.Footprint()
  {
    KeptSnoc(files, offsets, n);
    AddSource(sources, Kept(files[..n]), KeptOffsets(files[..n], offsets[..n]), s, files[n].records);
    assert (sources + [s])[|sources|].reader.fd == files[n];
    StillOpen(files, n, sources, sources + [s]);
  }

  lemma OneMoreEmpty(files: seq<TraceFile>, offsets: seq<int>, n: nat, sources: seq<Source>)
    requires n < |files| == |offsets| && SoFar(files, offsets, n, sources)
    requires files[n].records == [] && !files[n].torn
    ensures SoFar(files, offsets, n + 1, sources)
  {
    KeptSnoc(files, offsets, n);
    StillOpen(files, n, sources, sources);
    assert Kept(files[..n + 1]) == Kept(files[..n]);
    assert KeptOffsets(files[..n + 1], offsets[..n + 1]) == KeptOffsets(files[..n], offsets[..n]);
  }

  /** Open one trace and parse its event file. */
  method OpenAndParse(file: TraceFile, offset: int, capacity: nat, table: EventTable, edf: EdfFiles, n: nat, ghost nodes: nat)
    returns (outcome: Outcome, s: Source?, ghost created: set<object>)
    requires capacity > 0 && file.pos == 0
    requires ParsedOnce(table, edf, n, nodes) && n < nodes
    modifies file`pos, table
    ensures !outcome.ReadError? ==> (outcome.Got? <==> s != null)
    ensures outcome.Got? ==> file.records != [] && s.Standing(file.records, 0)
    ensures outcome.Got? ==> s.addOffset == offset && s.reader.fd == file && s.Footprint() == created + {file}
    ensures outcome.Got? ==> ParsedOnce(table, edf, n + 1, nodes)
    ensures outcome.AtEnd? ==> file.records == [] && !file.torn && ParsedOnce(table, edf, n, nodes)
    ensures fresh(created)
    ensures outcome.ReadError? ==> file.torn || (file.records != [] && !edf(n, 0).Entries?)
  {
    outcome, s, created := OpenTrace(file, offset, capacity);
    if outcome.Got? {
      var parsed := ParseNext(table, edf, n, nodes);
      if !parsed {
        outcome := ReadError;
      }
    }
  }

  /** The descriptors opened for the first n files, with the objects they live in. */
  ghost predicate Opening(files: seq<TraceFile>, offsets: seq<int>, n: nat, sources: seq<Source>, objects: set<object>)
    requires n <= |files| == |offsets|
    reads objects
    decreases n
  {
    if n == 0 then sources == [] && objects == {}
    else if files[n - 1].records == [] then !files[n - 1].torn && Opening(files, offsets, n - 1, sources, objects)
    else
      && sources != []
      && var s := sources[|sources| - 1];
         && s.Footprint() <= objects
         && s.Standing(files[n - 1].records, 0) && s.addOffset == offsets[n - 1] && s.reader.fd == files[n - 1]
         && Opening(files, offsets, n - 1, sources[..|sources| - 1], objects - s.Footprint())
  }

  lemma SoFarOpened(files: seq<TraceFile>, offsets: seq<int>, n: nat, front: seq<Source>, before: set<object>,
                    s: Source, sources: seq<Source>, objects: set<object>)
    requires 0 < n <= |files| == |offsets| && Objects(front) == before && SoFar(files, offsets, n - 1, front)
    requires files[n - 1].records != [] && s.Standing(files[n - 1].records, 0)
    requires s.addOffset == offsets[n - 1] && s.reader.fd == files[n - 1] && s.Footprint() !! before
    requires sources == front + [s] && objects == before + s.Footprint()
    ensures Objects(sources) == objects && SoFar(files, offsets, n, sources)
  {
    OneMoreOpen(files, offsets, n - 1, front, s);
  }

  lemma {:induction false} OpeningIsSoFar(files: seq<TraceFile>, offsets: seq<int>, n: nat, sources: seq<Source>, objects: set<object>)
    requires n <= |files| == |offsets| && Opening(files, offsets, n, sources, objects)
    ensures Objects(sources) == objects && SoFar(files, offsets, n, sources)
    decreases n
  {
    if n > 0 {
      if files[n - 1].records == [] {
        OpeningIsSoFar(files, offsets, n - 1, sources, objects);
        OneMoreEmpty(files, offsets, n - 1, sources);
      } else {
        var front, s := sources[..|sources| - 1], sources[|sources| - 1];
        OpeningIsSoFar(files, offsets, n - 1, front, objects - s.Footprint());
        assert sources == front + [s];
        SoFarOpened(files, offsets, n, front, objects - s.Footprint(), s, sources, objects);
      }
    }
  }

  /** The state after one more file, empty or opened. */
  lemma NextOpening(files: seq<TraceFile>, offsets: seq<int>, i: nat, sources: seq<Source>, objects: set<object>,
                    s: Source?, more: seq<Source>, objects': set<object>)
    requires i < |files| == |offsets| && Opening(files, offsets, i, sources, objects)
    requires s == null ==> files[i].records == [] && !files[i].torn && more == sources && objects' == objects
    requires s != null ==>
               && files[i].records != [] && s.Standing(files[i].records, 0)
               && s.addOffset == offsets[i] && s.reader.fd == files[i] && s.Footprint() !! objects
               && more == sources + [s] && objects' == objects + s.Footprint()
    ensures Opening(files, offsets, i + 1, more, objects')
  {
    if s != null {
      assert more[..|more| - 1] == sources;
      assert objects' - s.Footprint() == objects;
    }
  }

  lemma WhyNotOpened(files: seq<TraceFile>, offsets: seq<int>, edf: EdfFiles, i: nat, sources: seq<Source>, objects: set<object>)
    requires i < |files| == |offsets| && Opening(files, offsets, i, sources, objects)
    ensures files[i].torn || (files[i].records != [] && !edf(|sources|, 0).Entries?) ==> GivesUp(files, edf)
  {
    OpeningIsSoFar(files, offsets, i, sources, objects);
    if !files[i].torn && files[i].records != [] && !edf(|sources|, 0).Entries? {
      BadEventFile(files, edf, i);
    }
  }

  /** One round of the opening loop. */
  method OpenNext(files: seq<TraceFile>, offsets: seq<int>, i: nat, capacity: nat, table: EventTable, edf: EdfFiles,
                  sources: seq<Source>, ghost objects: set<object>)
    returns (ok: bool, more: seq<Source>, ghost created: set<object>, ghost objects': set<object>)
    requires i < |files| == |offsets| && capacity > 0 && files[i].pos == 0
    requires Opening(files, offsets, i, sources, objects) && files[i] !in objects && table !in objects
    requires ParsedOnce(table, edf, |sources|, |files|) && |sources| < |files|
    modifies files[i], table
    ensures fresh(created) && objects' <= objects + {files[i]} + created
    ensures ok ==> Opening(files, offsets, i + 1, more, objects')
    ensures ok ==> |sources| <= |more| <= |sources| + 1
    ensures ok ==> ParsedOnce(table, edf, |more|, |files|)
    ensures !ok ==> GivesUp(files, edf)
  {
    more, objects' := sources, objects;
    WhyNotOpened(files, offsets, edf, i, sources, objects);
    var outcome, s;
    outcome, s, created := OpenAndParse(files[i], offsets[i], capacity, table, edf, |sources|, |files|);
    ghost var still := Opening(files, offsets, i, sources, objects);
    assert still;
    ok := !outcome.ReadError?;
    if ok {
      if s != null {
        more, objects' := sources + [s], objects + s.Footprint();
      }
      NextOpening(files, offsets, i, sources, objects, s, more, objects');
    }
  }

  ghost predicate NotYetRead(files: seq<TraceFile>, i: nat)
    reads files
  {
    forall k :: i <= k < |files| ==> files[k].pos == 0
  }

  ghost predicate Distinct(files: seq<TraceFile>) { forall i, j :: 0 <= i < j < |files| ==> files[i] != files[j] }

  ghost predicate OpenState(files: seq<TraceFile>, offsets: seq<int>, n: nat, table: EventTable, edf: EdfFiles,
                            sources: seq<Source>, objects: set<object>, mine: set<object>)
    requires n <= |files| == |offsets|
    reads files, objects, table
  {
    && Opening(files, offsets, n, sources, objects) && NotYetRead(files, n) && objects <= FilesOf(files, n) + mine
    && |sources| <= n && ParsedOnce(table, edf, |sources|, |files|)
  }

  lemma NotMine(files: seq<TraceFile>, i: nat, objects: set<object>, mine: set<object>, table: EventTable)
    requires i < |files| && Distinct(files) && objects <= FilesOf(files, i) + mine
    requires mine !! FilesOf(files, |files|) + {table}
    ensures files[i] !in objects && table !in objects
  {
    assert files[i] in FilesOf(files, |files|) && files[i] !in FilesOf(files, i);
  }

  lemma OneFileMore(files: seq<TraceFile>, i: nat, objects: set<object>, mine: set<object>, created: set<object>, objects': set<object>)
    requires i < |files| && objects <= FilesOf(files, i) + mine && objects' <= objects + {files[i]} + created
    ensures objects' <= FilesOf(files, i + 1) + (mine + created)
  {
    assert FilesOf(files, i + 1) == FilesOf(files, i) + {files[i]};
  }

  /** A round with what the loop keeps about objects and about the files still to come. */
  method OpenRound(files: seq<TraceFile>, offsets: seq<int>, i: nat, capacity: nat, table: EventTable, edf: EdfFiles,
                   sources: seq<Source>, ghost objects: set<object>, ghost mine: set<object>)
    returns (ok: bool, more: seq<Source>, ghost objects': set<object>, ghost mine': set<object>)
    requires i < |files| == |offsets| && capacity > 0 && Distinct(files)
    requires OpenState(files, offsets, i, table, edf, sources, objects, mine)
    requires mine !! FilesOf(files, |files|) + {table}
    modifies files[i], table
    ensures mine <= mine' && fresh(mine' - mine)
    ensures ok ==> OpenState(files, offsets, i + 1, table, edf, more, objects', mine')
    ensures !ok ==> GivesUp(files, edf)
  {
    ghost var created;
    NotMine(files, i, objects, mine, table);
    ok, more, created, objects' := OpenNext(files, offsets, i, capacity, table, edf, sources, objects);
    mine' := mine + created;
    OneFileMore(files, i, objects, mine, created, objects');
  }

  /** The opening loop of the main program. */
  method OpenTraces(files: seq<TraceFile>, offsets: seq<int>, capacity: nat, table: EventTable, edf: EdfFiles)
    returns (ok: bool, sources: seq<Source>, ghost created: set<object>, ghost objects: set<object>)
    requires |offsets| == |files| && capacity > 0 && Distinct(files) && NotYetRead(files, 0)
    requires ParsedOnce(table, edf, 0, |files|)
    modifies files, table
    ensures fresh(created)
    ensures ok ==> OpenState(files, offsets, |files|, table, edf, sources, objects, created)
    ensures !ok ==> GivesUp(files, edf)
  {
    sources, created, objects := [], {}, {};
    ok := true;
    for i := 0 to |files|
      invariant ok && fresh(created) && OpenState(files, offsets, i, table, edf, sources, objects, created)
    {
      ok, sources, objects, created := OpenRound(files, offsets, i, capacity, table, edf, sources, objects, created);
      if !ok {
        return;
      }
    }
  }

  // ---------- the whole program ----------

  lemma CountNames(table: EventTable)
    requires Sound(table.Value())
    ensures |table.names| == |table.eventNameMap|
  {
    var names, stored := table.names, table.eventNameMap;
    forall i, j | 0 <= i < j < |names|
      ensures names[i] != names[j]
    {
      assert stored[names[i]].gid == i + 1 && stored[names[j]].gid == j + 1;
    }
    forall n
      ensures n in stored.Keys <==> n in names
    {
      if n in stored {
        assert names[stored[n].gid - 1] == n;
      }
    }
    CountDistinct(names, stored.Keys);
  }

  lemma NumberedByTable(table: EventTable)
    requires Sound(table.Value())
    ensures Numbered(table.eventNameMap, |table.eventNameMap|)
  {
    CountNames(table);
    var stored := table.eventNameMap;
    forall n, m | n in stored && m in stored && stored[n].gid == stored[m].gid
      ensures n == m
    {
      assert table.names[stored[n].gid - 1] == n && table.names[stored[m].gid - 1] == m;
    }
    forall g | 1 <= g <= |table.names|
      ensures HasId(table.eventNameMap, g)
    {
      assert table.names[g - 1] in table.eventNameMap;
    }
  }

  lemma MeansIsMeansInFile(table: EventTable, edf: EdfFiles, node: nat, local: int, g: int, step: nat)
    requires Sound(table.Value()) && Means(table.names, edf, node, local, g, step)
    ensures MeansInFile(table.eventNameMap, edf, node, local, g, step)
  {
    if g != 0 {
      assert table.names[g - 1] in table.eventNameMap;
    }
  }

  lemma TranslationIsFaithful(table: EventTable, edf: EdfFiles, traces: seq<seq<Record>>, offsets: seq<int>,
                              items: seq<Item>, recs: seq<Record>)
    requires Sound(table.Value()) && Translation(table.names, edf, traces, offsets, items, recs)
    ensures FaithfulOutput(table.eventNameMap, edf, traces, offsets, items, recs)
  {
    forall k | 0 <= k < |items|
      ensures var a := items[k];
              MeansInFile(table.eventNameMap, edf, a.src, traces[a.src][a.pos].ev, recs[k].ev, k + 1)
    {
      var a := items[k];
      assert Translated(table.names, edf, traces, offsets[a.src], items, k, recs[k]);
      MeansIsMeansInFile(table, edf, a.src, traces[a.src][a.pos].ev, recs[k].ev, k + 1);
    }
  }

  lemma WhyItGaveUp(files: seq<TraceFile>, sources: seq<Source>, edf: EdfFiles)
    requires ReadFrom(files, |files|, sources) && |sources| == |Kept(files)|
    requires || (exists i :: 0 <= i < |sources| && sources[i].reader.fd.torn)
             || (exists i: nat, t: nat :: i < |sources| && !edf(i, t).Entries?)
    ensures GivesUp(files, edf)
  {
    if i :| 0 <= i < |sources| && sources[i].reader.fd.torn {
      var k :| 0 <= k < |files| && files[k] == sources[i].reader.fd;
      assert files[k].torn;
    }
  }

  lemma NoneTorn(files: seq<TraceFile>, sources: seq<Source>)
    requires TornAreOpen(files, |files|, sources)
    requires forall i :: 0 <= i < |sources| ==> !sources[i].reader.fd.torn
    ensures forall k :: 0 <= k < |files| ==> !files[k].torn
  {
    forall k | 0 <= k < |files|
      ensures !files[k].torn
    {
      assert files[k].torn ==> OpenIn(files[k], sources);
    }
  }

  lemma KnowsAtStart(table: EventTable, edf: EdfFiles, n: nat, nodes: nat, traces: seq<seq<Record>>)
    requires ParsedOnce(table, edf, n, nodes)
    ensures Sound(table.Value()) && Knows(table.Value(), edf, n, traces, [])
  {
    StartedSound(edf, n, nodes);
    StartedReadOnce(edf, n, nodes);
    forall i | 0 <= i < n
      ensures FromVersions(edf, i, 0, table.parsed[i])
    {
      assert table.parsed[i] == Defs(edf, i, 0);
      forall l | NameOf(table.parsed[i], l).Some?
        ensures SeenBy(edf, i, 0, l, NameOf(table.parsed[i], l))
      {
        assert NameOf(Defs(edf, i, 0), l) == NameOf(table.parsed[i], l);
      }
    }
  }

  /** Set up the loop's state and run it. */
  method RunMerge(sources: seq<Source>, ghost traces: seq<seq<Record>>, ghost offsets: seq<int>, table: EventTable,
                  edf: EdfFiles, outmax: nat, ghost objects: set<object>, ghost nodes: nat)
    returns (ok: bool, output: seq<Record>, merged: map<string, EventDescr>, ghost items: seq<Item>)
    requires objects == Objects(sources) && table !in objects && outmax > 0
    requires Opened(sources, traces, offsets) && PairwiseApart(sources) && ParsedOnce(table, edf, |sources|, nodes)
    requires table.stored == table.eventNameMap
    modifies objects, table
    ensures ok ==> IsMerge(traces, items) && Numbered(merged, |merged|)
    ensures ok ==> FaithfulOutput(merged, edf, traces, offsets, items, output)
    ensures ok ==> DefinedBy(edf, |sources|, |items|, merged)
    ensures ok ==> forall i :: 0 <= i < |sources| ==> !sources[i].reader.fd.torn
    ensures !ok ==> || (exists i :: 0 <= i < |sources| && sources[i].reader.fd.torn)
                    || (exists i: nat, t: nat :: i < |sources| && !edf(i, t).Entries?)
  {
    var out := new OutputBuffer<Record>(outmax, Record(0, 0, 0, 0, 0));
    var merge := new Merge(sources, table, out, edf);
    assert merge.Offsets() == offsets;
    KnowsAtStart(table, edf, |sources|, nodes, traces);
    ok, items := merge.MergeRecords(traces);
    output, merged := [], table.stored;
    if ok {
      out.Flush();
      output := out.written;
      NumberedByTable(table);
      LogDefines(edf, |sources|, |items|, table.log, merged);
      TranslationIsFaithful(table, edf, traces, offsets, items, output);
    }
  }

  /**
   * The merger: either it completes, and then the output is the merge of the non-empty traces with
   * every record meaning what it meant, in terms of the merged event file; or it gives up, which
   * happens only for a torn trace file, an event file that cannot be parsed, or when there is nothing to merge.
   * When the event files do not change meanwhile, it completes exactly for the usable inputs.
   */
  method MergeTraces(files: seq<TraceFile>, offsets: seq<int>, inmax: nat, outmax: nat, edf: EdfFiles)
    returns (ok: bool, output: seq<Record>, merged: map<string, EventDescr>, ghost items: seq<Item>)
    requires |offsets| == |files| && inmax > 0 && outmax > 0 && Distinct(files) && NotYetRead(files, 0)
    modifies files
    ensures ok ==> IsMerge(Kept(files), items)
    ensures ok ==> FaithfulOutput(merged, edf, Kept(files), KeptOffsets(files, offsets), items, output)
    ensures ok ==> Numbered(merged, |merged|)
    ensures ok ==> DefinedBy(edf, |Kept(files)|, |items|, merged)
    ensures ok ==> Usable(files, edf)
    ensures !ok ==> GivesUp(files, edf)
    ensures Finished(edf) ==> (ok <==> Usable(files, edf))
  {
    output, merged, items := [], map[], [];
    if Finished(edf) {
      GivesUpIffUnusable(files, edf);
    }
    var table := new EventTable(|files|);
    var sources;
    ghost var created, objects;
    ok, sources, created, objects := OpenTraces(files, offsets, inmax, table, edf);
    if ok {
      ok, output, merged, items := MergeOpened(files, offsets, outmax, edf, table, sources, created, objects);
    }
  }

  lemma AllOpened(files: seq<TraceFile>, offsets: seq<int>, sources: seq<Source>, objects: set<object>)
    requires |files| == |offsets| && Opening(files, offsets, |files|, sources, objects)
    ensures Objects(sources) == objects && Opened(sources, Kept(files), KeptOffsets(files, offsets))
    ensures PairwiseApart(sources) && |sources| == |Kept(files)|
    ensures TornAreOpen(files, |files|, sources) && ReadFrom(files, |files|, sources)
  {
    OpeningIsSoFar(files, offsets, |files|, sources, objects);
    assert files[..|files|] == files && offsets[..|files|] == offsets;
  }

  /** The second half of the main program, on the open traces. */
  method MergeOpened(files: seq<TraceFile>, offsets: seq<int>, outmax: nat, edf: EdfFiles, table: EventTable,
                     sources: seq<Source>, ghost created: set<object>, ghost objects: set<object>)
    returns (ok: bool, output: seq<Record>, merged: map<string, EventDescr>, ghost items: seq<Item>)
    requires |offsets| == |files| && outmax > 0
    requires OpenState(files, offsets, |files|, table, edf, sources, objects, created) && table !in objects
    modifies objects, table
    ensures ok ==> IsMerge(Kept(files), items)
    ensures ok ==> FaithfulOutput(merged, edf, Kept(files), KeptOffsets(files, offsets), items, output)
    ensures ok ==> Numbered(merged, |merged|)
    ensures ok ==> DefinedBy(edf, |Kept(files)|, |items|, merged)
    ensures ok ==> Usable(files, edf)
    ensures !ok ==> GivesUp(files, edf)
  {
    output, merged, items := [], map[], [];
    AllOpened(files, offsets, sources, objects);
    table.StoreMergedEdfFile();
    ok := |sources| >= 1;
    if ok {
      ghost var traces, kept := Kept(files), KeptOffsets(files, offsets);
      ok, output, merged, items := RunMerge(sources, traces, kept, table, edf, outmax, objects, |files|);
      if ok {
        NoneTorn(files, sources);
      } else {
        WhyItGaveUp(files, sources, edf);
      }
    }
  }
}
