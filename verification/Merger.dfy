/**
 * The merger's main program: open the traces, parse their event files, and run the
 * merge loop to the end.
 */
module Merger {
  import opened TraceReader
  import opened MergeSpec
  import opened EventTable
  import opened OutputBuffer
  import opened TraceMerge
  import opened Meaning

  /** The loop's books: the merge invariant, and active counting the traces still open. */
  ghost predicate Progress(traces: seq<seq<Record>>, items: seq<Item>, cur: seq<nat>, active: int) {
    Cursors(traces, cur) && Merging(traces, items, cur) && active == OpenTraces(traces, cur)
  }

  lemma ProgressRound(traces: seq<seq<Record>>, items: seq<Item>, cur: seq<nat>, active: int, src: nat)
    requires Progress(traces, items, cur, active) && IsMinimal(traces, cur, src)
    ensures var next := NextEmitted(traces[src], cur[src]);
            var active' := if next == |traces[src]| then active - 1 else active;
            && Progress(traces, items + [Item(src, cur[src])], cur[src := next], active')
            && 0 <= Unread(traces, cur[src := next]) < Unread(traces, cur)
  {
    var next := NextEmitted(traces[src], cur[src]);
    MergeRound(traces, items, cur, src);
    CursorMoves(traces, cur, src, next);
    OpenTracesPositive(traces, cur[src := next]);
  }

  // ---------- counting open traces ----------

  /** Number of traces that still have a current record. */
  ghost function OpenTraces(traces: seq<seq<Record>>, cur: seq<nat>): nat
    requires |cur| == |traces|
  {
    if cur == [] then 0
    else
      var n := |cur| - 1;
      OpenTraces(traces[..n], cur[..n]) + (if cur[n] < |traces[n]| then 1 else 0)
  }

  /** Number of records behind the cursors. */
  ghost function Unread(traces: seq<seq<Record>>, cur: seq<nat>): int
    requires |cur| == |traces|
  {
    if cur == [] then 0
    else
      var n := |cur| - 1;
      Unread(traces[..n], cur[..n]) + |traces[n]| - cur[n]
  }

  lemma {:induction false} CursorMoves(traces: seq<seq<Record>>, cur: seq<nat>, src: nat, next: nat)
    requires |cur| == |traces| && src < |cur| && cur[src] < next <= |traces[src]|
    ensures var cur' := cur[src := next];
            && Unread(traces, cur') < Unread(traces, cur)
            && OpenTraces(traces, cur') == OpenTraces(traces, cur) - (if next < |traces[src]| then 0 else 1)
    decreases |cur|
  {
    var n := |cur| - 1;
    var cur' := cur[src := next];
    if src == n {
      assert cur'[..n] == cur[..n];
    } else {
      assert cur'[..n] == cur[..n][src := next];
      CursorMoves(traces[..n], cur[..n], src, next);
    }
  }

  lemma {:induction false} OpenTracesPositive(traces: seq<seq<Record>>, cur: seq<nat>)
    requires |cur| == |traces| && forall i :: 0 <= i < |cur| ==> cur[i] <= |traces[i]|
    ensures OpenTraces(traces, cur) > 0 <==> exists i :: 0 <= i < |cur| && cur[i] < |traces[i]|
    ensures Unread(traces, cur) >= 0
    decreases |cur|
  {
    if cur != [] {
      var n := |cur| - 1;
      OpenTracesPositive(traces[..n], cur[..n]);
      if i :| 0 <= i < |cur| && cur[i] < |traces[i]| {
        assert i == n || cur[..n][i] < |traces[..n][i]|;
      }
      if i :| 0 <= i < n && cur[..n][i] < |traces[..n][i]| {
        assert cur[i] < |traces[i]|;
      }
    }
  }

  lemma {:induction false} AllOpenAtStart(traces: seq<seq<Record>>, cur: seq<nat>)
    requires |cur| == |traces| && forall i :: 0 <= i < |cur| ==> cur[i] == 0 < |traces[i]|
    ensures OpenTraces(traces, cur) == |traces|
    decreases |cur|
  {
    if cur != [] {
      AllOpenAtStart(traces[..|cur| - 1], cur[..|cur| - 1]);
    }
  }

  // ---------- the running merge ----------

  ghost function Objects(sources: seq<Source>): set<object> {
    set i, o | 0 <= i < |sources| && o in sources[i].Footprint() :: o
  }

  ghost predicate SourceAt(s: Source, trace: seq<Record>, k: nat)
    reads s, s.reader, s.reader.fd, s.reader.buffer
  {
    if k < |trace| then s.Standing(trace, k) else s.Ended(trace)
  }

  class Merge {
    const sources: seq<Source>
    const table: EventTable
    const out: OutputBuffer<Record>
    const edf: EdfFiles

    constructor (sources: seq<Source>, table: EventTable, out: OutputBuffer<Record>, edf: EdfFiles)
      ensures this.sources == sources && this.table == table && this.out == out && this.edf == edf
    {
      this.sources, this.table, this.out, this.edf := sources, table, out, edf;
    }

    /** No two parts of the state share an object. */
    ghost predicate Apart() {
      && (forall i, j :: 0 <= i < |sources| && 0 <= j < |sources| && i != j ==>
            sources[i].Footprint() !! sources[j].Footprint())
      && table !in Objects(sources) && out !in Objects(sources) && out.buf !in Objects(sources)
      && this !in Objects(sources)
    }

    /** Every descriptor stands at its cursor. */
    ghost predicate At(traces: seq<seq<Record>>, cur: seq<nat>)
      reads Objects(sources)
    {
      && |sources| == |traces| && Cursors(traces, cur)
      && forall i :: 0 <= i < |sources| ==>
           assert sources[i].Footprint() <= Objects(sources);
           SourceAt(sources[i], traces[i], cur[i])
    }

    /** The table knows the nodes' event files as the look-ups for the items have read them. */
    ghost predicate TableAt(traces: seq<seq<Record>>, items: seq<Item>)
      reads table
    {
      && Sound(table.Value()) && table.stored == table.eventNameMap
      && Knows(table.Value(), edf, |sources|, traces, items)
    }

    ghost function Offsets(): seq<int> { seq(|sources|, i requires 0 <= i < |sources| => sources[i].addOffset) }

    /** The output is the translation of the items. */
    ghost predicate OutputIs(traces: seq<seq<Record>>, items: seq<Item>)
      reads table, out, out.buf
    {
      && out.Valid() && out.buf.Length > 0
      && Translation(table.names, edf, traces, Offsets(), items, out.Contents())
    }

    /** The state between two rounds. */
    ghost predicate Running(traces: seq<seq<Record>>, items: seq<Item>, cur: seq<nat>)
      reads Objects(sources), table, out, out.buf
    {
      At(traces, cur) && TableAt(traces, items) && OutputIs(traces, items)
    }

    /** The selection loop: the first open trace with the least (overflows, time). */
    method SelectSource(ghost traces: seq<seq<Record>>, ghost cur: seq<nat>) returns (source: nat)
      requires At(traces, cur)
      requires exists i :: 0 <= i < |sources| && cur[i] < |traces[i]|
      ensures IsMinimal(traces, cur, source)
    {
      var first := true;
      var minTime, minOver := 0, 0;
      source := 0;
      for i := 0 to |sources|
        invariant first ==> forall j :: 0 <= j < i ==> cur[j] == |traces[j]|
        invariant !first ==> source < i && cur[source] < |traces[source]|
        invariant !first ==> minOver == Overflows(traces[source], cur[source])
                             && minTime == traces[source][cur[source]].ti
        invariant !first ==> forall j :: 0 <= j < i && j != source && cur[j] < |traces[j]| ==>
                               Before(traces, Item(source, cur[source]), Item(j, cur[j]))
      {
        assert SourceAt(sources[i], traces[i], cur[i]);
        if sources[i].open {
          if first {
            minTime, minOver, source := sources[i].lasttime, sources[i].overflows, i;
            first := false;
          } else if sources[i].overflows < minOver {
            minTime, minOver, source := sources[i].lasttime, sources[i].overflows, i;
          } else if sources[i].overflows == minOver && sources[i].lasttime < minTime {
            minTime, source := sources[i].lasttime, i;
          }
        }
      }
    }

    /** Ask the table for the global id of a record's local id, with the event file as it is now. */
    method GlobalIdOf(source: nat, local: int, step: nat, ghost traces: seq<seq<Record>>, ghost items: seq<Item>, ghost a: Item)
      returns (gid: int, ok: bool)
      requires TableAt(traces, items) && source < |sources| && step == |items| + 1
      requires In(traces, a) && a.src == source && local == traces[a.src][a.pos].ev
      modifies table
      ensures ok ==> TableAt(traces, items + [a]) && Grows(old(table.Value()), table.Value())
      ensures ok ==> Means(table.names, edf, source, local, gid, step)
      ensures ok && gid == 0 ==> Lacked(edf, traces, items + [a], step, source, local)
      ensures !ok ==> !edf(source, step).Entries?
    {
      ghost var before := table.Value();
      gid, ok := table.GID(source, local, edf(source, step));
      if ok {
        GidSound(before, source, local, Defs(edf, source, step));
        GidKnows(before, edf, |sources|, traces, items, a);
        AnswerMeans(table.Value(), edf, |sources|, traces, items + [a], source, local, gid);
      }
    }

    /** Renumber the current record of the selected trace in place and make its output record. */
    method Renumbered(source: nat, gid: int, ghost traces: seq<seq<Record>>, ghost cur: seq<nat>) returns (native: Record)
      requires Apart() && At(traces, cur) && source < |sources| && cur[source] < |traces[source]|
      modifies Objects(sources)
      ensures sources[source].Reading(traces[source], cur[source]) && OthersAt(source, traces, cur)
      ensures var rec := traces[source][cur[source]];
              native == rec.(ev := gid, nid := (rec.nid + sources[source].addOffset) % 0x10000)
    {
      var s := sources[source];
      assert s.Footprint() <= Objects(sources);
      assert SourceAt(s, traces[source], cur[source]);
      s.Renumber(gid, traces[source], cur[source]);
      var erec := s.reader.window[s.reader.erec];
      native := Record(erec.ev, (erec.nid + s.addOffset) % 0x10000, erec.tid, erec.par, erec.ti);
      forall i | 0 <= i < |sources| && i != source
        ensures SourceAt(sources[i], traces[i], cur[i])
      {
        assert sources[i].Footprint() !! s.Footprint();
        assert old(SourceAt(sources[i], traces[i], cur[i]));
      }
    }

    /** The two ways the program gives up: a torn trace file, or an event file that cannot be parsed. */
    ghost predicate Unusable() {
      || (exists i :: 0 <= i < |sources| && sources[i].reader.fd.torn)
      || (exists i: nat, t: nat :: i < |sources| && !edf(i, t).Entries?)
    }

    /** All descriptors but one stand at their cursors. */
    ghost predicate OthersAt(source: nat, traces: seq<seq<Record>>, cur: seq<nat>)
      reads Objects(sources)
    {
      && |sources| == |traces| && Cursors(traces, cur)
      && forall i :: 0 <= i < |sources| && i != source ==>
           assert sources[i].Footprint() <= Objects(sources);
           SourceAt(sources[i], traces[i], cur[i])
    }

    /** Append a record to the output. */
    method Append(native: Record, ghost a: Item, ghost traces: seq<seq<Record>>, ghost items: seq<Item>)
      requires OutputIs(traces, items) && In(traces, a) && |sources| == |traces|
      requires Translated(table.names, edf, traces, sources[a.src].addOffset, items + [a], |items|, native)
      modifies out`outidx, out`written, out.buf
      ensures OutputIs(traces, items + [a])
    {
      ghost var recs := out.Contents();
      out.Output([native]);
      assert Offsets()[a.src] == sources[a.src].addOffset;
      TranslationSnoc(table.names, edf, traces, Offsets(), items, recs, a, native);
    }

    /** Look the current record's id up; the table may grow, which keeps everything said before. */
    method Identify(source: nat, local: int, step: nat, ghost traces: seq<seq<Record>>, ghost items: seq<Item>, ghost a: Item)
      returns (gid: int, ok: bool)
      requires TableAt(traces, items) && source < |sources| && step == |items| + 1 && OutputIs(traces, items)
      requires In(traces, a) && a.src == source && local == traces[a.src][a.pos].ev
      modifies table
      ensures ok ==> TableAt(traces, items + [a]) && OutputIs(traces, items)
      ensures ok ==> Means(table.names, edf, source, local, gid, step)
      ensures ok && gid == 0 ==> Lacked(edf, traces, items + [a], step, source, local)
      ensures !ok ==> Unusable()
    {
      ghost var names, recs := table.names, out.Contents();
      gid, ok := GlobalIdOf(source, local, step, traces, items, a);
      if ok {
        TranslationGrows(names, table.names, edf, traces, Offsets(), items, recs);
      }
    }

    /** Output the current record of the selected trace under its new id. */
    method EmitAs(source: nat, gid: int, ghost traces: seq<seq<Record>>, ghost items: seq<Item>, ghost cur: seq<nat>, ghost a: Item)
      requires Apart() && At(traces, cur) && source < |sources| && cur[source] < |traces[source]|
      requires OutputIs(traces, items) && a == Item(source, cur[source])
      requires Means(table.names, edf, source, traces[source][cur[source]].ev, gid, |items| + 1)
      requires gid == 0 ==> Lacked(edf, traces, items + [a], |items| + 1, source, traces[source][cur[source]].ev)
      modifies Objects(sources), out, out.buf
      ensures sources[source].Reading(traces[source], cur[source]) && OthersAt(source, traces, cur)
      ensures OutputIs(traces, items + [a])
    {
      ghost var output := OutputIs(traces, items);
      var native := Renumbered(source, gid, traces, cur);
      assert output == OutputIs(traces, items);
      ghost var others := OthersAt(source, traces, cur);
      ghost var reading := sources[source].Reading(traces[source], cur[source]);
      assert sources[source].Footprint() <= Objects(sources);
      Append(native, a, traces, items);
      assert others == OthersAt(source, traces, cur);
      assert reading == sources[source].Reading(traces[source], cur[source]);
    }

    /** Renumber and output the current record of the selected trace. */
    method EmitCurrent(source: nat, step: nat, ghost traces: seq<seq<Record>>, ghost items: seq<Item>, ghost cur: seq<nat>)
      returns (ok: bool)
      requires Apart() && At(traces, cur) && TableAt(traces, items) && OutputIs(traces, items) && step == |items| + 1
      requires source < |sources| && cur[source] < |traces[source]|
      modifies Objects(sources), table, out, out.buf
      ensures ok ==> sources[source].Reading(traces[source], cur[source])
      ensures ok ==> OthersAt(source, traces, cur)
      ensures ok ==> TableAt(traces, items + [Item(source, cur[source])])
      ensures ok ==> OutputIs(traces, items + [Item(source, cur[source])])
      ensures !ok ==> Unusable()
    {
      ghost var a := Item(source, cur[source]);
      var local := CurrentId(source, traces, cur);
      var gid;
      gid, ok := Identify(source, local, step, traces, items, a);
      if ok {
        ghost var at := At(traces, cur);
        assert at;
        EmitAs(source, gid, traces, items, cur, a);
      }
    }

    /** The id of the current record of a trace. */
    method CurrentId(source: nat, ghost traces: seq<seq<Record>>, ghost cur: seq<nat>) returns (local: int)
      requires At(traces, cur) && source < |sources| && cur[source] < |traces[source]|
      ensures local == traces[source][cur[source]].ev
    {
      assert sources[source].Footprint() <= Objects(sources);
      assert SourceAt(sources[source], traces[source], cur[source]);
      var reader := sources[source].reader;
      local := reader.window[reader.erec].ev;
    }

    /** Advance the selected trace to its next emitted record or its end. */
    method AdvanceSource(source: nat, ghost traces: seq<seq<Record>>, ghost cur: seq<nat>) returns (outcome: Outcome)
      requires Apart() && OthersAt(source, traces, cur) && source < |sources|
      requires cur[source] < |traces[source]| && sources[source].Reading(traces[source], cur[source])
      modifies Objects(sources)
      ensures !outcome.ReadError? ==> At(traces, cur[source := NextEmitted(traces[source], cur[source])])
      ensures outcome.AtEnd? ==> NextEmitted(traces[source], cur[source]) == |traces[source]|
      ensures outcome.Got? ==> NextEmitted(traces[source], cur[source]) < |traces[source]|
      ensures outcome.ReadError? ==> Unusable()
    {
      assert sources[source].Footprint() <= Objects(sources);
      outcome := sources[source].Advance(traces[source], cur[source]);
      ghost var cur' := cur[source := NextEmitted(traces[source], cur[source])];
      forall i | 0 <= i < |sources| && i != source
        ensures SourceAt(sources[i], traces[i], cur'[i])
      {
        assert sources[i].Footprint() !! sources[source].Footprint();
        assert old(SourceAt(sources[i], traces[i], cur[i]));
      }
    }

    /** One round of the merge loop. */
    method Round(step: nat, ghost traces: seq<seq<Record>>, ghost items: seq<Item>, ghost cur: seq<nat>)
      returns (outcome: Outcome, ghost source: nat)
      requires Apart() && Running(traces, items, cur)
      requires step == |items| + 1 && exists i :: 0 <= i < |sources| && cur[i] < |traces[i]|
      modifies Objects(sources), table, out, out.buf
      ensures IsMinimal(traces, cur, source)
      ensures !outcome.ReadError? ==>
                Running(traces, items + [Item(source, cur[source])], cur[source := NextEmitted(traces[source], cur[source])])
      ensures outcome.AtEnd? ==> NextEmitted(traces[source], cur[source]) == |traces[source]|
      ensures outcome.Got? ==> NextEmitted(traces[source], cur[source]) < |traces[source]|
      ensures outcome.ReadError? ==> Unusable()
    {
      var src, ok := EmitLeast(step, traces, items, cur);
      source := src;
      if ok {
        outcome := AdvanceRunning(src, traces, items + [Item(src, cur[src])], cur);
      } else {
        outcome := ReadError;
      }
    }

    /** Select a trace and output its current record. */
    method EmitLeast(step: nat, ghost traces: seq<seq<Record>>, ghost items: seq<Item>, ghost cur: seq<nat>)
      returns (source: nat, ok: bool)
      requires Apart() && Running(traces, items, cur)
      requires step == |items| + 1 && exists i :: 0 <= i < |sources| && cur[i] < |traces[i]|
      modifies Objects(sources), table, out, out.buf
      ensures IsMinimal(traces, cur, source) && |sources| == |traces|
      ensures ok ==> sources[source].Reading(traces[source], cur[source]) && OthersAt(source, traces, cur)
      ensures ok ==> TableAt(traces, items + [Item(source, cur[source])]) && OutputIs(traces, items + [Item(source, cur[source])])
      ensures !ok ==> Unusable()
    {
      source := SelectSource(traces, cur);
      ok := EmitCurrent(source, step, traces, items, cur);
    }

    /** Advance the trace; table and output do not notice. */
    method AdvanceRunning(source: nat, ghost traces: seq<seq<Record>>, ghost items: seq<Item>, ghost cur: seq<nat>)
      returns (outcome: Outcome)
      requires Apart() && OthersAt(source, traces, cur) && source < |sources|
      requires cur[source] < |traces[source]| && sources[source].Reading(traces[source], cur[source])
      requires TableAt(traces, items) && OutputIs(traces, items)
      modifies Objects(sources)
      ensures !outcome.ReadError? ==> Running(traces, items, cur[source := NextEmitted(traces[source], cur[source])])
      ensures outcome.AtEnd? ==> NextEmitted(traces[source], cur[source]) == |traces[source]|
      ensures outcome.Got? ==> NextEmitted(traces[source], cur[source]) < |traces[source]|
      ensures outcome.ReadError? ==> Unusable()
    {
      ghost var known, output := TableAt(traces, items), OutputIs(traces, items);
      outcome := AdvanceSource(source, traces, cur);
      assert known == TableAt(traces, items) && output == OutputIs(traces, items);
    }

    /** One round with the count of open descriptors kept up to date. */
    method CountedRound(step: nat, active: int, ghost traces: seq<seq<Record>>, ghost items: seq<Item>, ghost cur: seq<nat>)
      returns (outcome: Outcome, ghost source: nat, active': int)
      requires Apart() && Running(traces, items, cur)
      requires step == |items| + 1 && Progress(traces, items, cur, active) && active > 0
      modifies Objects(sources), table, out, out.buf
      ensures source < |cur| && cur[source] < |traces[source]|
      ensures !outcome.ReadError? ==>
                var cur' := cur[source := NextEmitted(traces[source], cur[source])];
                var items' := items + [Item(source, cur[source])];
                && Running(traces, items', cur')
                && Progress(traces, items', cur', active')
                && 0 <= Unread(traces, cur') < Unread(traces, cur)
      ensures outcome.ReadError? ==> Unusable()
    {
      OpenTracesPositive(traces, cur);
      outcome, source := Round(step, traces, items, cur);
      ProgressRound(traces, items, cur, active, source);
      active' := if outcome.AtEnd? then active - 1 else active;
    }

    /** The merge loop. */
    method MergeRecords(ghost traces: seq<seq<Record>>) returns (ok: bool, ghost items: seq<Item>)
      requires Apart() && |traces| == |sources|
      requires forall i :: 0 <= i < |sources| ==> traces[i] != [] && sources[i].Standing(traces[i], 0)
      requires TableAt(traces, []) && OutputIs(traces, [])
      modifies Objects(sources), table, out, out.buf
      ensures ok ==> IsMerge(traces, items) && OutputIs(traces, items)
      ensures ok ==> TableAt(traces, items)
      ensures ok ==> forall i :: 0 <= i < |sources| ==> sources[i].Ended(traces[i])
      ensures !ok ==> Unusable()
    {
      ghost var cur: seq<nat> := seq(|sources|, _ => 0);
      items := [];
      MergeStart(traces, cur);
      AllOpenAtStart(traces, cur);
      OpenTracesPositive(traces, cur);
      var active, step := |sources|, 1;
      while active > 0
        invariant Running(traces, items, cur) && Progress(traces, items, cur, active)
        invariant step == |items| + 1
        decreases Unread(traces, cur)
      {
        ghost var source;
        var outcome;
        outcome, source, active := CountedRound(step, active, traces, items, cur);
        if outcome.ReadError? {
          return false, items;
        }
        items, step := items + [Item(source, cur[source])], step + 1;
        cur := cur[source := NextEmitted(traces[source], cur[source])];
      }
      assert At(traces, cur);
      OpenTracesPositive(traces, cur);
      MergeEnd(traces, items, cur);
      forall i | 0 <= i < |sources|
        ensures sources[i].Ended(traces[i])
      {
        assert SourceAt(sources[i], traces[i], cur[i]);
      }
      ok := true;
    }
  }
}
