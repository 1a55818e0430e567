/**
 * What the renumbered output of a merge means: event files that may change while the merge is
 * running, the versions of them that look-ups have seen, and the table built from them.
 */
module Meaning {
  import opened TraceReader
  import opened MergeSpec
  import opened EventTable

  /**
   * What every node's event file comes to when it is read: version 0 when the trace is opened,
   * version k + 1 when the id of output record k is looked up.
   */
  type EdfFiles = (nat, nat) -> Parsed

  /** The definition lines of a version. */
  function Defs(edf: EdfFiles, node: nat, t: nat): seq<EdfEntry> {
    if edf(node, t).Entries? then edf(node, t).es else []
  }

  // ---------- the lines parsed for one node ----------

  ghost predicate SeenBy(edf: EdfFiles, node: nat, step: nat, local: int, name: Option<string>) {
    exists t :: 0 <= t <= step && NameOf(Defs(edf, node, t), local) == name
  }

  /** The lines parsed for a node so far are versions its file had, the first one included. */
  ghost predicate FromVersions(edf: EdfFiles, node: nat, step: nat, log: seq<EdfEntry>) {
    && (forall l :: NameOf(log, l).Some? ==> SeenBy(edf, node, step, l, NameOf(log, l)))
    && (forall l :: NameOf(Defs(edf, node, 0), l).Some? ==> NameOf(log, l).Some?)
  }

  lemma LaterVersion(edf: EdfFiles, node: nat, step: nat, later: nat, log: seq<EdfEntry>)
    requires FromVersions(edf, node, step, log) && step <= later
    ensures FromVersions(edf, node, later, log)
  {
    forall l | NameOf(log, l).Some?
      ensures SeenBy(edf, node, later, l, NameOf(log, l))
    {
      var t :| 0 <= t <= step && NameOf(Defs(edf, node, t), l) == NameOf(log, l);
    }
  }

  lemma ReadAgain(edf: EdfFiles, node: nat, step: nat, log: seq<EdfEntry>)
    requires FromVersions(edf, node, step, log)
    ensures FromVersions(edf, node, step, log + Defs(edf, node, step))
  {
    var more := Defs(edf, node, step);
    forall l
      ensures NameOf(log + more, l).Some? ==> SeenBy(edf, node, step, l, NameOf(log + more, l))
      ensures NameOf(Defs(edf, node, 0), l).Some? ==> NameOf(log + more, l).Some?
    {
      NameOfConcat(log, more, l);
    }
  }

  // ---------- meaning of an id ----------

  /**
   * A global id means what the local id meant: it has the name that some version of the node's event
   * file, up to the given one, gave the local id, and it is 0 only for an id that version 0 lacked.
   */
  ghost predicate Means(names: seq<string>, edf: EdfFiles, node: nat, local: int, g: int, step: nat) {
    if g == 0 then NameOf(Defs(edf, node, 0), local).None?
    else 1 <= g <= |names| && SeenBy(edf, node, step, local, Some(names[g - 1]))
  }

  lemma ResolvedMeans(names: seq<string>, edf: EdfFiles, node: nat, step: nat, log: seq<EdfEntry>, local: int, g: int)
    requires Resolves(names, g, NameOf(log, local)) && FromVersions(edf, node, step, log)
    ensures Means(names, edf, node, local, g, step)
  {
  }

  /** With event files that stay as they are, the id's name is exactly the file's name for the local id. */
  lemma MeansExactly(names: seq<string>, edf: EdfFiles, node: nat, local: int, g: int, step: nat)
    requires forall t: nat :: edf(node, t) == edf(node, 0)
    requires Means(names, edf, node, local, g, step)
    ensures Resolves(names, g, NameOf(Defs(edf, node, 0), local))
  {
    if g != 0 {
      var t: nat :| t <= step && NameOf(Defs(edf, node, t), local) == Some(names[g - 1]);
      assert edf(node, t) == edf(node, 0);
    }
  }

  /** Output record j is of the same trace with the same local id, and the version at its look-up lacks the id. */
  ghost predicate LackedAt(edf: EdfFiles, traces: seq<seq<Record>>, items: seq<Item>, j: nat, src: nat, local: int) {
    && j < |items| && In(traces, items[j]) && items[j].src == src
    && traces[src][items[j].pos].ev == local && NameOf(Defs(edf, src, j + 1), local).None?
  }

  ghost predicate Lacked(edf: EdfFiles, traces: seq<seq<Record>>, items: seq<Item>, n: nat, src: nat, local: int) {
    exists j :: 0 <= j < n && LackedAt(edf, traces, items, j, src, local)
  }

  lemma LackedGrows(edf: EdfFiles, traces: seq<seq<Record>>, items: seq<Item>, a: Item, n: nat, src: nat, local: int)
    requires Lacked(edf, traces, items, n, src, local)
    ensures Lacked(edf, traces, items + [a], n, src, local) && Lacked(edf, traces, items + [a], n + 1, src, local)
  {
    var j :| 0 <= j < n && LackedAt(edf, traces, items, j, src, local);
    assert LackedAt(edf, traces, items + [a], j, src, local);
  }

  /** The output record for item k: new id, offset node (16 bits wide), everything else as it was. */
  ghost predicate Translated(names: seq<string>, edf: EdfFiles, traces: seq<seq<Record>>, offset: int,
                             items: seq<Item>, k: nat, out: Record)
    requires k < |items| && In(traces, items[k])
  {
    var src, rec := items[k].src, traces[items[k].src][items[k].pos];
    && out == rec.(ev := out.ev, nid := (rec.nid + offset) % 0x10000)
    && Means(names, edf, src, rec.ev, out.ev, k + 1)
    && (out.ev == 0 ==> Lacked(edf, traces, items, k + 1, src, rec.ev))
  }

  ghost predicate Translation(names: seq<string>, edf: EdfFiles, traces: seq<seq<Record>>, offsets: seq<int>,
                              items: seq<Item>, recs: seq<Record>)
  {
    && |recs| == |items| && |offsets| == |traces|
    && forall k :: 0 <= k < |items| ==>
         In(traces, items[k]) && Translated(names, edf, traces, offsets[items[k].src], items, k, recs[k])
  }

  lemma MeansGrows(names: seq<string>, names': seq<string>, edf: EdfFiles, node: nat, local: int, g: int, step: nat)
    requires Means(names, edf, node, local, g, step) && names <= names'
    ensures Means(names', edf, node, local, g, step)
  {
    assert g != 0 ==> names'[g - 1] == names[g - 1];
  }

  /** Later names never change what earlier output means. */
  lemma TranslationGrows(names: seq<string>, names': seq<string>, edf: EdfFiles, traces: seq<seq<Record>>,
                         offsets: seq<int>, items: seq<Item>, recs: seq<Record>)
    requires Translation(names, edf, traces, offsets, items, recs) && names <= names'
    ensures Translation(names', edf, traces, offsets, items, recs)
  {
    forall k | 0 <= k < |items|
      ensures Translated(names', edf, traces, offsets[items[k].src], items, k, recs[k])
    {
      assert Translated(names, edf, traces, offsets[items[k].src], items, k, recs[k]);
      MeansGrows(names, names', edf, items[k].src, traces[items[k].src][items[k].pos].ev, recs[k].ev, k + 1);
    }
  }

  lemma TranslatedStays(names: seq<string>, edf: EdfFiles, traces: seq<seq<Record>>, offset: int,
                        items: seq<Item>, k: nat, out: Record, a: Item)
    requires k < |items| && In(traces, items[k]) && Translated(names, edf, traces, offset, items, k, out)
    ensures Translated(names, edf, traces, offset, items + [a], k, out)
  {
    if out.ev == 0 {
      LackedGrows(edf, traces, items, a, k + 1, items[k].src, traces[items[k].src][items[k].pos].ev);
    }
  }

  /** ... nor does later output. */
  lemma TranslationSnoc(names: seq<string>, edf: EdfFiles, traces: seq<seq<Record>>, offsets: seq<int>,
                        items: seq<Item>, recs: seq<Record>, a: Item, out: Record)
    requires Translation(names, edf, traces, offsets, items, recs) && In(traces, a)
    requires Translated(names, edf, traces, offsets[a.src], items + [a], |items|, out)
    ensures Translation(names, edf, traces, offsets, items + [a], recs + [out])
  {
    forall k | 0 <= k < |items|
      ensures Translated(names, edf, traces, offsets[items[k].src], items + [a], k, recs[k])
    {
      TranslatedStays(names, edf, traces, offsets[items[k].src], items, k, recs[k], a);
    }
  }

  // ---------- all lines parsed ----------

  /** The lines of the first n nodes' files as they were first read, in the order of the nodes. */
  ghost function AllDefs(edf: EdfFiles, n: nat): seq<EdfEntry> {
    if n == 0 then [] else AllDefs(edf, n - 1) + Defs(edf, n - 1, 0)
  }

  ghost predicate DefinedIn(edf: EdfFiles, n: nat, step: nat, name: string, e: Option<EdfEntry>) {
    exists i: nat, t: nat :: i < n && t <= step && FirstDef(Defs(edf, i, t), name) == e
  }

  /** A name's first definition is that of the files as first read; other names come from a later version. */
  ghost predicate LogOf(edf: EdfFiles, n: nat, step: nat, log: seq<EdfEntry>) {
    forall name ::
      if FirstDef(AllDefs(edf, n), name).Some? then FirstDef(log, name) == FirstDef(AllDefs(edf, n), name)
      else FirstDef(log, name).Some? ==> DefinedIn(edf, n, step, name, FirstDef(log, name))
  }

  lemma LogLater(edf: EdfFiles, n: nat, step: nat, log: seq<EdfEntry>)
    requires LogOf(edf, n, step, log)
    ensures LogOf(edf, n, step + 1, log)
  {
    forall name | FirstDef(AllDefs(edf, n), name).None? && FirstDef(log, name).Some?
      ensures DefinedIn(edf, n, step + 1, name, FirstDef(log, name))
    {
      assert DefinedIn(edf, n, step, name, FirstDef(log, name));
      var i: nat, t: nat :| i < n && t <= step && FirstDef(Defs(edf, i, t), name) == FirstDef(log, name);
    }
  }

  lemma LogGrows(edf: EdfFiles, n: nat, step: nat, log: seq<EdfEntry>, i: nat)
    requires LogOf(edf, n, step, log) && i < n
    ensures LogOf(edf, n, step, log + Defs(edf, i, step))
  {
    var more := Defs(edf, i, step);
    forall name
      ensures if FirstDef(AllDefs(edf, n), name).Some? then FirstDef(log + more, name) == FirstDef(AllDefs(edf, n), name)
              else FirstDef(log + more, name).Some? ==> DefinedIn(edf, n, step, name, FirstDef(log + more, name))
    {
      FirstDefConcat(log, more, name);
    }
  }

  // ---------- what the table knows ----------

  /** Every zero in the table was left behind by a look-up that found the file lacking the id. */
  ghost predicate Zeros(table: seq<map<int, int>>, edf: EdfFiles, traces: seq<seq<Record>>, items: seq<Item>) {
    forall i, l :: 0 <= i < |table| && l in table[i] && table[i][l] == 0 ==> Lacked(edf, traces, items, |items|, i, l)
  }

  /** The table after the look-ups for the items. */
  ghost predicate Knows(t: Tables, edf: EdfFiles, n: nat, traces: seq<seq<Record>>, items: seq<Item>) {
    && n <= |t.parsed|
    && (forall i :: 0 <= i < n ==> FromVersions(edf, i, |items|, t.parsed[i]))
    && LogOf(edf, n, |items|, t.log)
    && Zeros(t.nodeEventTable, edf, traces, items)
  }

  lemma ZerosAfterGid(t: Tables, edf: EdfFiles, traces: seq<seq<Record>>, items: seq<Item>, a: Item)
    requires Sound(t) && a.src < |t.parsed| && In(traces, a) && Zeros(t.nodeEventTable, edf, traces, items)
    ensures var local := traces[a.src][a.pos].ev;
            Zeros(AfterGid(t, a.src, local, Defs(edf, a.src, |items| + 1)).nodeEventTable, edf, traces, items + [a])
  {
    var local, current := traces[a.src][a.pos].ev, Defs(edf, a.src, |items| + 1);
    var after := AfterGid(t, a.src, local, current).nodeEventTable;
    GidSound(t, a.src, local, current);
    forall i, l | 0 <= i < |after| && l in after[i] && after[i][l] == 0
      ensures Lacked(edf, traces, items + [a], |items| + 1, i, l)
    {
      GidZeros(t, a.src, local, current, i, l);
      if l in t.nodeEventTable[i] && t.nodeEventTable[i][l] == 0 {
        LackedGrows(edf, traces, items, a, |items|, i, l);
      } else {
        assert LackedAt(edf, traces, items + [a], |items|, i, l);
      }
    }
  }

  lemma VersionsAfterGid(t: Tables, edf: EdfFiles, n: nat, step: nat, node: nat, local: int, i: nat)
    requires node < n <= |t.parsed| == |t.nodeEventTable| && i < n && FromVersions(edf, i, step, t.parsed[i])
    ensures FromVersions(edf, i, step + 1, AfterGid(t, node, local, Defs(edf, node, step + 1)).parsed[i])
  {
    LaterVersion(edf, i, step, step + 1, t.parsed[i]);
    GidReads(t, node, local, Defs(edf, node, step + 1));
    if i == node {
      ReadAgain(edf, node, step + 1, t.parsed[node]);
    }
  }

  lemma LogAfterGid(t: Tables, edf: EdfFiles, n: nat, step: nat, node: nat, local: int)
    requires node < n <= |t.parsed| == |t.nodeEventTable| && LogOf(edf, n, step, t.log)
    ensures LogOf(edf, n, step + 1, AfterGid(t, node, local, Defs(edf, node, step + 1)).log)
  {
    LogLater(edf, n, step, t.log);
    LogGrows(edf, n, step + 1, t.log, node);
    GidReads(t, node, local, Defs(edf, node, step + 1));
  }

  /** A look-up keeps the table knowing all that was read. */
  lemma GidKnows(t: Tables, edf: EdfFiles, n: nat, traces: seq<seq<Record>>, items: seq<Item>, a: Item)
    requires Sound(t) && Knows(t, edf, n, traces, items) && In(traces, a) && a.src < n
    ensures Knows(AfterGid(t, a.src, traces[a.src][a.pos].ev, Defs(edf, a.src, |items| + 1)), edf, n, traces, items + [a])
  {
    ZerosAfterGid(t, edf, traces, items, a);
    GidKnowsLines(t, edf, n, traces, items, a);
  }

  lemma GidKnowsLines(t: Tables, edf: EdfFiles, n: nat, traces: seq<seq<Record>>, items: seq<Item>, a: Item)
    requires Knows(t, edf, n, traces, items) && In(traces, a) && a.src < n && |t.parsed| == |t.nodeEventTable|
    ensures var t' := AfterGid(t, a.src, traces[a.src][a.pos].ev, Defs(edf, a.src, |items| + 1));
            && n <= |t'.parsed| && LogOf(edf, n, |items| + 1, t'.log)
            && forall i :: 0 <= i < n ==> FromVersions(edf, i, |items| + 1, t'.parsed[i])
  {
    var local := traces[a.src][a.pos].ev;
    var t' := AfterGid(t, a.src, local, Defs(edf, a.src, |items| + 1));
    GidReads(t, a.src, local, Defs(edf, a.src, |items| + 1));
    LogAfterGid(t, edf, n, |items|, a.src, local);
    forall i | 0 <= i < n
      ensures FromVersions(edf, i, |items| + 1, t'.parsed[i])
    {
      VersionsAfterGid(t, edf, n, |items|, a.src, local, i);
    }
  }

  /** What a table that knows all that was read answers means what the local id meant. */
  lemma AnswerMeans(t: Tables, edf: EdfFiles, n: nat, traces: seq<seq<Record>>, items: seq<Item>, src: nat, local: int, g: int)
    requires Knows(t, edf, n, traces, items) && src < n <= |t.nodeEventTable|
    requires local in t.nodeEventTable[src] && g == t.nodeEventTable[src][local]
    requires Resolves(t.names, g, NameOf(t.parsed[src], local))
    ensures Means(t.names, edf, src, local, g, |items|)
    ensures g == 0 ==> Lacked(edf, traces, items, |items|, src, local)
  {
    ResolvedMeans(t.names, edf, src, |items|, t.parsed[src], local, g);
  }
}
