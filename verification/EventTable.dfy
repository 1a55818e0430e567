/**
 * Unification of event ids: every distinct event name of all event files gets one
 * global id, and every (node, local id) is mapped to the id of its name.
 */
module EventTable {

  datatype Option<T> = None | Some(value: T)

  /** One line of an event definition file. */
  datatype EdfEntry = EdfEntry(localId: int, state: string, tag: int, name: string, param: string)

  /** What reading an event file comes to: its lines, an early end of the program, or a loop that never ends. */
  datatype Parsed = Entries(es: seq<EdfEntry>) | Corrupt | Endless

  datatype EventDescr = EventDescr(gid: int, state: string, tag: int, param: string)

  /** The name a log of definition lines gives a local id; a later line overrides an earlier one. */
  function NameOf(log: seq<EdfEntry>, local: int): Option<string> {
    if log == [] then None
    else if log[|log| - 1].localId == local then Some(log[|log| - 1].name)
    else NameOf(log[..|log| - 1], local)
  }

  lemma {:induction false} NameOfConcat(a: seq<EdfEntry>, b: seq<EdfEntry>, local: int)
    ensures NameOf(a + b, local) == if NameOf(b, local).Some? then NameOf(b, local) else NameOf(a, local)
    decreases |b|
  {
    if b == [] {
      assert a + b == a;
    } else {
      assert (a + b)[..|a + b| - 1] == a + b[..|b| - 1];
      NameOfConcat(a, b[..|b| - 1], local);
    }
  }

  /** The line that defines a name first. */
  function FirstDef(log: seq<EdfEntry>, name: string): Option<EdfEntry> {
    if log == [] then None
    else if FirstDef(log[..|log| - 1], name).Some? then FirstDef(log[..|log| - 1], name)
    else if log[|log| - 1].name == name then Some(log[|log| - 1])
    else None
  }

  lemma {:induction false} FirstDefConcat(a: seq<EdfEntry>, b: seq<EdfEntry>, name: string)
    ensures FirstDef(a + b, name) == if FirstDef(a, name).Some? then FirstDef(a, name) else FirstDef(b, name)
    decreases |b|
  {
    if b == [] {
      assert a + b == a;
    } else {
      assert (a + b)[..|a + b| - 1] == a + b[..|b| - 1];
      FirstDefConcat(a, b[..|b| - 1], name);
    }
  }

  lemma {:induction false} FirstDefNamed(log: seq<EdfEntry>, name: string)
    requires FirstDef(log, name).Some?
    ensures FirstDef(log, name).value in log && FirstDef(log, name).value.name == name
    decreases |log|
  {
    var front := log[..|log| - 1];
    if FirstDef(front, name).Some? {
      FirstDefNamed(front, name);
    }
  }

  /** The descriptor of every name is that of its first definition line. */
  ghost predicate FirstWins(eventNameMap: map<string, EventDescr>, log: seq<EdfEntry>) {
    forall n ::
      && (n in eventNameMap <==> FirstDef(log, n).Some?)
      && (n in eventNameMap ==>
            var d, e := eventNameMap[n], FirstDef(log, n).value;
            d.state == e.state && d.tag == e.tag && d.param == e.param)
  }

  lemma FirstWinsSnoc(m: map<string, EventDescr>, log: seq<EdfEntry>, e: EdfEntry, g: int)
    requires FirstWins(m, log)
    ensures FirstWins(if e.name in m then m else m[e.name := EventDescr(g, e.state, e.tag, e.param)], log + [e])
  {
    assert (log + [e])[..|log|] == log;
  }

  /** A node table entry is right when it holds the id of the name, or 0 for an unknown local id. */
  ghost predicate Resolves(names: seq<string>, g: int, name: Option<string>) {
    match name
    case None => g == 0
    case Some(n) => 1 <= g <= |names| && names[g - 1] == n
  }

  /** A node's table resolves every local id its lines defined, and maps other ids to 0 if at all. */
  ghost predicate NodeResolved(names: seq<string>, table: map<int, int>, log: seq<EdfEntry>) {
    && (forall l :: l in table ==> Resolves(names, table[l], NameOf(log, l)))
    && (forall l :: NameOf(log, l).Some? ==> l in table)
  }

  // ---------- the tables as a value ----------

  /** The name map, the next global id and the nodes' tables; and, for what is proved, the names in id order and all lines parsed. */
  datatype Tables = Tables(eventNameMap: map<string, EventDescr>, globalEventId: int, nodeEventTable: seq<map<int, int>>,
                           names: seq<string>, parsed: seq<seq<EdfEntry>>, log: seq<EdfEntry>)

  /** Ids are a bijection between the known names and 1 .. globalEventId - 1. */
  ghost predicate Bijective(t: Tables) {
    t.globalEventId == |t.names| + 1 && IdsAndNames(t.eventNameMap, t.names)
  }

  ghost predicate IdsAndNames(m: map<string, EventDescr>, names: seq<string>) {
    && (forall n :: n in m ==> 1 <= m[n].gid <= |names| && names[m[n].gid - 1] == n)
    && (forall k :: 0 <= k < |names| ==> names[k] in m && m[names[k]].gid == k + 1)
  }

  lemma NewName(m: map<string, EventDescr>, names: seq<string>, name: string, d: EventDescr)
    requires IdsAndNames(m, names) && name !in m && d.gid == |names| + 1
    ensures IdsAndNames(m[name := d], names + [name])
  {
    var m', names' := m[name := d], names + [name];
    forall n | n in m'
      ensures 1 <= m'[n].gid <= |names'| && names'[m'[n].gid - 1] == n
    {
      if n != name {
        assert m'[n] == m[n];
      }
    }
    forall k | 0 <= k < |names'|
      ensures names'[k] in m' && m'[names'[k]].gid == k + 1
    {
      if k < |names| {
        assert names'[k] == names[k];
      }
    }
  }

  /** Every node's table resolves every local id its files defined, and nothing else. */
  ghost predicate Resolved(t: Tables) {
    && |t.nodeEventTable| == |t.parsed|
    && forall node :: 0 <= node < |t.parsed| ==> NodeResolved(t.names, t.nodeEventTable[node], t.parsed[node])
  }

  ghost predicate Sound(t: Tables) {
    Bijective(t) && Resolved(t) && FirstWins(t.eventNameMap, t.log)
  }

  /** No name loses its descriptor or its id. */
  ghost predicate Grows(t: Tables, t': Tables) {
    && t.names <= t'.names && |t.parsed| == |t'.parsed|
    && forall n :: n in t.eventNameMap ==> n in t'.eventNameMap && t'.eventNameMap[n] == t.eventNameMap[n]
  }

  /** Zeros, which stand for unknown local ids: none are added. */
  ghost predicate NoNewZeros(before: seq<map<int, int>>, after: seq<map<int, int>>) {
    && |after| == |before|
    && forall n, l :: 0 <= n < |after| && l in after[n] && after[n][l] == 0 ==> l in before[n] && before[n][l] == 0
  }

  /** A name seen for the first time takes the next global id and the line's descriptor. */
  function WithName(t: Tables, e: EdfEntry): Tables {
    if e.name in t.eventNameMap then t
    else t.(eventNameMap := t.eventNameMap[e.name := EventDescr(t.globalEventId, e.state, e.tag, e.param)],
            globalEventId := t.globalEventId + 1, names := t.names + [e.name])
  }

  /** The node's local id now stands for the line's name. */
  function Bound(t: Tables, node: nat, e: EdfEntry): Tables
    requires node < |t.parsed| == |t.nodeEventTable| && e.name in t.eventNameMap
  {
    t.(nodeEventTable := t.nodeEventTable[node := t.nodeEventTable[node][e.localId := t.eventNameMap[e.name].gid]],
       parsed := t.parsed[node := t.parsed[node] + [e]], log := t.log + [e])
  }

  function AfterLine(t: Tables, node: nat, e: EdfEntry): Tables
    requires node < |t.parsed| == |t.nodeEventTable|
  {
    Bound(WithName(t, e), node, e)
  }

  function AfterLines(t: Tables, node: nat, es: seq<EdfEntry>): (r: Tables)
    requires node < |t.parsed| == |t.nodeEventTable|
    ensures |r.parsed| == |r.nodeEventTable| == |t.parsed|
  {
    if es == [] then t else AfterLine(AfterLines(t, node, es[..|es| - 1]), node, es[|es| - 1])
  }

  lemma MoreNamesResolve(names: seq<string>, names': seq<string>, table: map<int, int>, log: seq<EdfEntry>)
    requires NodeResolved(names, table, log) && names <= names'
    ensures NodeResolved(names', table, log)
  {
    assert forall k :: 0 <= k < |names| ==> names'[k] == names[k];
  }

  lemma WithNameBijective(t: Tables, e: EdfEntry)
    requires Bijective(t)
    ensures Bijective(WithName(t, e)) && Grows(t, WithName(t, e))
  {
    if e.name !in t.eventNameMap {
      NewName(t.eventNameMap, t.names, e.name, EventDescr(t.globalEventId, e.state, e.tag, e.param));
    }
  }

  lemma WithNameResolved(t: Tables, e: EdfEntry)
    requires Resolved(t)
    ensures Resolved(WithName(t, e))
  {
    var t' := WithName(t, e);
    forall node | 0 <= node < |t.parsed|
      ensures NodeResolved(t'.names, t.nodeEventTable[node], t.parsed[node])
    {
      MoreNamesResolve(t.names, t'.names, t.nodeEventTable[node], t.parsed[node]);
    }
  }

  lemma BindResolves(names: seq<string>, table: map<int, int>, log: seq<EdfEntry>, e: EdfEntry, g: int)
    requires NodeResolved(names, table, log) && Resolves(names, g, Some(e.name))
    ensures NodeResolved(names, table[e.localId := g], log + [e])
  {
    assert (log + [e])[..|log|] == log;
  }

  lemma BoundResolved(t: Tables, node: nat, e: EdfEntry)
    requires Bijective(t) && Resolved(t) && node < |t.parsed| && e.name in t.eventNameMap
    ensures Resolved(Bound(t, node, e)) && NoNewZeros(t.nodeEventTable, Bound(t, node, e).nodeEventTable)
  {
    BindResolves(t.names, t.nodeEventTable[node], t.parsed[node], e, t.eventNameMap[e.name].gid);
  }

  lemma BoundBijective(t: Tables, node: nat, e: EdfEntry)
    requires Bijective(t) && node < |t.parsed| == |t.nodeEventTable| && e.name in t.eventNameMap
    ensures Bijective(Bound(t, node, e)) && Grows(t, Bound(t, node, e))
  {
  }

  /** One definition line keeps everything sound, changes no name's descriptor, and adds no zero. */
  lemma LineSound(t: Tables, node: nat, e: EdfEntry)
    requires Sound(t) && node < |t.parsed|
    ensures Sound(AfterLine(t, node, e)) && Grows(t, AfterLine(t, node, e))
    ensures NoNewZeros(t.nodeEventTable, AfterLine(t, node, e).nodeEventTable)
  {
    WithNameBijective(t, e);
    WithNameResolved(t, e);
    var named := WithName(t, e);
    FirstWinsSnoc(t.eventNameMap, t.log, e, t.globalEventId);
    BoundBijective(named, node, e);
    BoundResolved(named, node, e);
    GrowsOn(t, named, Bound(named, node, e));
  }

  lemma ZerosOn(a: seq<map<int, int>>, b: seq<map<int, int>>, c: seq<map<int, int>>)
    requires NoNewZeros(a, b) && NoNewZeros(b, c)
    ensures NoNewZeros(a, c)
  {
  }

  lemma GrowsOn(a: Tables, b: Tables, c: Tables)
    requires Grows(a, b) && Grows(b, c)
    ensures Grows(a, c)
  {
  }

  /** So do any number of lines. */
  lemma {:induction false} LinesSound(t: Tables, node: nat, es: seq<EdfEntry>)
    requires Sound(t) && node < |t.parsed|
    ensures Sound(AfterLines(t, node, es)) && Grows(t, AfterLines(t, node, es))
    ensures NoNewZeros(t.nodeEventTable, AfterLines(t, node, es).nodeEventTable)
    decreases |es|
  {
    if es != [] {
      var front, e := es[..|es| - 1], es[|es| - 1];
      LinesSound(t, node, front);
      var between := AfterLines(t, node, front);
      LineSound(between, node, e);
      var end := AfterLine(between, node, e);
      GrowsOn(t, between, end);
      ZerosOn(t.nodeEventTable, between.nodeEventTable, end.nodeEventTable);
      assert AfterLines(t, node, es) == end;
    }
  }

  /** What was parsed is what was given. */
  lemma {:induction false} LinesLogged(t: Tables, node: nat, es: seq<EdfEntry>)
    requires node < |t.parsed| == |t.nodeEventTable|
    ensures AfterLines(t, node, es).parsed == t.parsed[node := t.parsed[node] + es]
    ensures AfterLines(t, node, es).log == t.log + es
    decreases |es|
  {
    if es == [] {
      assert t.parsed[node] + [] == t.parsed[node] && t.log + [] == t.log;
    } else {
      var front, e := es[..|es| - 1], es[|es| - 1];
      LinesLogged(t, node, front);
      assert es == front + [e];
      assert t.parsed[node] + es == t.parsed[node] + front + [e] && t.log + es == t.log + front + [e];
    }
  }

  /** A lookup through the map's index operator leaves a 0 behind for an unknown local id. */
  function LookedUp(t: Tables, node: nat, local: int): Tables
    requires node < |t.nodeEventTable|
  {
    if local in t.nodeEventTable[node] then t
    else t.(nodeEventTable := t.nodeEventTable[node := t.nodeEventTable[node][local := 0]])
  }

  /** A look-up of a local id that the table lacks reads the node's file again, in its present form. */
  function AfterGid(t: Tables, node: nat, local: int, current: seq<EdfEntry>): Tables
    requires node < |t.parsed| == |t.nodeEventTable|
  {
    if local in t.nodeEventTable[node] then t else LookedUp(AfterLines(t, node, current), node, local)
  }

  lemma LookedUpSound(t: Tables, node: nat, local: int)
    requires Sound(t) && node < |t.parsed|
    ensures var t' := LookedUp(t, node, local);
            && Sound(t') && Grows(t, t')
            && local in t'.nodeEventTable[node]
            && Resolves(t.names, t'.nodeEventTable[node][local], NameOf(t.parsed[node], local))
    ensures local !in t.nodeEventTable[node] ==> NameOf(t.parsed[node], local).None?
  {
    if local !in t.nodeEventTable[node] {
      assert NodeResolved(t.names, t.nodeEventTable[node][local := 0], t.parsed[node]);
    }
  }

  /**
   * What GID answers: the id of the name the lines read so far give the local id, 0 when there is none.
   * A zero was there before, or the file's present form lacks the local id too.
   */
  lemma GidSound(t: Tables, node: nat, local: int, current: seq<EdfEntry>)
    requires Sound(t) && node < |t.parsed|
    ensures var t' := AfterGid(t, node, local, current);
            && Sound(t') && Grows(t, t')
            && local in t'.nodeEventTable[node]
            && Resolves(t'.names, t'.nodeEventTable[node][local], NameOf(t'.parsed[node], local))
  {
    if local !in t.nodeEventTable[node] {
      LinesSound(t, node, current);
      var between := AfterLines(t, node, current);
      LookedUpSound(between, node, local);
      GrowsOn(t, between, LookedUp(between, node, local));
    }
  }

  /** Zeros after a look-up are old ones or stand for an id that the file's present form lacks. */
  lemma GidZeros(t: Tables, node: nat, local: int, current: seq<EdfEntry>, n: nat, l: int)
    requires Sound(t) && node < |t.parsed| && n < |t.parsed|
    requires var after := AfterGid(t, node, local, current).nodeEventTable; l in after[n] && after[n][l] == 0
    ensures (l in t.nodeEventTable[n] && t.nodeEventTable[n][l] == 0)
            || (n == node && l == local && NameOf(current, local).None?)
  {
    if local !in t.nodeEventTable[node] {
      LinesSound(t, node, current);
      LinesLogged(t, node, current);
      var between := AfterLines(t, node, current);
      if local !in between.nodeEventTable[node] {
        LookedUpSound(between, node, local);
        NameOfConcat(t.parsed[node], current, local);
      }
    }
  }

  /**
   * A local id that was once looked up in vain is answered with 0 without reading the file again, whatever
   * it has become; the look-up of another missing id corrects the answer exactly when the file has the id.
   */
  lemma VainLookUpSticks(t: Tables, node: nat, local: int, other: int, current: seq<EdfEntry>)
    requires Sound(t) && node < |t.parsed| && local in t.nodeEventTable[node] && t.nodeEventTable[node][local] == 0
    ensures AfterGid(t, node, local, current) == t
    ensures other !in t.nodeEventTable[node] ==>
              var table := AfterGid(t, node, other, current).nodeEventTable[node];
              local in table && (table[local] == 0 <==> NameOf(current, local).None?)
  {
    assert NodeResolved(t.names, t.nodeEventTable[node], t.parsed[node]);
    if other !in t.nodeEventTable[node] {
      LinesSound(t, node, current);
      LinesLogged(t, node, current);
      NameOfConcat(t.parsed[node], current, local);
      LinesKeepIds(t, node, current, local);
    }
  }

  lemma {:induction false} LinesKeepIds(t: Tables, node: nat, es: seq<EdfEntry>, local: int)
    requires node < |t.parsed| == |t.nodeEventTable| && local in t.nodeEventTable[node]
    ensures local in AfterLines(t, node, es).nodeEventTable[node]
    decreases |es|
  {
    if es != [] {
      LinesKeepIds(t, node, es[..|es| - 1], local);
    }
  }

  /** What was parsed and in which order. */
  lemma GidReads(t: Tables, node: nat, local: int, current: seq<EdfEntry>)
    requires node < |t.parsed| == |t.nodeEventTable|
    ensures var t' := AfterGid(t, node, local, current);
            if local in t.nodeEventTable[node] then t' == t
            else t'.parsed == t.parsed[node := t.parsed[node] + current] && t'.log == t.log + current
  {
    if local !in t.nodeEventTable[node] {
      LinesLogged(t, node, current);
    }
  }

  // ---------- the object ----------

  class EventTable {
    var eventNameMap: map<string, EventDescr>
    var globalEventId: int
    var nodeEventTable: seq<map<int, int>>
    var stored: map<string, EventDescr>  // what the merged event file holds
    ghost var names: seq<string>         // names[g - 1] is the name with global id g
    ghost var parsed: seq<seq<EdfEntry>> // all lines parsed for each node
    ghost var log: seq<EdfEntry>         // all lines parsed

    ghost function Value(): Tables
      reads this
    {
      Tables(eventNameMap, globalEventId, nodeEventTable, names, parsed, log)
    }

    constructor (nodes: nat)
      ensures Value() == Tables(map[], 1, seq(nodes, _ => map[]), [], seq(nodes, _ => []), [])
      ensures Sound(Value()) && stored == map[]
    {
      eventNameMap, globalEventId, stored := map[], 1, map[];
      nodeEventTable := seq(nodes, _ => map[]);
      names, parsed, log := [], seq(nodes, _ => []), [];
    }

    /** Table update of parse_edf_file for one line. */
    method DefineEvent(node: nat, e: EdfEntry)
      requires node < |parsed| == |nodeEventTable|
      modifies this
      ensures Value() == AfterLine(old(Value()), node, e) && stored == old(stored)
    {
      if e.name !in eventNameMap {
        eventNameMap := eventNameMap[e.name := EventDescr(globalEventId, e.state, e.tag, e.param)];
        nodeEventTable := nodeEventTable[node := nodeEventTable[node][e.localId := globalEventId]];
        globalEventId := globalEventId + 1;
        names := names + [e.name];
      } else {
        nodeEventTable := nodeEventTable[node := nodeEventTable[node][e.localId := eventNameMap[e.name].gid]];
      }
      parsed := parsed[node := parsed[node] + [e]];
      log := log + [e];
    }

    /** parse_edf_file on a file that comes to some outcome; only a file with entries does not end the program. */
    method ParseEdfFile(node: nat, p: Parsed) returns (ok: bool)
      requires node < |parsed| == |nodeEventTable|
      modifies this
      ensures ok <==> p.Entries?
      ensures ok ==> Value() == AfterLines(old(Value()), node, p.es)
      ensures stored == old(stored)
    {
      ok := p.Entries?;
      if ok {
        for i := 0 to |p.es|
          invariant |parsed| == |nodeEventTable| == |old(parsed)| && stored == old(stored)
          invariant Value() == AfterLines(old(Value()), node, p.es[..i])
        {
          assert p.es[..i + 1][..i] == p.es[..i];
          DefineEvent(node, p.es[i]);
        }
        assert p.es[..|p.es|] == p.es;
      }
    }

    method StoreMergedEdfFile()
      modifies this`stored
      ensures stored == eventNameMap
    {
      stored := eventNameMap;
    }

    /** GID: after a file was read again, the merged file is stored again. */
    method GID(node: nat, local: int, current: Parsed) returns (g: int, ok: bool)
      requires node < |parsed| == |nodeEventTable| && stored == eventNameMap
      modifies this
      ensures ok <==> local in old(nodeEventTable[node]) || current.Entries?
      ensures ok ==> Value() == AfterGid(old(Value()), node, local, if current.Entries? then current.es else [])
      ensures ok ==> local in nodeEventTable[node] && g == nodeEventTable[node][local]
      ensures ok ==> stored == eventNameMap
    {
      if local in nodeEventTable[node] {
        g, ok := nodeEventTable[node][local], true;
      } else {
        ok := ParseEdfFile(node, current);
        g := 0;
        if ok {
          StoreMergedEdfFile();
          if local !in nodeEventTable[node] {
            nodeEventTable := nodeEventTable[node := nodeEventTable[node][local := 0]];
          }
          g := nodeEventTable[node][local];
        }
      }
    }
  }
}
