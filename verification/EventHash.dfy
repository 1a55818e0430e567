/**
 * The converter's event descriptors: a chained hash table that new descriptors enter at the
 * front of their chain.  It behaves like a map that remembers the latest descriptor of an id.
 */
module EventHash {
  import opened EventTable
  import Scan

  datatype Descr = Descr(id: nat, no: int, tag: int, name: string, param: string, state: string, used: bool)

  datatype OutFormat = Alog | Sddf | Pv | Dump | Paraver | DumpName

  // ---------- a descriptor's texts ----------

  /** Long names get the descriptor's number in front, in place of their quote. */
  function StoredName(longNames: bool, no: int, name: string): string {
    if longNames && |name| > 200 then ['"'] + Scan.PrintInt(no) + ['-'] + name[1..] else name
  }

  function StoredParam(format: OutFormat, param: string): string {
    if param == [] || format.Pv? then [] else if format.Alog? then param + ": %d" else param
  }

  function StoredState(state: string): string {
    if state != [] && state[0] == '-' then [] else state
  }

  /** Stored long names are equal only when their numbers and their texts behind the quote are. */
  lemma LongNamesStayApart(no: nat, name: string, no': nat, name': string)
    requires |name| > 200 && |name'| > 200 && StoredName(true, no, name) == StoredName(true, no', name')
    ensures no == no' && name[1..] == name'[1..]
  {
    var d, d' := Scan.PrintInt(no), Scan.PrintInt(no');
    var rest, rest' := ['-'] + name[1..], ['-'] + name'[1..];
    assert StoredName(true, no, name) == ['"'] + (d + rest);
    assert StoredName(true, no', name') == ['"'] + (d' + rest');
    assert (['"'] + (d + rest))[1..] == d + rest;
    assert (['"'] + (d' + rest'))[1..] == d' + rest';
    Scan.ScanPrintedInt(no, rest);
    Scan.ScanPrintedInt(no', rest');
    assert rest[1..] == name[1..] && rest'[1..] == name'[1..];
  }

  // ---------- chains ----------

  /** The first descriptor of an id in a chain. */
  function Lookup(chain: seq<Descr>, id: nat): Option<Descr> {
    if chain == [] then None
    else if chain[0].id == id then Some(chain[0])
    else Lookup(chain[1..], id)
  }

  /** The chain with that descriptor marked as used. */
  function MarkUsed(chain: seq<Descr>, id: nat): seq<Descr> {
    if chain == [] then []
    else if chain[0].id == id then [chain[0].(used := true)] + chain[1..]
    else [chain[0]] + MarkUsed(chain[1..], id)
  }

  ghost function UsedIn(chain: seq<Descr>): nat {
    if chain == [] then 0 else (if chain[0].used then 1 else 0) + UsedIn(chain[1..])
  }

  ghost function UsedTotal(table: seq<seq<Descr>>): nat {
    if table == [] then 0 else UsedIn(table[0]) + UsedTotal(table[1..])
  }

  lemma {:induction false} MarkUsedEffect(chain: seq<Descr>, id: nat, other: nat)
    requires Lookup(chain, id).Some?
    ensures Lookup(MarkUsed(chain, id), other) ==
              if other == id then Some(Lookup(chain, id).value.(used := true)) else Lookup(chain, other)
    ensures UsedIn(MarkUsed(chain, id)) == UsedIn(chain) + (if Lookup(chain, id).value.used then 0 else 1)
    decreases |chain|
  {
    var marked := MarkUsed(chain, id);
    if chain[0].id == id {
      assert marked[1..] == chain[1..];
    } else {
      MarkUsedEffect(chain[1..], id, other);
      assert marked[1..] == MarkUsed(chain[1..], id);
    }
  }

  lemma {:induction false} UsedTotalUpdate(table: seq<seq<Descr>>, h: nat, chain: seq<Descr>)
    requires h < |table|
    ensures UsedTotal(table[h := chain]) == UsedTotal(table) - UsedIn(table[h]) + UsedIn(chain)
    decreases |table|
  {
    var changed := table[h := chain];
    if h == 0 {
      assert changed[1..] == table[1..];
    } else {
      assert changed[1..] == table[1..][h - 1 := chain];
      UsedTotalUpdate(table[1..], h - 1, chain);
    }
  }

  lemma {:induction false} NothingUsed(table: seq<seq<Descr>>)
    requires forall h :: 0 <= h < |table| ==> table[h] == []
    ensures UsedTotal(table) == 0
    decreases |table|
  {
    if table != [] {
      NothingUsed(table[1..]);
    }
  }

  // ---------- the table ----------

  /** The chain of an id holds the latest descriptor in front of any older ones. */
  ghost predicate FindsLatest(table: seq<seq<Descr>>, latest: map<nat, Descr>) {
    table != [] && forall id: nat :: Lookup(table[id % |table|], id) == if id in latest then Some(latest[id]) else None
  }

  /** Numbers are positive, below the next one, and distinct. */
  ghost predicate Numbers(latest: map<nat, Descr>, evno: int) {
    && evno >= 1 && (forall id :: id in latest ==> latest[id].id == id && 1 <= latest[id].no < evno)
    && (forall i, j :: i in latest && j in latest && latest[i].no == latest[j].no ==> i == j)
  }

  /** Every lookup gives the latest descriptor; numbers are distinct and positive; used ones are counted. */
  ghost predicate HashSound(table: seq<seq<Descr>>, latest: map<nat, Descr>, evno: int, used: int) {
    FindsLatest(table, latest) && Numbers(latest, evno) && used == UsedTotal(table)
  }

  lemma AddedInFront(table: seq<seq<Descr>>, latest: map<nat, Descr>, d: Descr)
    requires FindsLatest(table, latest)
    ensures FindsLatest(table[d.id % |table| := [d] + table[d.id % |table|]], latest[d.id := d])
  {
    var h := d.id % |table|;
    var chain := [d] + table[h];
    assert chain[1..] == table[h];
    var table' := table[h := chain];
    forall id: nat
      ensures Lookup(table'[id % |table'|], id) == if id == d.id then Some(d) else if id in latest then Some(latest[id]) else None
    {
      assert Lookup(table[id % |table|], id) == if id in latest then Some(latest[id]) else None;
    }
  }

  lemma MarkedFinds(table: seq<seq<Descr>>, latest: map<nat, Descr>, id: nat)
    requires FindsLatest(table, latest) && id in latest
    ensures FindsLatest(table[id % |table| := MarkUsed(table[id % |table|], id)], latest[id := latest[id].(used := true)])
  {
    var h := id % |table|;
    var table' := table[h := MarkUsed(table[h], id)];
    assert Lookup(table[h], id) == Some(latest[id]);
    forall other: nat
      ensures Lookup(table'[other % |table'|], other) ==
                if other == id then Some(latest[id].(used := true)) else if other in latest then Some(latest[other]) else None
    {
      assert Lookup(table[other % |table|], other) == if other in latest then Some(latest[other]) else None;
      MarkUsedEffect(table[h], id, other);
    }
  }

  lemma MarkedNumbers(latest: map<nat, Descr>, evno: int, id: nat)
    requires Numbers(latest, evno) && id in latest
    ensures Numbers(latest[id := latest[id].(used := true)], evno)
  {
  }

  lemma MarkedSound(table: seq<seq<Descr>>, latest: map<nat, Descr>, evno: int, used: int, id: nat)
    requires HashSound(table, latest, evno, used) && id in latest && !latest[id].used
    ensures var h := id % |table|;
            HashSound(table[h := MarkUsed(table[h], id)], latest[id := latest[id].(used := true)], evno, used + 1)
  {
    var h := id % |table|;
    assert Lookup(table[h], id) == Some(latest[id]);
    MarkedFinds(table, latest, id);
    MarkedNumbers(latest, evno, id);
    MarkUsedEffect(table[h], id, id);
    UsedTotalUpdate(table, h, MarkUsed(table[h], id));
  }

  class Events {
    const evtable: array<seq<Descr>>
    const longNames: bool
    const format: OutFormat
    var evno: int
    var numUsedEvent: int
    ghost var latest: map<nat, Descr>

    ghost predicate Valid()
      reads this, evtable
    {
      HashSound(evtable[..], latest, evno, numUsedEvent)
    }

    /** InitEvent */
    constructor (numev: nat, longNames: bool, format: OutFormat)
      requires numev > 0
      ensures Valid() && latest == map[] && fresh(evtable) && evtable.Length == numev && evno == 1
      ensures this.longNames == longNames && this.format == format
    {
      this.longNames, this.format := longNames, format;
      evtable := new seq<Descr>[numev](_ => []);
      evno, numUsedEvent, latest := 1, 0, map[];
      new;
      NothingUsed(evtable[..]);
    }

    /** A descriptor as it is first stored. */
    function Made(id: nat, no: int, name: string, param: string, state: string, tag: int): Descr {
      Descr(id, no, tag, StoredName(longNames, no, name), StoredParam(format, param), StoredState(state), false)
    }

    /**
     * The texts of a stored descriptor.  A short name, or any when the long-name fix is off, is kept; a state is
     * kept unless it starts with a dash; a parameter is dropped for pv, gets a conversion for alog, and is kept otherwise.
     */
    lemma MadeTexts(id: nat, no: int, name: string, param: string, state: string, tag: int)
      ensures var d := Made(id, no, name, param, state, tag);
              && d.id == id && d.no == no && d.tag == tag && !d.used
              && (!longNames || |name| <= 200 ==> d.name == name)
              && (longNames && |name| > 200 ==> d.name == "\"" + Scan.PrintInt(no) + "-" + name[1..])
              && d.state == (if state != "" && state[0] == '-' then "" else state)
              && d.param == (if param == "" then "" else
                             match format case Pv => "" case Alog => param + ": %d" case _ => param)
    {
    }

    /** AddEventDynamic: the newest descriptor goes to the front of its chain. */
    method Add(id: nat, name: string, param: string, state: string, tag: int)
      requires Valid()
      modifies this, evtable
      ensures Valid() && latest == old(latest)[id := Made(id, old(evno), name, param, state, tag)]
      ensures evno == old(evno) + 1 && numUsedEvent == old(numUsedEvent)
    {
      var h := id % evtable.Length;
      var newev := Made(id, evno, name, param, state, tag);
      ghost var before := evtable[..];
      AddedInFront(before, latest, newev);
      UsedTotalUpdate(before, h, [newev] + evtable[h]);
      var chain := evtable[h];
      evtable[h] := [newev] + chain;
      assert evtable[..] == before[h := [newev] + chain];
      assert ([newev] + chain)[1..] == chain;
      evno := evno + 1;
      latest := latest[id := newev];
    }

    /** GetEventStruct */
    method GetEventStruct(id: nat) returns (ev: Option<Descr>)
      requires Valid()
      ensures ev == if id in latest then Some(latest[id]) else None
    {
      var chain := evtable[id % evtable.Length];
      ghost var whole := evtable[..][id % evtable.Length];
      while chain != []
        invariant Lookup(whole, id) == Lookup(chain, id)
        decreases |chain|
      {
        if chain[0].id == id {
          return Some(chain[0]);
        }
        chain := chain[1..];
      }
      ev := None;
    }

    /** GetEvent: the number of the latest descriptor, which is marked as used; 0 when there is none. */
    method GetEvent(id: nat) returns (no: int)
      requires Valid()
      modifies this`numUsedEvent, this`latest, evtable
      ensures Valid() && evno == old(evno)
      ensures id in old(latest) ==>
                no == old(latest)[id].no && latest == old(latest)[id := old(latest)[id].(used := true)]
      ensures id !in old(latest) ==> no == 0 && latest == old(latest) && evtable[..] == old(evtable[..])
      ensures numUsedEvent == old(numUsedEvent) + (if id in old(latest) && !old(latest)[id].used then 1 else 0)
    {
      var ev := GetEventStruct(id);
      if ev.None? {
        return 0;
      }
      var h := id % evtable.Length;
      if !ev.value.used {
        ghost var before := evtable[..];
        var chain := MarkUsed(evtable[h], id);
        MarkedSound(before, latest, evno, numUsedEvent, id);
        evtable[h] := chain;
        assert evtable[..] == before[h := chain];
        latest := latest[id := ev.value.(used := true)];
        numUsedEvent := numUsedEvent + 1;
      }
      no := ev.value.no;
    }
  }
}
