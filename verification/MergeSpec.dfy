/**
 * What a merge of traces is: every emitted record of every trace exactly once, ordered
 * by (clock overflows, time, trace, position).
 */
module MergeSpec {
  import opened TraceReader

  const CONT_EVENT := 60006

  /** Clock overflows seen up to and including record k of a trace. */
  function Overflows(trace: seq<Record>, k: nat): nat
    requires k < |trace|
  {
    if k == 0 then 0 else Overflows(trace, k - 1) + (if trace[k].ti < trace[k - 1].ti then 1 else 0)
  }

  /** Continuation records are skipped, except that the first record of a trace is never looked at. */
  predicate Emitted(trace: seq<Record>, k: nat)
    requires k < |trace|
  {
    k == 0 || trace[k].ev != CONT_EVENT
  }

  /** The next emitted record after record k, or the length of the trace. */
  function NextEmitted(trace: seq<Record>, k: nat): (next: nat)
    requires k < |trace|
    ensures k < next <= |trace|
    ensures forall j :: k < j < next ==> !Emitted(trace, j)
    ensures next < |trace| ==> Emitted(trace, next)
    decreases |trace| - k
  {
    if k + 1 == |trace| || Emitted(trace, k + 1) then k + 1 else NextEmitted(trace, k + 1)
  }

  // ---------- items and their order ----------

  /** Record pos of trace src. */
  datatype Item = Item(src: nat, pos: nat)

  ghost predicate In(traces: seq<seq<Record>>, a: Item) {
    a.src < |traces| && a.pos < |traces[a.src]|
  }

  /** (overflows, time) lexicographically. */
  ghost predicate KeyLess(o1: int, t1: int, o2: int, t2: int) {
    o1 < o2 || (o1 == o2 && t1 < t2)
  }

  ghost predicate Before(traces: seq<seq<Record>>, a: Item, b: Item)
    requires In(traces, a) && In(traces, b)
  {
    var oa, ob := Overflows(traces[a.src], a.pos), Overflows(traces[b.src], b.pos);
    var ta, tb := traces[a.src][a.pos].ti, traces[b.src][b.pos].ti;
    || KeyLess(oa, ta, ob, tb)
    || (oa == ob && ta == tb && (a.src < b.src || (a.src == b.src && a.pos < b.pos)))
  }

  /** The overflow rule makes the key of a trace non-decreasing, so its own order is its key order. */
  lemma {:induction false} KeyIsMonotone(trace: seq<Record>, i: nat, j: nat)
    requires i <= j < |trace|
    ensures !KeyLess(Overflows(trace, j), trace[j].ti, Overflows(trace, i), trace[i].ti)
    decreases j - i
  {
    if i < j {
      KeyIsMonotone(trace, i, j - 1);
    }
  }

  lemma OwnOrder(traces: seq<seq<Record>>, src: nat, i: nat, j: nat)
    requires src < |traces| && i < |traces[src]| && j < |traces[src]|
    ensures Before(traces, Item(src, i), Item(src, j)) <==> i < j
  {
    if i <= j {
      KeyIsMonotone(traces[src], i, j);
    }
    if j <= i {
      KeyIsMonotone(traces[src], j, i);
    }
  }

  // ---------- merges ----------

  ghost predicate Sorted(traces: seq<seq<Record>>, items: seq<Item>)
    requires forall k :: 0 <= k < |items| ==> In(traces, items[k])
  {
    forall i, j :: 0 <= i < j < |items| ==> Before(traces, items[i], items[j])
  }

  ghost predicate IsMerge(traces: seq<seq<Record>>, items: seq<Item>) {
    && (forall k :: 0 <= k < |items| ==>
          In(traces, items[k]) && Emitted(traces[items[k].src], items[k].pos))
    && (forall a :: In(traces, a) && Emitted(traces[a.src], a.pos) ==> a in items)
    && Sorted(traces, items)
  }

  /** Nothing is duplicated, and each trace's records keep their order. */
  lemma MergeKeepsOrder(traces: seq<seq<Record>>, items: seq<Item>, i: nat, j: nat)
    requires IsMerge(traces, items) && i < j < |items|
    ensures items[i] != items[j]
    ensures items[i].src == items[j].src ==> items[i].pos < items[j].pos
  {
    assert Before(traces, items[i], items[j]);
    if items[i].src == items[j].src {
      OwnOrder(traces, items[i].src, items[i].pos, items[j].pos);
    }
  }

  lemma FirstIsLeast(traces: seq<seq<Record>>, a: seq<Item>, k: nat)
    requires k < |a| && (forall i :: 0 <= i < |a| ==> In(traces, a[i])) && Sorted(traces, a)
    ensures k == 0 || Before(traces, a[0], a[k])
  {
  }

  /** Every element of a is an element of b. */
  ghost predicate AllIn(traces: seq<seq<Record>>, a: seq<Item>, b: seq<Item>) {
    forall k :: 0 <= k < |a| ==> In(traces, a[k]) && a[k] in b
  }

  lemma SameFirst(traces: seq<seq<Record>>, a: seq<Item>, b: seq<Item>)
    requires AllIn(traces, a, b) && AllIn(traces, b, a)
    requires Sorted(traces, a) && Sorted(traces, b) && a != [] && b != []
    ensures a[0] == b[0]
  {
    var i :| 0 <= i < |b| && b[i] == a[0];
    var j :| 0 <= j < |a| && a[j] == b[0];
    FirstIsLeast(traces, b, i);
    FirstIsLeast(traces, a, j);
  }

  /** A strictly sorted sequence is determined by its elements. */
  lemma {:induction false} SortedSameElements(traces: seq<seq<Record>>, a: seq<Item>, b: seq<Item>)
    requires AllIn(traces, a, b) && AllIn(traces, b, a)
    requires Sorted(traces, a) && Sorted(traces, b)
    ensures a == b
    decreases |a|
  {
    assert b != [] ==> b[0] in a;
    assert a != [] ==> a[0] in b;
    if a != [] && b != [] {
      SameFirst(traces, a, b);
      TailElements(traces, a, b);
      TailElements(traces, b, a);
      SortedSameElements(traces, a[1..], b[1..]);
      assert a == [a[0]] + a[1..] && b == [b[0]] + b[1..];
    }
  }

  lemma TailElements(traces: seq<seq<Record>>, a: seq<Item>, b: seq<Item>)
    requires AllIn(traces, a, b)
    requires Sorted(traces, a) && a != [] && b != [] && a[0] == b[0]
    ensures AllIn(traces, a[1..], b[1..])
  {
    forall k | 0 <= k < |a[1..]|
      ensures a[1..][k] in b[1..]
    {
      assert Before(traces, a[0], a[k + 1]);
      var i :| 0 <= i < |b| && b[i] == a[k + 1];
      assert i != 0;
      assert b[1..][i - 1] == a[1..][k];
    }
  }

  /** The specification determines the output: there is at most one merge. */
  lemma MergeIsUnique(traces: seq<seq<Record>>, a: seq<Item>, b: seq<Item>)
    requires IsMerge(traces, a) && IsMerge(traces, b)
    ensures a == b
  {
    SortedSameElements(traces, a, b);
  }

  // ---------- what the order and the contents are, in terms of times and events ----------

  ghost predicate GoesBack(trace: seq<Record>, m: nat)
    requires 0 < m < |trace|
  {
    trace[m].ti < trace[m - 1].ti
  }

  /** The records whose time lies below that of the record before them, up to record k. */
  ghost function Drops(trace: seq<Record>, k: nat): set<nat>
    requires k < |trace|
  {
    set m: nat | 0 < m <= k && GoesBack(trace, m)
  }

  /** The overflow count is the number of times a clock has gone back. */
  lemma {:induction false} OverflowsCountDrops(trace: seq<Record>, k: nat)
    requires k < |trace|
    ensures Overflows(trace, k) == |Drops(trace, k)|
    decreases k
  {
    if k == 0 {
      assert Drops(trace, 0) == {};
    } else {
      OverflowsCountDrops(trace, k - 1);
      assert Drops(trace, k) == Drops(trace, k - 1) + (if trace[k].ti < trace[k - 1].ti then {k} else {});
    }
  }

  lemma {:induction false} OverflowsGrow(trace: seq<Record>, i: nat, j: nat)
    requires i <= j < |trace|
    ensures Overflows(trace, i) <= Overflows(trace, j)
    decreases j - i
  {
    if i < j {
      OverflowsGrow(trace, i, j - 1);
    }
  }

  /** Two records of a trace have the same overflow count exactly when the clock has not gone back between them. */
  lemma {:induction false} SameOverflowsIff(trace: seq<Record>, i: nat, j: nat)
    requires i <= j < |trace|
    ensures Overflows(trace, i) == Overflows(trace, j) <==> forall m :: i < m <= j ==> trace[m - 1].ti <= trace[m].ti
    decreases j - i
  {
    if i < j {
      SameOverflowsIff(trace, i, j - 1);
      OverflowsGrow(trace, i, j - 1);
    }
  }

  /** The times of every trace do not decrease. */
  ghost predicate InTimeOrder(traces: seq<seq<Record>>) {
    forall s, i, j :: 0 <= s < |traces| && 0 <= i < j < |traces[s]| ==> traces[s][i].ti <= traces[s][j].ti
  }

  lemma NoOverflows(traces: seq<seq<Record>>, a: Item)
    requires InTimeOrder(traces) && In(traces, a)
    ensures Overflows(traces[a.src], a.pos) == 0
  {
    SameOverflowsIff(traces[a.src], 0, a.pos);
  }

  /** The merge of traces whose times do not decrease is ordered by time, and by trace at equal times. */
  lemma MergeIsByTime(traces: seq<seq<Record>>, items: seq<Item>, i: nat, j: nat)
    requires IsMerge(traces, items) && InTimeOrder(traces) && i < j < |items|
    ensures var a, b := items[i], items[j];
            var s, t := traces[a.src][a.pos].ti, traces[b.src][b.pos].ti;
            s < t || (s == t && (a.src < b.src || (a.src == b.src && a.pos < b.pos)))
  {
    NoOverflows(traces, items[i]);
    NoOverflows(traces, items[j]);
    assert Before(traces, items[i], items[j]);
  }

  /** Output are all records but those of event 60006, and the first record of every trace whatever it is. */
  lemma MergeHolds(traces: seq<seq<Record>>, items: seq<Item>, a: Item)
    requires IsMerge(traces, items)
    ensures a in items <==>
              a.src < |traces| && a.pos < |traces[a.src]| && (a.pos == 0 || traces[a.src][a.pos].ev != 60006)
  {
    if a in items {
      var k :| 0 <= k < |items| && items[k] == a;
      assert In(traces, items[k]) && Emitted(traces[items[k].src], items[k].pos);
    } else if In(traces, a) {
      assert !Emitted(traces[a.src], a.pos);
    }
  }

  // ---------- a merge under way ----------

  /** Trace i has been emitted up to but not including record cur[i]; cur[i] is the current record or the end. */
  ghost predicate Cursors(traces: seq<seq<Record>>, cur: seq<nat>) {
    && |cur| == |traces|
    && forall i :: 0 <= i < |cur| ==>
         cur[i] <= |traces[i]| && (cur[i] < |traces[i]| ==> Emitted(traces[i], cur[i]))
  }

  /** The output so far holds exactly the emitted records before the cursors, in order and before all current records. */
  ghost predicate Merging(traces: seq<seq<Record>>, items: seq<Item>, cur: seq<nat>)
    requires Cursors(traces, cur)
  {
    && (forall k :: 0 <= k < |items| ==>
          In(traces, items[k]) && Emitted(traces[items[k].src], items[k].pos))
    && (forall a :: In(traces, a) && Emitted(traces[a.src], a.pos) && a.pos < cur[a.src] ==> a in items)
    && Sorted(traces, items)
    && (forall k, i :: 0 <= k < |items| && 0 <= i < |cur| && cur[i] < |traces[i]| ==>
          Before(traces, items[k], Item(i, cur[i])))
  }

  /** The current record that no other current record precedes. */
  ghost predicate IsMinimal(traces: seq<seq<Record>>, cur: seq<nat>, src: nat)
    requires Cursors(traces, cur)
  {
    && src < |cur| && cur[src] < |traces[src]|
    && forall i :: 0 <= i < |cur| && i != src && cur[i] < |traces[i]| ==>
         Before(traces, Item(src, cur[src]), Item(i, cur[i]))
  }

  lemma EmitMinimal(traces: seq<seq<Record>>, items: seq<Item>, cur: seq<nat>, src: nat)
    requires Cursors(traces, cur) && Merging(traces, items, cur) && IsMinimal(traces, cur, src)
    ensures var items' := items + [Item(src, cur[src])];
            && (forall k :: 0 <= k < |items'| ==>
                  In(traces, items'[k]) && Emitted(traces[items'[k].src], items'[k].pos))
            && Sorted(traces, items')
            && (forall k, i :: 0 <= k < |items'| && 0 <= i < |cur| && i != src && cur[i] < |traces[i]| ==>
                  Before(traces, items'[k], Item(i, cur[i])))
  {
  }

  lemma NextIsBehind(traces: seq<seq<Record>>, items: seq<Item>, cur: seq<nat>, src: nat, k: nat)
    requires Cursors(traces, cur) && Merging(traces, items, cur)
    requires src < |cur| && cur[src] < |traces[src]| && NextEmitted(traces[src], cur[src]) < |traces[src]|
    requires k <= |items|
    ensures Before(traces, if k < |items| then items[k] else Item(src, cur[src]),
                   Item(src, NextEmitted(traces[src], cur[src])))
  {
    OwnOrder(traces, src, cur[src], NextEmitted(traces[src], cur[src]));
    if k < |items| {
      assert Before(traces, items[k], Item(src, cur[src]));
    }
  }

  /** One round: emitting the minimal current record keeps the merge invariant. */
  lemma MergeRound(traces: seq<seq<Record>>, items: seq<Item>, cur: seq<nat>, src: nat)
    requires Cursors(traces, cur) && Merging(traces, items, cur) && IsMinimal(traces, cur, src)
    ensures var cur' := cur[src := NextEmitted(traces[src], cur[src])];
            Cursors(traces, cur') && Merging(traces, items + [Item(src, cur[src])], cur')
  {
    var item := Item(src, cur[src]);
    var items' := items + [item];
    var next := NextEmitted(traces[src], cur[src]);
    var cur' := cur[src := next];
    EmitMinimal(traces, items, cur, src);
    forall a | In(traces, a) && Emitted(traces[a.src], a.pos) && a.pos < cur'[a.src]
      ensures a in items'
    {
      assert a == item || (a.pos < cur[a.src] && a in items);
    }
    forall k, i | 0 <= k < |items'| && 0 <= i < |cur'| && cur'[i] < |traces[i]|
      ensures Before(traces, items'[k], Item(i, cur'[i]))
    {
      if i == src {
        NextIsBehind(traces, items, cur, src, k);
      }
    }
  }

  lemma MergeStart(traces: seq<seq<Record>>, cur: seq<nat>)
    requires forall i :: 0 <= i < |traces| ==> traces[i] != []
    requires |cur| == |traces| && forall i :: 0 <= i < |cur| ==> cur[i] == 0
    ensures Cursors(traces, cur) && Merging(traces, [], cur)
  {
  }

  lemma MergeEnd(traces: seq<seq<Record>>, items: seq<Item>, cur: seq<nat>)
    requires Cursors(traces, cur) && Merging(traces, items, cur)
    requires forall i :: 0 <= i < |cur| ==> cur[i] == |traces[i]|
    ensures IsMerge(traces, items)
  {
  }
}
