/**
 * Numbering of threads for the VTF and OTF converters: global ids, the groups written per
 * node, and the offset formula.
 */
module Numbering {
  import opened Counting

  /** (node, thread) */
  type Key = (int, int)

  ghost predicate KeyLess(a: Key, b: Key) { a.0 < b.0 || (a.0 == b.0 && a.1 < b.1) }

  /** The order in which a map with these keys is walked. */
  ghost predicate WalkOrder(order: seq<Key>, keys: set<Key>) {
    && (forall k :: k in keys <==> k in order)
    && (forall i, j :: 0 <= i < j < |order| ==> KeyLess(order[i], order[j]))
  }

  ghost function Elements(order: seq<Key>): set<Key> { set k | k in order }

  ghost function OfNode(keys: set<Key>, node: int): set<Key> { set k | k in keys && k.0 == node }

  lemma OneMoreKey(keys: set<Key>, key: Key)
    requires key !in keys
    ensures forall n :: |OfNode(keys + {key}, n)| == |OfNode(keys, n)| + (if n == key.0 then 1 else 0)
    ensures (forall k :: k in keys ==> k.0 != key.0) ==> |OfNode(keys, key.0)| == 0
  {
    forall n
      ensures |OfNode(keys + {key}, n)| == |OfNode(keys, n)| + (if n == key.0 then 1 else 0)
    {
      assert OfNode(keys + {key}, n) == OfNode(keys, n) + (if n == key.0 then {key} else {});
    }
    if forall k :: k in keys ==> k.0 != key.0 {
      assert OfNode(keys, key.0) == {};
    }
  }

  /** The number of threads of every node that has any. */
  ghost predicate CountedPerNode(numthreads: map<int, int>, keys: set<Key>) {
    && (forall k :: k in keys ==> k.0 in numthreads)
    && (forall n :: n in numthreads ==> numthreads[n] == |OfNode(keys, n)| && numthreads[n] > 0)
  }

  lemma CountOneMore(numthreads: map<int, int>, keys: set<Key>, key: Key)
    requires CountedPerNode(numthreads, keys) && key !in keys
    ensures CountedPerNode(numthreads[key.0 := (if key.0 in numthreads then numthreads[key.0] else 0) + 1], keys + {key})
  {
    OneMoreKey(keys, key);
  }

  // ---------- first pass ----------

  /** Some thread is not thread 0. */
  ghost predicate SomeThread(keys: set<Key>) { exists k :: k in keys && k.1 > 0 }

  lemma OneMoreThread(keys: set<Key>, key: Key)
    ensures SomeThread(keys + {key}) <==> SomeThread(keys) || key.1 > 0
  {
    if SomeThread(keys) {
      var k :| k in keys && k.1 > 0;
      assert k in keys + {key};
    }
    if key.1 > 0 {
      assert key in keys + {key};
    }
  }

  /** What the counters say about the set of pairs. */
  ghost predicate Counters(keys: set<Key>, countthreads: int, numthreads: map<int, int>, multiThreaded: bool) {
    && countthreads == |keys| && (forall k :: k in keys ==> k.0 >= 0 && k.1 >= 0)
    && CountedPerNode(numthreads, keys) && (multiThreaded <==> SomeThread(keys))
  }

  lemma CountersOneMore(keys: set<Key>, countthreads: int, numthreads: map<int, int>, multiThreaded: bool, key: Key)
    requires Counters(keys, countthreads, numthreads, multiThreaded) && key !in keys && key.0 >= 0 && key.1 >= 0
    ensures Counters(keys + {key}, countthreads + 1,
                     numthreads[key.0 := (if key.0 in numthreads then numthreads[key.0] else 0) + 1],
                     multiThreaded || key.1 > 0)
  {
    CountOneMore(numthreads, keys, key);
    OneMoreThread(keys, key);
  }

  class Threads {
    var eofTrace: set<Key>         // keys of the end-of-trace map
    var countthreads: int
    var numthreads: map<int, int>
    var multiThreaded: bool

    ghost predicate Valid()
      reads this
    {
      Counters(eofTrace, countthreads, numthreads, multiThreaded)
    }

    constructor ()
      ensures Valid() && eofTrace == {}
    {
      eofTrace, countthreads, numthreads, multiThreaded := {}, 0, map[], false;
    }

    /** DefThread, called once for every pair that occurs in the trace. */
    method DefThread(node: nat, thread: nat)
      requires Valid() && (node, thread) !in eofTrace
      modifies this
      ensures Valid() && eofTrace == old(eofTrace) + {(node, thread)}
    {
      var key := (node, thread);
      CountersOneMore(eofTrace, countthreads, numthreads, multiThreaded, key);
      eofTrace := eofTrace + {key};
      countthreads := countthreads + 1;
      numthreads := numthreads[node := (if node in numthreads then numthreads[node] else 0) + 1];
      if thread > 0 {
        multiThreaded := true;
      }
    }
  }

  // ---------- VTF ids ----------

  /** The loop that numbers the pairs in the order of the map. */
  method AssignIds(order: seq<Key>) returns (globalId: map<Key, int>, nodenum: map<int, int>, threadnum: map<int, int>)
    requires forall i, j :: 0 <= i < j < |order| ==> KeyLess(order[i], order[j])
    ensures forall k :: k in globalId <==> k in order
    ensures forall i :: 0 <= i < |order| ==> globalId[order[i]] == i
    ensures forall i :: 0 <= i < |order| ==>
              i in nodenum && i in threadnum && (nodenum[i], threadnum[i]) == order[i]
  {
    globalId, nodenum, threadnum := map[], map[], map[];
    for i := 0 to |order|
      invariant forall k :: k in globalId <==> k in order[..i]
      invariant forall j :: 0 <= j < i ==> globalId[order[j]] == j
      invariant forall j :: 0 <= j < i ==>
                  j in nodenum && j in threadnum && (nodenum[j], threadnum[j]) == order[j]
    {
      assert forall j :: 0 <= j < i ==> KeyLess(order[j], order[i]);
      globalId := globalId[order[i] := i];
      nodenum := nodenum[i := order[i].0];
      threadnum := threadnum[i := order[i].1];
    }
    assert order[..|order|] == order;
  }

  /** The ids are a bijection between the pairs and 0 .. n - 1, in key order. */
  lemma IdsAreBijection(order: seq<Key>, keys: set<Key>, globalId: map<Key, int>)
    requires WalkOrder(order, keys)
    requires forall k :: k in globalId <==> k in order
    requires forall i :: 0 <= i < |order| ==> globalId[order[i]] == i
    ensures globalId.Keys == keys && |order| == |keys|
    ensures forall k :: k in keys ==> 0 <= globalId[k] < |keys|
    ensures forall a, b :: a in keys && b in keys ==> (KeyLess(a, b) <==> globalId[a] < globalId[b])
    ensures forall g :: 0 <= g < |keys| ==> order[g] in keys && globalId[order[g]] == g
  {
    CountDistinct(order, keys);
    forall a, b | a in keys && b in keys
      ensures KeyLess(a, b) <==> globalId[a] < globalId[b]
    {
      var i :| 0 <= i < |order| && order[i] == a;
      var j :| 0 <= j < |order| && order[j] == b;
    }
  }

  // ---------- VTF groups ----------

  datatype Group = Group(node: int, cpus: seq<int>)

  /** n consecutive ids. */
  ghost function Run(from: nat, n: nat): (r: seq<int>)
    ensures |r| == n && forall k :: 0 <= k < n ==> r[k] == from + k
  {
    seq(n, k => from + k)
  }

  ghost function AllCpus(groups: seq<Group>): seq<int> {
    if groups == [] then [] else AllCpus(groups[..|groups| - 1]) + groups[|groups| - 1].cpus
  }

  ghost predicate Counts(order: seq<Key>, numthreads: map<int, int>) {
    forall i :: 0 <= i < |order| ==>
      order[i].0 in numthreads && numthreads[order[i].0] == |OfNode(Elements(order), order[i].0)|
  }

  /** From the first pair of a node on, exactly its counted number of pairs belong to it. */
  lemma NodeRun(order: seq<Key>, start: nat, n: nat)
    requires forall i, j :: 0 <= i < j < |order| ==> KeyLess(order[i], order[j])
    requires start < |order| && (start > 0 ==> order[start - 1].0 < order[start].0)
    requires n == |OfNode(Elements(order), order[start].0)|
    ensures 0 < n && start + n <= |order|
    ensures forall j :: start <= j < start + n ==> order[j].0 == order[start].0
    ensures start + n < |order| ==> order[start + n].0 > order[start].0
  {
    var node := order[start].0;
    var e := start + 1;
    while e < |order| && order[e].0 == node
      invariant start < e <= |order|
      invariant forall j :: start <= j < e ==> order[j].0 == node
    {
      e := e + 1;
    }
    var run := order[start..e];
    forall i | 0 <= i < start
      ensures order[i].0 < node
    {
      assert i == start - 1 || KeyLess(order[i], order[start - 1]);
    }
    forall i | e <= i < |order|
      ensures order[i].0 > node
    {
      assert KeyLess(order[start], order[e]) && (i == e || KeyLess(order[e], order[i]));
    }
    forall k
      ensures k in OfNode(Elements(order), node) <==> k in run
    {
      if k in order && k.0 == node {
        var i :| 0 <= i < |order| && order[i] == k;
        assert run[i - start] == k;
      }
    }
    CountDistinct(run, OfNode(Elements(order), node));
  }

  /** One group per node, in node order; together the groups list every id once, in order. */
  ghost predicate GroupedSoFar(order: seq<Key>, groups: seq<Group>, covered: nat)
    requires covered <= |order|
  {
    && AllCpus(groups) == Run(0, covered)
    && (forall g :: 0 <= g < |groups| ==> groups[g].cpus != [] && forall c :: c in groups[g].cpus ==>
          0 <= c < covered && order[c].0 == groups[g].node)
    && (forall g, h :: 0 <= g < h < |groups| ==> groups[g].node < groups[h].node)
  }

  lemma GroupAdded(order: seq<Key>, groups: seq<Group>, covered: nat, node: int, n: nat)
    requires covered + n <= |order| && GroupedSoFar(order, groups, covered) && n > 0
    requires forall j :: covered <= j < covered + n ==> order[j].0 == node
    requires forall g :: 0 <= g < |groups| ==> groups[g].node < node
    ensures GroupedSoFar(order, groups + [Group(node, Run(covered, n))], covered + n)
  {
    var cpus := Run(covered, n);
    var more := groups + [Group(node, cpus)];
    assert more[..|groups|] == groups;
    assert Run(0, covered) + cpus == Run(0, covered + n);
    forall c | c in cpus
      ensures covered <= c < covered + n && order[c].0 == node
    {
      var k :| 0 <= k < n && cpus[k] == c;
    }
    forall g | 0 <= g < |groups|
      ensures more[g] == groups[g]
    {
    }
  }

  /** The consistent tables the id loop has filled. */
  ghost predicate Tables(order: seq<Key>, globalId: map<Key, int>, nodenum: map<int, int>, threadnum: map<int, int>) {
    forall i :: 0 <= i < |order| ==>
      && i in nodenum && i in threadnum && (nodenum[i], threadnum[i]) == order[i]
      && order[i] in globalId && globalId[order[i]] == i
  }

  /** The inner loop: the ids of one node's threads, from its first pair on. */
  method CpusOf(order: seq<Key>, globalId: map<Key, int>, nodenum: map<int, int>, threadnum: map<int, int>, i: nat, n: nat)
    returns (cpus: seq<int>)
    requires Tables(order, globalId, nodenum, threadnum) && i + n <= |order| && n > 0
    requires forall j :: i <= j < i + n ==> order[j].0 == order[i].0
    ensures cpus == Run(i, n)
  {
    cpus := [];
    for j := 0 to n
      invariant cpus == Run(i, j)
    {
      assert (nodenum[i], threadnum[i + j]) == order[i + j];
      cpus := cpus + [globalId[(nodenum[i], threadnum[i + j])]];
    }
  }

  /** The loop at pair i: the groups cover a stretch that ends with thisnode's pairs. */
  ghost predicate Walk(order: seq<Key>, groups: seq<Group>, covered: nat, i: nat, thisnode: int) {
    && i <= covered <= |order| && GroupedSoFar(order, groups, covered)
    && (forall j :: i <= j < covered ==> order[j].0 == thisnode)
    && (covered < |order| ==> order[covered].0 > thisnode)
    && (covered > 0 ==> order[covered - 1].0 == thisnode)
    && (forall g :: 0 <= g < |groups| ==> groups[g].node <= thisnode)
  }

  lemma StartGroup(order: seq<Key>, groups: seq<Group>, i: nat, thisnode: int, n: nat)
    requires forall a, b :: 0 <= a < b < |order| ==> KeyLess(order[a], order[b])
    requires i < |order| && Walk(order, groups, i, i, thisnode)
    requires n == |OfNode(Elements(order), order[i].0)|
    ensures n > 0 && i + n <= |order| && forall j :: i <= j < i + n ==> order[j].0 == order[i].0
    ensures Walk(order, groups + [Group(order[i].0, Run(i, n))], i + n, i + 1, order[i].0)
  {
    NodeRun(order, i, n);
    var node := order[i].0;
    GroupAdded(order, groups, i, node, n);
    NodesRise(groups, thisnode, node, Run(i, n));
    var more := groups + [Group(node, Run(i, n))];
    var grouped := GroupedSoFar(order, more, i + n);
    assert grouped;
    WalkOn(order, more, i, n, grouped);
  }

  lemma NodesRise(groups: seq<Group>, thisnode: int, node: int, cpus: seq<int>)
    requires thisnode < node && forall g :: 0 <= g < |groups| ==> groups[g].node <= thisnode
    ensures var more := groups + [Group(node, cpus)]; forall g :: 0 <= g < |more| ==> more[g].node <= node
  {
  }

  lemma WalkOn(order: seq<Key>, groups: seq<Group>, i: nat, n: nat, grouped: bool)
    requires n > 0 && i + n <= |order| && forall j :: i <= j < i + n ==> order[j].0 == order[i].0
    requires i + n < |order| ==> order[i + n].0 > order[i].0
    requires forall g :: 0 <= g < |groups| ==> groups[g].node <= order[i].0
    requires grouped == GroupedSoFar(order, groups, i + n) && grouped
    ensures Walk(order, groups, i + n, i + 1, order[i].0)
  {
  }

  lemma SameGroup(order: seq<Key>, groups: seq<Group>, covered: nat, i: nat, thisnode: int)
    requires i < |order| && Walk(order, groups, covered, i, thisnode) && order[i].0 == thisnode
    ensures Walk(order, groups, covered, i + 1, thisnode)
  {
  }

  /** At a pair of another node the groups cover exactly the pairs before it. */
  lemma NextGroup(order: seq<Key>, groups: seq<Group>, covered: nat, i: nat, thisnode: int)
    requires i < |order| && Walk(order, groups, covered, i, thisnode) && order[i].0 != thisnode
    ensures covered == i
  {
  }

  /** The group of the node whose first pair is pair i. */
  method DefineGroup(order: seq<Key>, globalId: map<Key, int>, nodenum: map<int, int>, threadnum: map<int, int>,
                     numthreads: map<int, int>, groups: seq<Group>, i: nat, last: int, ghost covered: nat)
    returns (groups': seq<Group>, thisnode: int, ghost covered': nat)
    requires forall i, j :: 0 <= i < j < |order| ==> KeyLess(order[i], order[j])
    requires Tables(order, globalId, nodenum, threadnum) && Counts(order, numthreads)
    requires i < |order| && order[i].0 != last && Walk(order, groups, covered, i, last)
    ensures Walk(order, groups', covered', i + 1, thisnode)
  {
    assert (nodenum[i], threadnum[i]) == order[i];
    thisnode := nodenum[i];
    var n := numthreads[thisnode];
    NextGroup(order, groups, covered, i, last);
    StartGroup(order, groups, i, last, n);
    var cpus := CpusOf(order, globalId, nodenum, threadnum, i, n);
    groups', covered' := groups + [Group(thisnode, cpus)], i + n;
  }

  /** The loop that defines a group whenever the node changes. */
  method WriteGroups(order: seq<Key>, globalId: map<Key, int>, nodenum: map<int, int>, threadnum: map<int, int>,
                     numthreads: map<int, int>) returns (groups: seq<Group>)
    requires forall i, j :: 0 <= i < j < |order| ==> KeyLess(order[i], order[j])
    requires forall i :: 0 <= i < |order| ==> order[i].0 >= 0
    requires Tables(order, globalId, nodenum, threadnum) && Counts(order, numthreads)
    ensures GroupedSoFar(order, groups, |order|)
  {
    groups := [];
    var thisnode := -1;
    ghost var covered := 0;
    for i := 0 to |order|
      invariant 0 <= covered && Walk(order, groups, covered, i, thisnode)
    {
      assert (nodenum[i], threadnum[i]) == order[i];
      if thisnode == nodenum[i] {
        SameGroup(order, groups, covered, i, thisnode);
      } else {
        groups, thisnode, covered :=
          DefineGroup(order, globalId, nodenum, threadnum, numthreads, groups, i, thisnode, covered);
      }
    }
  }

  lemma WalkCounts(order: seq<Key>, keys: set<Key>, numthreads: map<int, int>)
    requires WalkOrder(order, keys) && CountedPerNode(numthreads, keys)
    ensures Counts(order, numthreads)
  {
    assert Elements(order) == keys;
    forall i | 0 <= i < |order|
      ensures order[i].0 in numthreads && numthreads[order[i].0] == |OfNode(Elements(order), order[i].0)|
    {
      assert order[i] in keys;
    }
  }

  /** From the first pass to the groups: one id per pair, and one group of consecutive ids per node. */
  method NumberThreads(threads: Threads, order: seq<Key>) returns (globalId: map<Key, int>, groups: seq<Group>)
    requires threads.Valid() && WalkOrder(order, threads.eofTrace)
    ensures globalId.Keys == threads.eofTrace && |order| == threads.countthreads
    ensures forall g :: 0 <= g < |order| ==> order[g] in globalId && globalId[order[g]] == g
    ensures GroupedSoFar(order, groups, |order|)
  {
    var nodenum, threadnum;
    globalId, nodenum, threadnum := AssignIds(order);
    IdsAreBijection(order, threads.eofTrace, globalId);
    WalkCounts(order, threads.eofTrace, threads.numthreads);
    forall i | 0 <= i < |order|
      ensures order[i].0 >= 0
    {
      assert order[i] in threads.eofTrace;
    }
    groups := WriteGroups(order, globalId, nodenum, threadnum, threads.numthreads);
  }

  // ---------- OTF offsets ----------

  ghost function Sum(counts: seq<nat>): nat {
    if counts == [] then 0 else Sum(counts[..|counts| - 1]) + counts[|counts| - 1]
  }

  /** The prefix sums of the thread counts. */
  method ComputeOffsets(counts: seq<nat>) returns (offset: array<int>)
    ensures fresh(offset) && offset.Length == |counts| + 1
    ensures forall i :: 0 <= i <= |counts| ==> offset[i] == Sum(counts[..i])
  {
    offset := new int[|counts| + 1](_ => 0);
    for i := 0 to |counts|
      invariant forall j :: 0 <= j <= i ==> offset[j] == Sum(counts[..j])
    {
      assert counts[..i + 1][..i] == counts[..i];
      offset[i + 1] := offset[i] + counts[i];
    }
  }

  /** GlobalId of the OTF converter, given the offsets. */
  function OtfId(multiThreaded: bool, offset: seq<int>, node: nat, thread: nat): int
    requires node < |offset|
  {
    if multiThreaded then offset[node] + thread + 1 else node + 1
  }

  ghost predicate Offsets(counts: seq<nat>, offset: seq<int>) {
    |offset| == |counts| + 1 && forall i :: 0 <= i <= |counts| ==> offset[i] == Sum(counts[..i])
  }

  lemma {:induction false} SumMonotone(counts: seq<nat>, i: nat, j: nat)
    requires i <= j <= |counts|
    ensures Sum(counts[..i]) <= Sum(counts[..j])
    decreases j - i
  {
    if i < j {
      SumMonotone(counts, i, j - 1);
      assert counts[..j][..j - 1] == counts[..j - 1];
    }
  }

  /** The node and thread of an id. */
  lemma {:induction false} Locate(counts: seq<nat>, g: int) returns (node: nat, thread: nat)
    requires 1 <= g <= Sum(counts)
    ensures node < |counts| && thread < counts[node] && Sum(counts[..node]) + thread + 1 == g
    decreases |counts|
  {
    var n := |counts| - 1;
    if g <= Sum(counts[..n]) {
      node, thread := Locate(counts[..n], g);
      assert counts[..n][..node] == counts[..node];
    } else {
      node, thread := n, g - Sum(counts[..n]) - 1;
    }
  }

  ghost predicate HasOwner(counts: seq<nat>, offset: seq<int>, multiThreaded: bool, g: int)
    requires |offset| == |counts| + 1
  {
    exists n: nat, t: nat :: n < |counts| && t < counts[n] && OtfId(multiThreaded, offset, n, t) == g
  }

  /** The situation in which the converter computes ids: threads counted, offsets summed, the flag set. */
  ghost predicate Numbered(counts: seq<nat>, offset: seq<int>, multiThreaded: bool) {
    && Offsets(counts, offset)
    && (forall n :: 0 <= n < |counts| ==> counts[n] > 0)
    && (multiThreaded <==> exists n :: 0 <= n < |counts| && counts[n] > 1)
  }

  /** The ids of a node lie between its offset and the next one, with the shortcut and without. */
  lemma OtfIdWithinNode(counts: seq<nat>, offset: seq<int>, multiThreaded: bool, n: nat, t: nat)
    requires Numbered(counts, offset, multiThreaded) && n < |counts| && t < counts[n]
    ensures OtfId(multiThreaded, offset, n, t) == offset[n] + t + 1
    ensures 0 <= offset[n] && offset[n] + t + 1 <= offset[n + 1]
  {
    assert counts[..n + 1][..n] == counts[..n];
    if !multiThreaded {
      AllOnes(counts, n);
    }
  }

  lemma OtfIdsAreOrdered(counts: seq<nat>, offset: seq<int>, multiThreaded: bool, n: nat, t: nat, m: nat, u: nat)
    requires Numbered(counts, offset, multiThreaded) && n < m < |counts| && t < counts[n] && u < counts[m]
    ensures OtfId(multiThreaded, offset, n, t) < OtfId(multiThreaded, offset, m, u)
  {
    OtfIdWithinNode(counts, offset, multiThreaded, n, t);
    OtfIdWithinNode(counts, offset, multiThreaded, m, u);
    SumMonotone(counts, n + 1, m);
  }

  lemma OtfIdsAreDistinct(counts: seq<nat>, offset: seq<int>, multiThreaded: bool, n: nat, t: nat, m: nat, u: nat)
    requires Numbered(counts, offset, multiThreaded) && n < |counts| && m < |counts| && t < counts[n] && u < counts[m]
    ensures OtfId(multiThreaded, offset, n, t) == OtfId(multiThreaded, offset, m, u) ==> n == m && t == u
  {
    if n < m {
      OtfIdsAreOrdered(counts, offset, multiThreaded, n, t, m, u);
    } else if m < n {
      OtfIdsAreOrdered(counts, offset, multiThreaded, m, u, n, t);
    }
  }

  /**
   * With nodes 0 .. n - 1 and threads 0 .. count - 1 on each, the ids are a bijection onto
   * 1 .. total, for traces with several threads per node and without.
   */
  lemma OtfIdsAreBijection(counts: seq<nat>, offset: seq<int>, multiThreaded: bool)
    requires Numbered(counts, offset, multiThreaded)
    ensures forall n: nat, t: nat :: n < |counts| && t < counts[n] ==>
              OtfId(multiThreaded, offset, n, t) == offset[n] + t + 1
              && 1 <= OtfId(multiThreaded, offset, n, t) <= Sum(counts)
    ensures forall n: nat, t: nat, m: nat, u: nat | n < |counts| && t < counts[n] && m < |counts| && u < counts[m] ::
              OtfId(multiThreaded, offset, n, t) == OtfId(multiThreaded, offset, m, u) ==> n == m && t == u
    ensures forall g :: 1 <= g <= Sum(counts) ==> HasOwner(counts, offset, multiThreaded, g)
  {
    forall n: nat, t: nat | n < |counts| && t < counts[n]
      ensures OtfId(multiThreaded, offset, n, t) == offset[n] + t + 1 && 0 <= offset[n] && offset[n] + t + 1 <= Sum(counts)
    {
      OtfIdWithinNode(counts, offset, multiThreaded, n, t);
      assert counts[..|counts|] == counts;
      SumMonotone(counts, n + 1, |counts|);
    }
    forall n: nat, t: nat, m: nat, u: nat | n < |counts| && t < counts[n] && m < |counts| && u < counts[m]
      ensures OtfId(multiThreaded, offset, n, t) == OtfId(multiThreaded, offset, m, u) ==> n == m && t == u
    {
      OtfIdsAreDistinct(counts, offset, multiThreaded, n, t, m, u);
    }
    forall g | 1 <= g <= Sum(counts)
      ensures HasOwner(counts, offset, multiThreaded, g)
    {
      var n, t := Locate(counts, g);
      OtfIdWithinNode(counts, offset, multiThreaded, n, t);
    }
  }

  /** One thread per node: the offset of a node is its number, so the shortcut gives the same id. */
  lemma {:induction false} AllOnes(counts: seq<nat>, n: nat)
    requires n <= |counts| && forall k :: 0 <= k < |counts| ==> counts[k] == 1
    ensures Sum(counts[..n]) == n
    decreases n
  {
    if n > 0 {
      AllOnes(counts, n - 1);
      assert counts[..n][..n - 1] == counts[..n - 1];
    }
  }
}
