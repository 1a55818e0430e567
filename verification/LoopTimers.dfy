/**
 * Loop-level instrumentation: the traversal of a routine's statements that requests a start
 * and a stop of a timer around every loop that is not nested too deep.
 */
module LoopTimers {

  datatype Loc = Loc(line: int, col: int)

  /** Loops, the UPC statements that are not entered, and all others; no gotos. */
  datatype Kind = For | While | Do | Upc | Other

  datatype Stmt =
    | NoStmt
    | Stmt(kind: Kind, begin: Loc, end: Loc, down: Stmt, extra: Stmt, next: Stmt)

  datatype Item = StartTimer(at: Loc, begin: Loc, end: Loc) | StopTimer(at: Loc, begin: Loc, end: Loc)

  predicate IsLoop(k: Kind) { k.For? || k.While? || k.Do? }

  // ---------- reference ----------

  /** A loop of the source and the number of loops around it. */
  datatype Loop = Loop(begin: Loc, end: Loc, depth: nat)

  /** The loops of a statement list that lies inside depth loops.  A loop's loops are those of its body. */
  function Loops(s: Stmt, depth: nat): seq<Loop>
    decreases s, 1
  {
    if s.NoStmt? then [] else OwnLoops(s, depth) + Loops(s.next, depth)
  }

  /** The loops of one statement, without those behind it. */
  function OwnLoops(s: Stmt, depth: nat): seq<Loop>
    requires s.Stmt?
    decreases s, 0
  {
    if IsLoop(s.kind) then [Loop(s.begin, s.end, depth)] + Loops(s.down, depth + 1)
    else if s.kind.Upc? then []
    else Loops(s.down, depth) + Loops(s.extra, depth)
  }

  function Start(l: Loop): Item { StartTimer(l.begin, l.begin, l.end) }

  function Stop(l: Loop): Item { StopTimer(Loc(l.end.line, l.end.col + 1), l.begin, l.end) }

  /** One start and one stop for every loop with fewer than max loops around it. */
  function Requests(loops: seq<Loop>, max: int): seq<Item> {
    if loops == [] then []
    else (if loops[0].depth < max then [Start(loops[0]), Stop(loops[0])] else []) + Requests(loops[1..], max)
  }

  lemma {:induction false} RequestsConcat(a: seq<Loop>, b: seq<Loop>, max: int)
    ensures Requests(a + b, max) == Requests(a, max) + Requests(b, max)
    decreases |a|
  {
    if a == [] {
      assert a + b == b;
    } else {
      assert (a + b)[1..] == a[1..] + b;
      RequestsConcat(a[1..], b, max);
    }
  }

  /** The requests for one loop. */
  function RequestsFor(l: Loop, max: int): seq<Item> { if l.depth < max then [Start(l), Stop(l)] else [] }

  /** The requests for one statement and its parts. */
  function RequestsInside(s: Stmt, depth: nat, max: int): seq<Item>
    requires s.Stmt?
  {
    if IsLoop(s.kind) then RequestsFor(Loop(s.begin, s.end, depth), max) + Requests(Loops(s.down, depth + 1), max)
    else if s.kind.Upc? then []
    else Requests(Loops(s.down, depth), max) + Requests(Loops(s.extra, depth), max)
  }

  lemma RequestsOfStmt(s: Stmt, depth: nat, max: int)
    requires s.Stmt?
    ensures Requests(Loops(s, depth), max) == RequestsInside(s, depth, max) + Requests(Loops(s.next, depth), max)
  {
    var own := OwnLoops(s, depth);
    RequestsConcat(own, Loops(s.next, depth), max);
    if IsLoop(s.kind) {
      assert own[1..] == Loops(s.down, depth + 1);
    } else if !s.kind.Upc? {
      RequestsConcat(Loops(s.down, depth), Loops(s.extra, depth), max);
    }
  }

  lemma ConcatAssociates(a: seq<Item>, b: seq<Item>, c: seq<Item>)
    ensures a + b + c == a + (b + c)
  {
  }

  // ---------- the traversal ----------

  class Instrumentation {
    const loopLevel: int
    var itemvec: seq<Item>

    constructor (loopLevel: int)
      ensures this.loopLevel == loopLevel && itemvec == []
    {
      this.loopLevel, itemvec := loopLevel, [];
    }

    method AddRequestForLoop(begin: Loc, end: Loc)
      modifies this
      ensures itemvec == old(itemvec) + [StartTimer(begin, begin, end), StopTimer(Loc(end.line, end.col + 1), begin, end)]
    {
      itemvec := itemvec + [StartTimer(begin, begin, end)];
      itemvec := itemvec + [StopTimer(Loc(end.line, end.col + 1), begin, end)];
    }

    /** Statements at nesting level level, counted from 1. */
    method ProcessBlockStatements(s: Stmt, level: nat)
      requires level >= 1
      modifies this
      ensures itemvec == old(itemvec) + Requests(Loops(s, level - 1), loopLevel)
      decreases s, 1
    {
      if s.NoStmt? {
        return;
      }
      ghost var before := itemvec;
      ProcessParts(s, level);
      ProcessBlockStatements(s.next, level);
      assert itemvec == before + (RequestsInside(s, level - 1, loopLevel) + Requests(Loops(s.next, level - 1), loopLevel));
      RequestsOfStmt(s, level - 1, loopLevel);
    }

    /** The switch on the statement's kind. */
    method ProcessParts(s: Stmt, level: nat)
      requires level >= 1 && s.Stmt?
      modifies this
      ensures itemvec == old(itemvec) + RequestsInside(s, level - 1, loopLevel)
      decreases s, 0
    {
      ghost var before := itemvec;
      if IsLoop(s.kind) {
        ghost var own := RequestsFor(Loop(s.begin, s.end, level - 1), loopLevel);
        if level <= loopLevel {
          AddRequestForLoop(s.begin, s.end);
        }
        assert itemvec == before + own;
        ghost var inside := Requests(Loops(s.down, level), loopLevel);
        ProcessBlockStatements(s.down, level + 1);
        ConcatAssociates(before, own, inside);
      } else if s.kind.Upc? {
        assert itemvec == before + [];
      } else {
        ghost var down := Requests(Loops(s.down, level - 1), loopLevel);
        ghost var extra := Requests(Loops(s.extra, level - 1), loopLevel);
        ProcessBlockStatements(s.down, level);
        ProcessBlockStatements(s.extra, level);
        ConcatAssociates(before, down, extra);
      }
    }
  }

  // ---------- which loops these are ----------

  /** A way through a statement tree. */
  datatype Turn = Down | Extra | Next

  /** A statement and the number of loops it lies in. */
  datatype Place = Nowhere | At(s: Stmt, depth: nat)

  /**
   * Where a way leads.  Behind a statement lies the next one; inside a loop, one loop deeper, its body; inside
   * any other statement but the UPC ones its two parts.
   */
  function Reached(s: Stmt, way: seq<Turn>, depth: nat): Place
    decreases |way|
  {
    if s.NoStmt? then Nowhere
    else if way == [] then At(s, depth)
    else
      match way[0]
      case Next => Reached(s.next, way[1..], depth)
      case Down =>
        if s.kind.Upc? then Nowhere
        else Reached(s.down, way[1..], if s.kind.For? || s.kind.While? || s.kind.Do? then depth + 1 else depth)
      case Extra => if s.kind.Other? then Reached(s.extra, way[1..], depth) else Nowhere
  }

  /** The way leads to a For, While or Do statement, and into l.depth of them. */
  ghost predicate LeadsTo(s: Stmt, way: seq<Turn>, depth: nat, l: Loop) {
    match Reached(s, way, depth)
    case Nowhere => false
    case At(t, d) => t.Stmt? && (t.kind.For? || t.kind.While? || t.kind.Do?) && l == Loop(t.begin, t.end, d)
  }

  /** Ways in the order of the text: a statement comes before its parts, its parts before what is behind it. */
  ghost predicate Earlier(a: seq<Turn>, b: seq<Turn>)
    decreases |a|
  {
    && b != []
    && (a == [] || (if a[0] == b[0] then Earlier(a[1..], b[1..]) else a[0].Down? || b[0].Next?))
  }

  ghost predicate InOrder(ways: seq<seq<Turn>>) {
    forall i, j :: 0 <= i < j < |ways| ==> Earlier(ways[i], ways[j])
  }

  function Prefixed(t: Turn, ways: seq<seq<Turn>>): (r: seq<seq<Turn>>)
    ensures |r| == |ways| && forall k :: 0 <= k < |ways| ==> r[k] == [t] + ways[k]
  {
    seq(|ways|, k requires 0 <= k < |ways| => [t] + ways[k])
  }

  /** The ways to the loops. */
  function Ways(s: Stmt): seq<seq<Turn>>
    decreases s, 1
  {
    if s.NoStmt? then [] else OwnWays(s) + Prefixed(Next, Ways(s.next))
  }

  function OwnWays(s: Stmt): seq<seq<Turn>>
    requires s.Stmt?
    decreases s, 0
  {
    if IsLoop(s.kind) then [[]] + Prefixed(Down, Ways(s.down))
    else if s.kind.Upc? then []
    else Prefixed(Down, Ways(s.down)) + Prefixed(Extra, Ways(s.extra))
  }

  /** Each way leads to the loop listed at its place. */
  ghost predicate Lead(s: Stmt, ways: seq<seq<Turn>>, depth: nat, loops: seq<Loop>) {
    |ways| == |loops| && forall k :: 0 <= k < |ways| ==> LeadsTo(s, ways[k], depth, loops[k])
  }

  /** The part of a statement that a turn enters, and the depth there. */
  ghost predicate Enters(s: Stmt, t: Turn, depth: nat, part: Stmt, inner: nat) {
    && s.Stmt?
    && match t
       case Next => part == s.next && inner == depth
       case Down => !s.kind.Upc? && part == s.down && inner == (if IsLoop(s.kind) then depth + 1 else depth)
       case Extra => s.kind.Other? && part == s.extra && inner == depth
  }

  lemma EnterPart(s: Stmt, t: Turn, depth: nat, part: Stmt, inner: nat, way: seq<Turn>)
    requires Enters(s, t, depth, part, inner)
    ensures Reached(s, [t] + way, depth) == Reached(part, way, inner)
  {
    assert ([t] + way)[0] == t && ([t] + way)[1..] == way;
  }

  lemma LeadInto(s: Stmt, t: Turn, depth: nat, part: Stmt, inner: nat, ways: seq<seq<Turn>>, loops: seq<Loop>)
    requires Enters(s, t, depth, part, inner) && Lead(part, ways, inner, loops)
    ensures Lead(s, Prefixed(t, ways), depth, loops)
  {
    forall k | 0 <= k < |ways|
      ensures LeadsTo(s, Prefixed(t, ways)[k], depth, loops[k])
    {
      EnterPart(s, t, depth, part, inner, ways[k]);
      assert LeadsTo(part, ways[k], inner, loops[k]);
    }
  }

  lemma LeadConcat(s: Stmt, a: seq<seq<Turn>>, b: seq<seq<Turn>>, depth: nat, la: seq<Loop>, lb: seq<Loop>)
    requires Lead(s, a, depth, la) && Lead(s, b, depth, lb)
    ensures Lead(s, a + b, depth, la + lb)
  {
  }

  lemma {:induction false} WaysLead(s: Stmt, depth: nat)
    ensures Lead(s, Ways(s), depth, Loops(s, depth))
    decreases s, 1
  {
    if s.Stmt? {
      OwnWaysLead(s, depth);
      WaysLead(s.next, depth);
      LeadInto(s, Next, depth, s.next, depth, Ways(s.next), Loops(s.next, depth));
      LeadConcat(s, OwnWays(s), Prefixed(Next, Ways(s.next)), depth, OwnLoops(s, depth), Loops(s.next, depth));
    }
  }

  lemma {:induction false} OwnWaysLead(s: Stmt, depth: nat)
    requires s.Stmt?
    ensures Lead(s, OwnWays(s), depth, OwnLoops(s, depth))
    decreases s, 0
  {
    if !s.kind.Upc? {
      var inner := if IsLoop(s.kind) then depth + 1 else depth;
      WaysLead(s.down, inner);
      LeadInto(s, Down, depth, s.down, inner, Ways(s.down), Loops(s.down, inner));
      if IsLoop(s.kind) {
        var l := Loop(s.begin, s.end, depth);
        assert Lead(s, [[]], depth, [l]);
        LeadConcat(s, [[]], Prefixed(Down, Ways(s.down)), depth, [l], Loops(s.down, inner));
      } else {
        WaysLead(s.extra, depth);
        LeadInto(s, Extra, depth, s.extra, depth, Ways(s.extra), Loops(s.extra, depth));
        LeadConcat(s, Prefixed(Down, Ways(s.down)), Prefixed(Extra, Ways(s.extra)), depth,
                   Loops(s.down, depth), Loops(s.extra, depth));
      }
    }
  }

  lemma PrefixedInOrder(t: Turn, ways: seq<seq<Turn>>)
    requires InOrder(ways)
    ensures InOrder(Prefixed(t, ways))
  {
    var r := Prefixed(t, ways);
    forall i, j | 0 <= i < j < |r|
      ensures Earlier(r[i], r[j])
    {
      assert r[i][0] == t == r[j][0] && r[i][1..] == ways[i] && r[j][1..] == ways[j];
    }
  }

  lemma OrderConcat(a: seq<seq<Turn>>, b: seq<seq<Turn>>)
    requires InOrder(a) && InOrder(b)
    requires forall i, j :: 0 <= i < |a| && 0 <= j < |b| ==> Earlier(a[i], b[j])
    ensures InOrder(a + b)
  {
  }

  /** The ways come in the order of the text, so no loop is listed twice. */
  lemma {:induction false} WaysInOrder(s: Stmt)
    ensures InOrder(Ways(s))
    decreases s, 1
  {
    if s.Stmt? {
      OwnWaysInOrder(s);
      WaysInOrder(s.next);
      PrefixedInOrder(Next, Ways(s.next));
      OrderConcat(OwnWays(s), Prefixed(Next, Ways(s.next)));
    }
  }

  lemma {:induction false} OwnWaysInOrder(s: Stmt)
    requires s.Stmt?
    ensures InOrder(OwnWays(s)) && forall k :: 0 <= k < |OwnWays(s)| ==> OwnWays(s)[k] == [] || OwnWays(s)[k][0] != Next
    decreases s, 0
  {
    if !s.kind.Upc? {
      WaysInOrder(s.down);
      PrefixedInOrder(Down, Ways(s.down));
      if IsLoop(s.kind) {
        OrderConcat([[]], Prefixed(Down, Ways(s.down)));
      } else {
        WaysInOrder(s.extra);
        PrefixedInOrder(Extra, Ways(s.extra));
        OrderConcat(Prefixed(Down, Ways(s.down)), Prefixed(Extra, Ways(s.extra)));
      }
    }
  }

  lemma {:induction false} EarlierIsStrict(a: seq<Turn>)
    ensures !Earlier(a, a)
    decreases |a|
  {
    if a != [] {
      EarlierIsStrict(a[1..]);
    }
  }

  lemma InPrefixed(t: Turn, ways: seq<seq<Turn>>, way: seq<Turn>)
    requires way in ways
    ensures [t] + way in Prefixed(t, ways)
  {
    var k :| 0 <= k < |ways| && ways[k] == way;
    assert Prefixed(t, ways)[k] == [t] + way;
  }

  /** Every way to a loop is among them. */
  lemma {:induction false} WaysComplete(s: Stmt, way: seq<Turn>, depth: nat, l: Loop)
    requires LeadsTo(s, way, depth, l)
    ensures way in Ways(s)
    decreases |way|
  {
    if way == [] {
      assert OwnWays(s)[0] == [];
    } else {
      var t, rest := way[0], way[1..];
      assert way == [t] + rest;
      match t
      case Next =>
        WaysComplete(s.next, rest, depth, l);
        InPrefixed(Next, Ways(s.next), rest);
      case Down =>
        WaysComplete(s.down, rest, if IsLoop(s.kind) then depth + 1 else depth, l);
        InPrefixed(Down, Ways(s.down), rest);
      case Extra =>
        WaysComplete(s.extra, rest, depth, l);
        InPrefixed(Extra, Ways(s.extra), rest);
    }
  }

  /**
   * The listed loops are the For, While and Do statements that a way leads to, each with the number of loops
   * around it, once for every way and in the order of the text.
   */
  lemma LoopsAreTheLoops(s: Stmt, depth: nat)
    ensures Lead(s, Ways(s), depth, Loops(s, depth)) && InOrder(Ways(s))
    ensures forall i, j :: 0 <= i < j < |Ways(s)| ==> Ways(s)[i] != Ways(s)[j]
    ensures forall way, l :: LeadsTo(s, way, depth, l) ==> way in Ways(s)
  {
    WaysLead(s, depth);
    WaysInOrder(s);
    forall i, j | 0 <= i < j < |Ways(s)|
      ensures Ways(s)[i] != Ways(s)[j]
    {
      EarlierIsStrict(Ways(s)[i]);
    }
    forall way, l | LeadsTo(s, way, depth, l)
      ensures way in Ways(s)
    {
      WaysComplete(s, way, depth, l);
    }
  }

  lemma LoopListedIff(s: Stmt, l: Loop)
    ensures l in Loops(s, 0) <==> exists way :: LeadsTo(s, way, 0, l)
  {
    WaysLead(s, 0);
    if l in Loops(s, 0) {
      var k :| 0 <= k < |Loops(s, 0)| && Loops(s, 0)[k] == l;
      assert LeadsTo(s, Ways(s)[k], 0, l);
    }
    if way :| LeadsTo(s, way, 0, l) {
      WaysComplete(s, way, 0, l);
      var k :| 0 <= k < |Ways(s)| && Ways(s)[k] == way;
      assert LeadsTo(s, Ways(s)[k], 0, Loops(s, 0)[k]);
    }
  }

  // ---------- what is requested ----------

  /** The loops with fewer than max loops around them. */
  function Shallow(loops: seq<Loop>, max: int): (r: seq<Loop>)
    ensures forall l :: l in r <==> l in loops && l.depth < max
  {
    if loops == [] then []
    else
      assert loops == [loops[0]] + loops[1..];
      (if loops[0].depth < max then [loops[0]] else []) + Shallow(loops[1..], max)
  }

  ghost predicate PairAt(items: seq<Item>, k: nat, l: Loop) {
    && 2 * k + 1 < |items|
    && items[2 * k] == StartTimer(l.begin, l.begin, l.end)
    && items[2 * k + 1] == StopTimer(Loc(l.end.line, l.end.col + 1), l.begin, l.end)
  }

  /** A start and a stop, one behind the other, for each loop and nothing else. */
  ghost predicate Pairs(items: seq<Item>, loops: seq<Loop>) {
    |items| == 2 * |loops| && forall k :: 0 <= k < |loops| ==> PairAt(items, k, loops[k])
  }

  lemma PairsCons(l: Loop, items: seq<Item>, loops: seq<Loop>)
    requires Pairs(items, loops)
    ensures Pairs([Start(l), Stop(l)] + items, [l] + loops)
  {
    var more := [Start(l), Stop(l)] + items;
    forall k | 0 <= k < |loops| + 1
      ensures PairAt(more, k, ([l] + loops)[k])
    {
      if k > 0 {
        assert PairAt(items, k - 1, loops[k - 1]);
        assert more[2 * k] == items[2 * (k - 1)] && more[2 * k + 1] == items[2 * (k - 1) + 1];
      }
    }
  }

  lemma {:induction false} RequestsArePairs(loops: seq<Loop>, max: int)
    ensures Pairs(Requests(loops, max), Shallow(loops, max))
    decreases |loops|
  {
    if loops != [] {
      RequestsArePairs(loops[1..], max);
      if loops[0].depth < max {
        PairsCons(loops[0], Requests(loops[1..], max), Shallow(loops[1..], max));
      } else {
        assert [] + Requests(loops[1..], max) == Requests(loops[1..], max);
        assert [] + Shallow(loops[1..], max) == Shallow(loops[1..], max);
      }
    }
  }

  lemma StartsInPairs(items: seq<Item>, loops: seq<Loop>, begin: Loc, end: Loc)
    requires Pairs(items, loops)
    ensures StartTimer(begin, begin, end) in items <==> exists l :: l in loops && l.begin == begin && l.end == end
  {
    if StartTimer(begin, begin, end) in items {
      var i :| 0 <= i < |items| && items[i] == StartTimer(begin, begin, end);
      var k := i / 2;
      assert PairAt(items, k, loops[k]);
      assert i == 2 * k;
      assert loops[k] in loops;
    }
    if l :| l in loops && l.begin == begin && l.end == end {
      var k :| 0 <= k < |loops| && loops[k] == l;
      assert PairAt(items, k, loops[k]);
    }
  }

  /** A timer is started at a loop exactly when it is a For, While or Do statement inside fewer than max of them. */
  lemma StartedIff(s: Stmt, max: int, begin: Loc, end: Loc)
    ensures StartTimer(begin, begin, end) in Requests(Loops(s, 0), max) <==>
              exists way, d: nat :: d < max && LeadsTo(s, way, 0, Loop(begin, end, d))
  {
    var loops := Loops(s, 0);
    var kept := Shallow(loops, max);
    RequestsArePairs(loops, max);
    StartsInPairs(Requests(loops, max), kept, begin, end);
    if l :| l in kept && l.begin == begin && l.end == end {
      LoopListedIff(s, l);
      var way :| LeadsTo(s, way, 0, l);
      assert l == Loop(begin, end, l.depth);
      assert LeadsTo(s, way, 0, Loop(begin, end, l.depth));
    }
    if way, d: nat :| d < max && LeadsTo(s, way, 0, Loop(begin, end, d)) {
      LoopListedIff(s, Loop(begin, end, d));
      assert Loop(begin, end, d) in kept;
    }
  }

  /** One do-while loop gets its timer. */
  lemma DoLoopIsTimed(begin: Loc, end: Loc)
    ensures Requests(Loops(Stmt(Do, begin, end, NoStmt, NoStmt, NoStmt), 0), 1) ==
              [StartTimer(begin, begin, end), StopTimer(Loc(end.line, end.col + 1), begin, end)]
  {
    var s, l := Stmt(Do, begin, end, NoStmt, NoStmt, NoStmt), Loop(begin, end, 0);
    assert Loops(NoStmt, 1) == [] && Loops(NoStmt, 0) == [];
    assert OwnLoops(s, 0) == [l] + [];
    assert Loops(s, 0) == [l] + [] + [];
    assert [l] + [] + [] == [l] && [l][1..] == [];
    assert Requests([], 1) == [];
    assert Requests([l], 1) == [Start(l), Stop(l)] + [];
  }

  // ---------- nesting ----------

  predicate Before(a: Loc, b: Loc) { a.line < b.line || (a.line == b.line && a.col < b.col) }

  predicate NotAfter(a: Loc, b: Loc) { a == b || Before(a, b) }

  /** Statements lie one behind the other between two places, each with its parts inside. */
  ghost predicate Placed(s: Stmt, low: Loc, high: Loc)
    decreases s
  {
    match s
    case NoStmt => true
    case Stmt(_, begin, end, down, extra, next) =>
      && NotAfter(low, begin) && NotAfter(begin, end) && NotAfter(end, high)
      && (exists mid :: Parted(s, mid) && Placed(down, begin, mid) && Placed(extra, mid, end))
      && (next.Stmt? ==> Before(end, next.begin)) && Placed(next, end, high)
  }

  /** mid separates the two parts of a statement. */
  ghost predicate Parted(s: Stmt, mid: Loc)
    requires s.Stmt?
  {
    NotAfter(s.begin, mid) && NotAfter(mid, s.end) && (s.extra.Stmt? ==> Before(mid, s.extra.begin))
  }

  /** Two timer intervals, from start to stop, are disjoint or one contains the other. */
  ghost predicate ProperlyNested(a: Loop, b: Loop) {
    || NotAfter(Stop(a).at, Start(b).at) || NotAfter(Stop(b).at, Start(a).at)
    || (NotAfter(Start(a).at, Start(b).at) && NotAfter(Stop(b).at, Stop(a).at))
    || (NotAfter(Start(b).at, Start(a).at) && NotAfter(Stop(a).at, Stop(b).at))
  }

  ghost predicate AllWithin(loops: seq<Loop>, low: Loc, high: Loc) {
    forall k :: 0 <= k < |loops| ==> NotAfter(low, loops[k].begin) && NotAfter(loops[k].end, high)
  }

  ghost predicate AllNested(loops: seq<Loop>) {
    forall i, j :: 0 <= i < j < |loops| ==> ProperlyNested(loops[i], loops[j])
  }

  /** The loops of placed statements lie where the statements lie. */
  lemma {:induction false} LoopsWithin(s: Stmt, low: Loc, high: Loc, depth: nat)
    requires Placed(s, low, high)
    ensures AllWithin(Loops(s, depth), low, high)
    ensures s.Stmt? ==> AllWithin(Loops(s, depth), s.begin, high)
    decreases s, 1
  {
    if s.Stmt? {
      OwnWithin(s, low, high, depth);
      LoopsWithin(s.next, s.end, high, depth);
    }
  }

  lemma {:induction false} OwnWithin(s: Stmt, low: Loc, high: Loc, depth: nat)
    requires s.Stmt? && Placed(s, low, high)
    ensures AllWithin(OwnLoops(s, depth), s.begin, s.end)
    decreases s, 0
  {
    var mid :| Parted(s, mid) && Placed(s.down, s.begin, mid) && Placed(s.extra, mid, s.end);
    if IsLoop(s.kind) {
      LoopsWithin(s.down, s.begin, mid, depth + 1);
    } else {
      LoopsWithin(s.down, s.begin, mid, depth);
      LoopsWithin(s.extra, mid, s.end, depth);
    }
  }

  /** Loops of two regions, one behind the other. */
  lemma NestedConcat(a: seq<Loop>, low: Loc, mid: Loc, b: seq<Loop>, mid': Loc, high: Loc)
    requires AllNested(a) && AllNested(b) && AllWithin(a, low, mid) && AllWithin(b, mid', high)
    requires a == [] || b == [] || Before(mid, mid')
    ensures AllNested(a + b)
  {
    var all := a + b;
    forall i, j | 0 <= i < j < |all|
      ensures ProperlyNested(all[i], all[j])
    {
      if i < |a| <= j {
        assert NotAfter(a[i].end, mid) && NotAfter(mid', b[j - |a|].begin);
      }
    }
  }

  /** A loop and the loops inside it. */
  lemma NestedInside(l: Loop, inner: seq<Loop>)
    requires AllNested(inner) && AllWithin(inner, l.begin, l.end)
    ensures AllNested([l] + inner)
  {
    var all := [l] + inner;
    forall i, j | 0 <= i < j < |all|
      ensures ProperlyNested(all[i], all[j])
    {
      if i == 0 {
        assert all[j] == inner[j - 1];
      }
    }
  }

  lemma {:induction false} OwnNest(s: Stmt, low: Loc, high: Loc, depth: nat)
    requires s.Stmt? && Placed(s, low, high)
    ensures AllNested(OwnLoops(s, depth))
    decreases s, 0
  {
    var mid :| Parted(s, mid) && Placed(s.down, s.begin, mid) && Placed(s.extra, mid, s.end);
    if IsLoop(s.kind) {
      TimersNest(s.down, s.begin, mid, depth + 1);
      LoopsWithin(s.down, s.begin, mid, depth + 1);
      NestedInside(Loop(s.begin, s.end, depth), Loops(s.down, depth + 1));
    } else if !s.kind.Upc? {
      TimersNest(s.down, s.begin, mid, depth);
      TimersNest(s.extra, mid, s.end, depth);
      LoopsWithin(s.down, s.begin, mid, depth);
      LoopsWithin(s.extra, mid, s.end, depth);
      NestedConcat(Loops(s.down, depth), s.begin, mid, Loops(s.extra, depth),
                   if s.extra.Stmt? then s.extra.begin else mid, s.end);
    }
  }

  /** Wherever statements nest properly in the source, so do the intervals of all timers. */
  lemma {:induction false} TimersNest(s: Stmt, low: Loc, high: Loc, depth: nat)
    requires Placed(s, low, high)
    ensures AllNested(Loops(s, depth))
    decreases s, 1
  {
    if s.Stmt? {
      OwnNest(s, low, high, depth);
      OwnWithin(s, low, high, depth);
      TimersNest(s.next, s.end, high, depth);
      LoopsWithin(s.next, s.end, high, depth);
      NestedConcat(OwnLoops(s, depth), s.begin, s.end, Loops(s.next, depth),
                   if s.next.Stmt? then s.next.begin else s.end, high);
    }
  }
}
