/**
 * The online profiler: one pass over a thread's enter and leave events with -1
 * sentinels, a recursion count and a call stack, proved to compute the profile of
 * the call forest.
 */
module Profile {
  import opened CallTree

  const UNSET := -1

  /** A state's books.  topTime and fullTime are UNSET when not running. */
  datatype State = State(inclusive: int, exclusive: int, calls: int, subroutines: int,
                         topTime: int, fullTime: int, countRec: int)

  const FRESH := State(0, 0, 0, 0, UNSET, UNSET, 0)

  datatype Books = Books(allstate: map<int, State>, callstack: seq<int>)

  // ---------- one step, as a function of the books ----------

  predicate Defined(b: Books) { forall id :: id in b.callstack ==> id in b.allstate }

  /** The running top is interrupted by a call. */
  function Suspended(s: State, time: int): State {
    s.(subroutines := s.subroutines + 1, exclusive := s.exclusive + time - s.topTime, topTime := UNSET)
  }

  /** A new activation starts; only the first one starts the full clock. */
  function Begun(s: State, time: int): State {
    s.(calls := s.calls + 1, topTime := time, countRec := s.countRec + 1,
       fullTime := if s.fullTime == UNSET then time else s.fullTime)
  }

  /** An activation ends; only the last one stops the full clock. */
  function Ended(s: State, time: int): State {
    var last := s.countRec == 1;
    s.(exclusive := s.exclusive + time - s.topTime, topTime := UNSET, countRec := s.countRec - 1,
       inclusive := if last then s.inclusive + time - s.fullTime else s.inclusive,
       fullTime := if last then UNSET else s.fullTime)
  }

  function AfterEnter(b: Books, time: int, id: int): (r: Books)
    requires Defined(b) && id in b.allstate
    ensures Defined(r) && r.allstate.Keys == b.allstate.Keys
  {
    var m := if b.callstack == [] then b.allstate
             else
               var top := b.callstack[|b.callstack| - 1];
               b.allstate[top := Suspended(b.allstate[top], time)];
    Books(m[id := Begun(m[id], time)], b.callstack + [id])
  }

  function AfterLeave(b: Books, time: int, id: int): (r: Books)
    requires Defined(b) && id in b.allstate && b.callstack != []
    ensures Defined(r) && r.allstate.Keys == b.allstate.Keys
  {
    var m := b.allstate[id := Ended(b.allstate[id], time)];
    var stack := b.callstack[..|b.callstack| - 1];
    if stack == [] then Books(m, stack)
    else
      var top := b.callstack[|b.callstack| - 2];
      Books(m[top := m[top].(topTime := time)], stack)
  }

  // ---------- the thread object ----------

  class Thread {
    var allstate: map<int, State>
    var callstack: seq<int>

    ghost function Value(): Books
      reads this
    {
      Books(allstate, callstack)
    }

    constructor (defined: map<int, State>)
      ensures Value() == Books(defined, [])
    {
      allstate, callstack := defined, [];
    }

    constructor CopyOf(other: Thread)
      ensures Value() == other.Value()
    {
      allstate, callstack := other.allstate, other.callstack;
    }

    method StateEnter(time: int, id: int)
      requires Defined(Value()) && id in allstate
      modifies this
      ensures Value() == AfterEnter(old(Value()), time, id)
    {
      if callstack != [] {
        var lastcall := callstack[|callstack| - 1];
        var s := allstate[lastcall];
        s := s.(subroutines := s.subroutines + 1);
        s := s.(exclusive := s.exclusive + time - s.topTime);
        s := s.(topTime := UNSET);
        allstate := allstate[lastcall := s];
      }
      var s := allstate[id];
      s := s.(calls := s.calls + 1);
      s := s.(topTime := time);
      if s.fullTime == UNSET {
        s := s.(fullTime := time);
      }
      s := s.(countRec := s.countRec + 1);
      allstate := allstate[id := s];
      callstack := callstack + [id];
    }

    method StateLeave(time: int, id: int)
      requires Defined(Value()) && id in allstate && callstack != []
      modifies this
      ensures Value() == AfterLeave(old(Value()), time, id)
    {
      var s := allstate[id];
      s := s.(exclusive := s.exclusive + time - s.topTime);
      s := s.(topTime := UNSET);
      s := s.(countRec := s.countRec - 1);
      if s.countRec == 0 {
        s := s.(inclusive := s.inclusive + time - s.fullTime);
        s := s.(fullTime := UNSET);
      }
      allstate := allstate[id := s];
      callstack := callstack[..|callstack| - 1];
      if callstack != [] {
        var lastcall := callstack[|callstack| - 1];
        allstate := allstate[lastcall := allstate[lastcall].(topTime := time)];
      }
    }
  }

  // ---------- runs ----------

  /** What the event stream must provide: defined states, and times that are not the sentinel. */
  ghost predicate Acceptable(keys: set<int>, es: seq<Event>) {
    forall e :: e in es ==> e.id in keys && e.time != -1
  }

  ghost function Step(b: Books, e: Event): Books
    requires Defined(b) && e.id in b.allstate && (e.Leave? ==> b.callstack != [])
  {
    match e
    case Enter(time, id) => AfterEnter(b, time, id)
    case Leave(time, id) => AfterLeave(b, time, id)
  }

  ghost function Run(b: Books, es: seq<Event>): (r: Books)
    requires Defined(b) && Acceptable(b.allstate.Keys, es) && Replay(b.callstack, es).Open?
    ensures Defined(r) && r.allstate.Keys == b.allstate.Keys
    ensures r.callstack == Replay(b.callstack, es).ids
    decreases |es|
  {
    if es == [] then b else Run(Step(b, es[0]), es[1..])
  }

  lemma {:induction false} RunSplit(b: Books, x: seq<Event>, y: seq<Event>)
    requires Defined(b) && Acceptable(b.allstate.Keys, x + y) && Replay(b.callstack, x + y).Open?
    ensures Acceptable(b.allstate.Keys, x) && Acceptable(b.allstate.Keys, y) && Replay(b.callstack, x).Open?
    ensures Replay(Replay(b.callstack, x).ids, y).Open?
    ensures Run(b, x + y) == Run(Run(b, x), y)
    decreases |x|
  {
    ReplaySplit(b.callstack, x, y);
    if x == [] {
      assert x + y == y;
    } else {
      assert (x + y)[1..] == x[1..] + y;
      RunSplit(Step(b, x[0]), x[1..], y);
    }
  }

  // ---------- the invariant of the books ----------

  ghost predicate IsTop(stack: seq<int>, id: int) { stack != [] && stack[|stack| - 1] == id }

  /** The recursion count is the multiplicity on the stack, and the two clocks run exactly when they should. */
  ghost predicate Consistent(b: Books) {
    Defined(b) && forall id :: id in b.allstate ==> StateConsistent(b.allstate[id], b.callstack, id)
  }

  ghost predicate StateConsistent(s: State, stack: seq<int>, id: int) {
    && s.countRec == multiset(stack)[id]
    && (s.fullTime != UNSET <==> s.countRec > 0)
    && (s.topTime != UNSET <==> IsTop(stack, id))
  }

  lemma EnterConsistent(b: Books, time: int, id: int)
    requires Consistent(b) && id in b.allstate && time != -1
    ensures Consistent(AfterEnter(b, time, id))
  {
    assert multiset(b.callstack + [id]) == multiset(b.callstack) + multiset{id};
  }

  lemma LeaveConsistent(b: Books, time: int, id: int)
    requires Consistent(b) && id in b.allstate && time != -1 && IsTop(b.callstack, id)
    ensures Consistent(AfterLeave(b, time, id))
  {
    var rest, r := b.callstack[..|b.callstack| - 1], AfterLeave(b, time, id);
    assert b.callstack == rest + [id];
    assert multiset(b.callstack) == multiset(rest) + multiset{id};
    forall other | other in r.allstate
      ensures StateConsistent(r.allstate[other], rest, other)
    {
      assert StateConsistent(b.allstate[other], b.callstack, other);
    }
  }

  /** The invariant holds after every event of every nested trace. */
  lemma {:induction false} RunConsistent(b: Books, es: seq<Event>)
    requires Consistent(b) && Acceptable(b.allstate.Keys, es) && Replay(b.callstack, es).Open?
    ensures Consistent(Run(b, es))
    decreases |es|
  {
    if es != [] {
      match es[0] {
        case Enter(time, id) => EnterConsistent(b, time, id);
        case Leave(time, id) => LeaveConsistent(b, time, id);
      }
      RunConsistent(Step(b, es[0]), es[1..]);
    }
  }

  // ---------- refinement of the call forest ----------

  /** Leave time of the last sibling call, or the given time when there is none. */
  ghost function LastLeave(before: int, f: Forest): int
    decreases f
  {
    match f
    case Nil => before
    case Call(_, _, _, leave, after) => LastLeave(leave, after)
  }

  /** How a forest changes the books of one state that is or is not on the stack below, and is or is not its top. */
  ghost function Account(s: State, onStack: bool, top: bool, f: Forest, id: int): State {
    State(s.inclusive + (if onStack then 0 else Inclusive(f, id)),
          s.exclusive + Exclusive(f, id) + (if top then LastLeave(s.topTime, f) - s.topTime - Span(f) else 0),
          s.calls + Calls(f, id),
          s.subroutines + Subroutines(f, id) + (if top then Width(f) else 0),
          if top then LastLeave(s.topTime, f) else s.topTime,
          s.fullTime,
          s.countRec)
  }

  /** r is b with every state's books changed as the forest says. */
  ghost predicate Accounted(b: Books, f: Forest, r: Books) {
    && r.callstack == b.callstack
    && r.allstate.Keys == b.allstate.Keys
    && forall id :: id in b.allstate ==>
         r.allstate[id] == Account(b.allstate[id], id in b.callstack, IsTop(b.callstack, id), f, id)
  }

  /** The reference profile of one call on its own. */
  lemma SingleCall(before: int, f: Forest, id: int)
    requires f.Call?
    ensures var one := f.(after := Nil);
            && Span(one) == f.leave - f.enter && Width(one) == 1 && LastLeave(before, one) == f.leave
            && Calls(one, id) == (if f.id == id then 1 else 0) + Calls(f.inside, id)
            && Subroutines(one, id) == (if f.id == id then Width(f.inside) else 0) + Subroutines(f.inside, id)
            && Exclusive(one, id) ==
                 (if f.id == id then f.leave - f.enter - Span(f.inside) else 0) + Exclusive(f.inside, id)
            && Inclusive(one, id) == (if f.id == id then f.leave - f.enter else Inclusive(f.inside, id))
  {
    var one := f.(after := Nil);
    assert one.after == Nil && Span(one.after) == 0 && Width(one.after) == 0 && LastLeave(f.leave, one.after) == f.leave;
    assert Calls(one.after, id) == 0 && Subroutines(one.after, id) == 0;
    assert Exclusive(one.after, id) == 0 && Inclusive(one.after, id) == 0;
  }

  /** The sibling calls of a forest account one after the other. */
  lemma AccountAfter(s: State, onStack: bool, top: bool, f: Forest, id: int)
    requires f.Call?
    ensures Account(s, onStack, top, f, id) ==
              Account(Account(s, onStack, top, f.(after := Nil), id), onStack, top, f.after, id)
  {
    SingleCall(s.topTime, f, id);
  }

  /** One call with everything inside it, from the point of view of one state. */
  lemma AccountCall(s: State, onStack: bool, top: bool, f: Forest, id: int)
    requires f.Call? && f.enter != -1 && f.leave != -1
    requires s.countRec >= 0 && (onStack <==> s.countRec > 0) && (top ==> onStack)
    requires (s.fullTime != UNSET <==> s.countRec > 0) && (s.topTime != UNSET <==> top)
    ensures var self := id == f.id;
            var s0 := if top then Suspended(s, f.enter) else s;
            var s1 := if self then Begun(s0, f.enter) else s0;
            var s2 := Account(s1, onStack || self, self, f.inside, id);
            var s3 := if self then Ended(s2, f.leave) else s2;
            (if top then s3.(topTime := f.leave) else s3) == Account(s, onStack, top, f.(after := Nil), id)
  {
    SingleCall(s.topTime, f, id);
  }

  lemma CallAccounted(b: Books, f: Forest, b2: Books)
    requires Consistent(b) && f.Call? && f.id in b.allstate && f.enter != -1 && f.leave != -1
    requires Accounted(AfterEnter(b, f.enter, f.id), f.inside, b2)
    ensures Defined(b2) && b2.callstack != []
    ensures Accounted(b, f.(after := Nil), AfterLeave(b2, f.leave, f.id))
  {
    var b1 := AfterEnter(b, f.enter, f.id);
    var b3 := AfterLeave(b2, f.leave, f.id);
    assert b1.callstack[..|b1.callstack| - 1] == b.callstack;
    forall id | id in b.allstate
      ensures b3.allstate[id] ==
              Account(b.allstate[id], id in b.callstack, IsTop(b.callstack, id), f.(after := Nil), id)
    {
      AccountCall(b.allstate[id], id in b.callstack, IsTop(b.callstack, id), f, id);
      assert id in b1.callstack <==> id in b.callstack || id == f.id;
    }
  }

  /**
   * Refinement: running the events of any forest on top of any consistent books adds
   * to every state exactly what the forest's reference profile says.
   */
  lemma {:induction false} RunRefinesForest(b: Books, f: Forest)
    requires Consistent(b) && Acceptable(b.allstate.Keys, Events(f))
    ensures Replay(b.callstack, Events(f)) == Open(b.callstack)
    ensures Accounted(b, f, Run(b, Events(f)))
    decreases f
  {
    ReplayForest(b.callstack, f, []);
    assert Events(f) + [] == Events(f);
    match f
    case Nil =>
    case Call(c, enter, inside, leave, after) =>
      var tail := EventsShape(f, []);
      assert Events(f)[0] == Enter(enter, c) && Enter(enter, c) in Events(f);
      assert Leave(leave, c) in Events(f);
      assert Events(after) + [] == Events(after);
      var b1 := AfterEnter(b, enter, c);
      EnterConsistent(b, enter, c);
      RunRefinesForest(b1, inside);
      var b2 := Run(b1, Events(inside));
      RunSplit(b1, Events(inside), tail);
      CallAccounted(b, f, b2);
      var b3 := AfterLeave(b2, leave, c);
      RunConsistent(b1, Events(inside));
      LeaveConsistent(b2, leave, c);
      RunRefinesForest(b3, after);
      forall id | id in b.allstate {
        AccountAfter(b.allstate[id], id in b.callstack, IsTop(b.callstack, id), f, id);
      }
  }
}
