/**
 * Whole runs of the profiler: final profiles, snapshots of a live run, and the
 * conservation of time and of calls at every point of a run.
 */
module Snapshots {
  import opened CallTree
  import opened Profile

  // ---------- the final profile ----------

  /** What a thread's books must show for a state once every call has ended. */
  ghost function ProfileOf(f: Forest, id: int): State {
    State(Inclusive(f, id), Exclusive(f, id), Calls(f, id), Subroutines(f, id), -1, -1, 0)
  }

  /** The books of a thread that has not run yet. */
  ghost function Initial(keys: set<int>): Books {
    Books(map id | id in keys :: FRESH, [])
  }

  ghost predicate ShowsProfile(b: Books, f: Forest) {
    b.callstack == [] && forall id :: id in b.allstate ==> b.allstate[id] == ProfileOf(f, id)
  }

  /** After a complete well-nested trace, the trace of a call forest, the books show that forest's profile. */
  lemma FinalProfile(keys: set<int>, es: seq<Event>, f: Forest)
    requires WellNested(es) && Acceptable(keys, es) && Events(f) == es
    ensures ShowsProfile(Run(Initial(keys), es), f)
  {
    RunRefinesForest(Initial(keys), f);
    FromFresh(keys, f, Run(Initial(keys), es));
  }

  lemma FromFresh(keys: set<int>, f: Forest, r: Books)
    requires Accounted(Initial(keys), f, r)
    ensures ShowsProfile(r, f)
  {
  }

  // ---------- snapshots ----------

  /** Leaves that close all open calls at one time, innermost first. */
  ghost function Closing(open: seq<int>, time: int): seq<Event>
    decreases |open|
  {
    if open == [] then []
    else [Leave(time, open[|open| - 1])] + Closing(open[..|open| - 1], time)
  }

  /** The books once StateLeave has been called for every open call. */
  ghost function Closed(b: Books, time: int): Books
    requires Defined(b)
    decreases |b.callstack|
  {
    if b.callstack == [] then b
    else Closed(AfterLeave(b, time, b.callstack[|b.callstack| - 1]), time)
  }

  lemma {:induction false} ClosingReplays(open: seq<int>, time: int)
    ensures Replay(open, Closing(open, time)) == Open([])
    ensures forall e :: e in Closing(open, time) ==> e.time == time && e.id in open
    decreases |open|
  {
    if open != [] {
      var below := open[..|open| - 1];
      ClosingReplays(below, time);
      assert Closing(open, time)[1..] == Closing(below, time);
      assert forall id :: id in below ==> id in open;
    }
  }

  lemma {:induction false} ClosedIsRun(b: Books, time: int)
    requires Defined(b) && time != -1
    ensures Acceptable(b.allstate.Keys, Closing(b.callstack, time))
    ensures Replay(b.callstack, Closing(b.callstack, time)).Open?
    ensures Closed(b, time) == Run(b, Closing(b.callstack, time))
    decreases |b.callstack|
  {
    ClosingReplays(b.callstack, time);
    if b.callstack != [] {
      var top := b.callstack[|b.callstack| - 1];
      ClosedIsRun(AfterLeave(b, time, top), time);
      assert Closing(b.callstack, time)[1..] == Closing(b.callstack[..|b.callstack| - 1], time);
    }
  }

  /** The trace so far with every open call closed at the given time. */
  ghost function ClosedTrace(es: seq<Event>, time: int): seq<Event>
    requires Nested(es)
  {
    es + Closing(Replay([], es).ids, time)
  }

  /** A snapshot shows the profile of the trace so far with every open call closed at the snapshot's time. */
  lemma SnapshotProfile(keys: set<int>, es: seq<Event>, time: int)
    requires Nested(es) && Acceptable(keys, es) && time != -1
    ensures WellNested(ClosedTrace(es, time))
    ensures Events(Parse(ClosedTrace(es, time)).0) == ClosedTrace(es, time)
    ensures ShowsProfile(Closed(Run(Initial(keys), es), time), Parse(ClosedTrace(es, time)).0)
  {
    var b := Run(Initial(keys), es);
    var closing := Closing(b.callstack, time);
    ClosedIsRun(b, time);
    ClosingReplays(b.callstack, time);
    ReplaySplit([], es, closing);
    RunSplit(Initial(keys), es, closing);
    WellNestedIsForest(es + closing);
    FinalProfile(keys, es + closing, Parse(es + closing).0);
  }

  /** PrintSnapshot's work on one thread: leave everything on a copy. */
  method SnapshotOf(live: Thread, time: int) returns (copy: Thread)
    requires Defined(live.Value())
    ensures fresh(copy) && copy.Value() == Closed(live.Value(), time)
  {
    copy := new Thread.CopyOf(live);
    while |copy.callstack| > 0
      invariant fresh(copy) && Defined(copy.Value())
      invariant Closed(copy.Value(), time) == Closed(live.Value(), time)
      decreases |copy.callstack|
    {
      copy.StateLeave(time, copy.callstack[|copy.callstack| - 1]);
    }
  }

  /** PrintSnapshot: all threads, each on a copy, and the books that are printed; the live threads are not in the frame at all. */
  method PrintSnapshot(threads: seq<Thread>, time: int) returns (printed: seq<Books>)
    requires forall k :: 0 <= k < |threads| ==> Defined(threads[k].Value())
    ensures |printed| == |threads|
    ensures forall k :: 0 <= k < |threads| ==> printed[k] == Closed(threads[k].Value(), time)
  {
    printed := [];
    for i := 0 to |threads|
      invariant |printed| == i
      invariant forall k :: 0 <= k < i ==> printed[k] == Closed(threads[k].Value(), time)
    {
      var copy := SnapshotOf(threads[i], time);
      printed := printed + [Books(copy.allstate, copy.callstack)];
    }
  }

  // ---------- interleaved traces with snapshots ----------

  datatype Action = Happens(thread: nat, event: Event) | Shoot(time: int)

  /** One thread's own events in an interleaved trace; snapshots are not events. */
  ghost function Project(actions: seq<Action>, thread: nat): seq<Event> {
    if actions == [] then []
    else
      var rest := Project(actions[..|actions| - 1], thread);
      var a := actions[|actions| - 1];
      if a.Happens? && a.thread == thread then rest + [a.event] else rest
  }

  /** Every thread's own events form a nested trace over known states at every point. */
  ghost predicate Playable(actions: seq<Action>, n: nat, keys: set<int>) {
    && (forall k :: 0 <= k < |actions| && actions[k].Happens? ==> actions[k].thread < n)
    && (forall t: nat, m: nat :: t < n && m <= |actions| ==> GoodTrace(Project(actions[..m], t), keys))
  }

  ghost predicate GoodTrace(es: seq<Event>, keys: set<int>) { Nested(es) && Acceptable(keys, es) }

  /** b is what the thread's own events so far produce. */
  ghost predicate Live(b: Books, actions: seq<Action>, thread: nat, keys: set<int>) {
    && GoodTrace(Project(actions, thread), keys)
    && b == Run(Initial(keys), Project(actions, thread))
  }

  lemma LiveStep(b: Books, done: seq<Action>, a: Action, thread: nat, keys: set<int>)
    requires Live(b, done, thread, keys) && GoodTrace(Project(done + [a], thread), keys)
    ensures Defined(b)
    ensures a.Happens? && a.thread == thread ==>
              && a.event.id in b.allstate && (a.event.Leave? ==> b.callstack != [])
              && Live(Step(b, a.event), done + [a], thread, keys)
    ensures !(a.Happens? && a.thread == thread) ==> Live(b, done + [a], thread, keys)
  {
    assert (done + [a])[..|done|] == done;
    if a.Happens? && a.thread == thread {
      var es, e := Project(done, thread), a.event;
      assert Project(done + [a], thread) == es + [e];
      RunSplit(Initial(keys), es, [e]);
      assert e in es + [e];
      assert [e][1..] == [];
      assert Replay(b.callstack, [e]).Open?;
    }
  }

  /** What is printed for action k shows the profile of every thread's own events before it, closed at its time. */
  ghost predicate ShotShows(printed: seq<Books>, actions: seq<Action>, k: nat, n: nat, keys: set<int>)
    requires k < |actions| && actions[k].Shoot?
  {
    && |printed| == n
    && forall t :: 0 <= t < n ==> ShowsThread(printed[t], Project(actions[..k], t), actions[k].time, keys)
  }

  ghost predicate ShowsThread(b: Books, es: seq<Event>, time: int, keys: set<int>) {
    && GoodTrace(es, keys)
    && (time != -1 ==> WellNested(ClosedTrace(es, time)) && ShowsProfile(b, Parse(ClosedTrace(es, time)).0))
  }

  lemma ShotOfLive(b: Books, actions: seq<Action>, thread: nat, keys: set<int>, time: int)
    requires Live(b, actions, thread, keys)
    ensures Defined(b) && ShowsThread(Closed(b, time), Project(actions, thread), time, keys)
  {
    if time != -1 {
      SnapshotProfile(keys, Project(actions, thread), time);
    }
  }

  ghost predicate AllLive(threads: seq<Thread>, actions: seq<Action>, keys: set<int>)
    reads threads
  {
    forall t :: 0 <= t < |threads| ==> Live(threads[t].Value(), actions, t, keys)
  }

  /** A snapshot of threads that are where their own events have brought them. */
  method ShootAll(threads: seq<Thread>, time: int, ghost done: seq<Action>, ghost keys: set<int>) returns (printed: seq<Books>)
    requires AllLive(threads, done, keys)
    ensures |printed| == |threads|
    ensures forall t :: 0 <= t < |threads| ==> ShowsThread(printed[t], Project(done, t), time, keys)
  {
    forall t | 0 <= t < |threads|
      ensures Defined(threads[t].Value())
      ensures ShowsThread(Closed(threads[t].Value(), time), Project(done, t), time, keys)
    {
      ShotOfLive(threads[t].Value(), done, t, keys, time);
    }
    printed := PrintSnapshot(threads, time);
  }

  /** One event of one thread. */
  method Happen(threads: seq<Thread>, t: nat, e: Event, ghost done: seq<Action>, ghost keys: set<int>)
    requires forall i, j :: 0 <= i < j < |threads| ==> threads[i] != threads[j]
    requires t < |threads| && AllLive(threads, done, keys)
    requires forall u: nat :: u < |threads| ==> GoodTrace(Project(done + [Happens(t, e)], u), keys)
    modifies threads[t]
    ensures AllLive(threads, done + [Happens(t, e)], keys)
  {
    ghost var a := Happens(t, e);
    forall u: nat | u < |threads|
      ensures u != t ==> Live(threads[u].Value(), done + [a], u, keys)
    {
      LiveStep(threads[u].Value(), done, a, u, keys);
    }
    LiveStep(threads[t].Value(), done, a, t, keys);
    match e {
      case Enter(time, id) => threads[t].StateEnter(time, id);
      case Leave(time, id) => threads[t].StateLeave(time, id);
    }
  }

  /** Exactly the snapshots among the first m actions, each as it should be. */
  ghost predicate AllShots(shots: map<nat, seq<Books>>, actions: seq<Action>, m: nat, n: nat, keys: set<int>)
    requires m <= |actions|
  {
    && (forall k: nat :: k in shots <==> k < m && actions[k].Shoot?)
    && (forall k: nat :: k in shots ==> ShotShows(shots[k], actions, k, n, keys))
  }

  lemma NoShot(shots: map<nat, seq<Books>>, actions: seq<Action>, k: nat, n: nat, keys: set<int>)
    requires k < |actions| && !actions[k].Shoot? && AllShots(shots, actions, k, n, keys)
    ensures AllShots(shots, actions, k + 1, n, keys)
  {
  }

  lemma ShotAdded(shots: map<nat, seq<Books>>, actions: seq<Action>, k: nat, n: nat, keys: set<int>, printed: seq<Books>)
    requires k < |actions| && actions[k].Shoot? && AllShots(shots, actions, k, n, keys)
    requires ShotShows(printed, actions, k, n, keys)
    ensures AllShots(shots[k := printed], actions, k + 1, n, keys)
  {
    var more := shots[k := printed];
    forall i: nat | i in more
      ensures ShotShows(more[i], actions, i, n, keys)
    {
      assert i != k ==> i in shots;
    }
  }

  lemma StaysPlayable(actions: seq<Action>, k: nat, n: nat, keys: set<int>)
    requires Playable(actions, n, keys) && k < |actions|
    ensures forall u: nat :: u < n ==> GoodTrace(Project(actions[..k] + [actions[k]], u), keys)
  {
    assert actions[..k + 1] == actions[..k] + [actions[k]];
    forall u: nat | u < n
      ensures GoodTrace(Project(actions[..k] + [actions[k]], u), keys)
    {
      assert GoodTrace(Project(actions[..k + 1], u), keys);
    }
  }

  lemma StayLive(threads: seq<Thread>, done: seq<Action>, time: int, keys: set<int>)
    requires AllLive(threads, done, keys)
    requires forall u: nat :: u < |threads| ==> GoodTrace(Project(done + [Shoot(time)], u), keys)
    ensures AllLive(threads, done + [Shoot(time)], keys)
  {
    forall u: nat | u < |threads|
      ensures Live(threads[u].Value(), done + [Shoot(time)], u, keys)
    {
      LiveStep(threads[u].Value(), done, Shoot(time), u, keys);
    }
  }

  /**
   * Any interleaving of the threads' events with any snapshots in between: every thread ends with the books
   * of its own events alone, so the final profile does not depend on the snapshots; and every snapshot
   * shows the profile of each thread's events up to it.
   */
  method PlayTrace(threads: seq<Thread>, actions: seq<Action>, ghost keys: set<int>) returns (shots: map<nat, seq<Books>>)
    requires forall i, j :: 0 <= i < j < |threads| ==> threads[i] != threads[j]
    requires forall t :: 0 <= t < |threads| ==> threads[t].Value() == Initial(keys)
    requires Playable(actions, |threads|, keys)
    modifies threads
    ensures AllLive(threads, actions, keys)
    ensures AllShots(shots, actions, |actions|, |threads|, keys)
  {
    shots := map[];
    assert actions[..0] == [];
    for k := 0 to |actions|
      invariant AllLive(threads, actions[..k], keys) && AllShots(shots, actions, k, |threads|, keys)
    {
      assert actions[..k + 1] == actions[..k] + [actions[k]];
      StaysPlayable(actions, k, |threads|, keys);
      match actions[k] {
        case Happens(t, e) =>
          Happen(threads, t, e, actions[..k], keys);
          NoShot(shots, actions, k, |threads|, keys);
        case Shoot(time) =>
          var printed := ShootAll(threads, time, actions[..k], keys);
          ShotAdded(shots, actions, k, |threads|, keys, printed);
          shots := shots[k := printed];
          StayLive(threads, actions[..k], time, keys);
      }
    }
    assert actions[..|actions|] == actions;
  }

  // ---------- conservation ----------

  ghost function Total(measure: State -> int, m: map<int, State>, ids: seq<int>): int
    requires forall k :: 0 <= k < |ids| ==> ids[k] in m
  {
    if ids == [] then 0
    else measure(m[ids[0]]) + Total(measure, m, ids[1..])
  }

  /** A duplicate-free list of all states. */
  ghost predicate Lists(ids: seq<int>, keys: set<int>) {
    && (forall k :: 0 <= k < |ids| ==> ids[k] in keys)
    && (forall id :: id in keys ==> id in ids)
    && (forall i, j :: 0 <= i < j < |ids| ==> ids[i] != ids[j])
  }

  lemma {:induction false} TotalUpdate(measure: State -> int, m: map<int, State>, ids: seq<int>, id: int, s: State)
    requires forall k :: 0 <= k < |ids| ==> ids[k] in m
    requires forall i, j :: 0 <= i < j < |ids| ==> ids[i] != ids[j]
    requires id in m
    ensures Total(measure, m[id := s], ids) ==
              Total(measure, m, ids) + (if id in ids then measure(s) - measure(m[id]) else 0)
    decreases |ids|
  {
    if ids != [] {
      TotalUpdate(measure, m, ids[1..], id, s);
      assert id in ids <==> id == ids[0] || id in ids[1..];
    }
  }

  /** Time during which some call is open, from the last event up to a final time. */
  ghost function Busy(open: seq<int>, last: int, es: seq<Event>, until: int): int
    requires Replay(open, es).Open?
    decreases |es|
  {
    if es == [] then (if open == [] then 0 else until - last)
    else
      (if open == [] then 0 else es[0].time - last)
      + Busy(if es[0].Enter? then open + [es[0].id] else open[..|open| - 1], es[0].time, es[1..], until)
  }

  /** Entries made while no call is open. */
  ghost function RootEntries(open: seq<int>, es: seq<Event>): nat
    requires Replay(open, es).Open?
    decreases |es|
  {
    if es == [] then 0
    else
      (if open == [] && es[0].Enter? then 1 else 0)
      + RootEntries(if es[0].Enter? then open + [es[0].id] else open[..|open| - 1], es[1..])
  }

  /** The stretch of the running top that is not yet in its exclusive time. */
  ghost function Pending(b: Books, now: int): int
    requires Defined(b)
  {
    if b.callstack == [] then 0
    else
      var top := b.callstack[|b.callstack| - 1];
      assert top in b.callstack;
      now - b.allstate[top].topTime
  }

  ghost function TotalExclusive(b: Books, ids: seq<int>): int
    requires Lists(ids, b.allstate.Keys)
  {
    Total((s: State) => s.exclusive, b.allstate, ids)
  }

  ghost function CallSurplus(b: Books, ids: seq<int>): int
    requires Lists(ids, b.allstate.Keys)
  {
    Total((s: State) => s.calls - s.subroutines, b.allstate, ids)
  }

  lemma EnterConserves(b: Books, time: int, id: int, ids: seq<int>)
    requires Defined(b) && id in b.allstate && Lists(ids, b.allstate.Keys)
    ensures TotalExclusive(AfterEnter(b, time, id), ids) == TotalExclusive(b, ids) + Pending(b, time)
    ensures Pending(AfterEnter(b, time, id), time) == 0
    ensures CallSurplus(AfterEnter(b, time, id), ids) == CallSurplus(b, ids) + (if b.callstack == [] then 1 else 0)
  {
    var excl, surplus := (s: State) => s.exclusive, (s: State) => s.calls - s.subroutines;
    var m := b.allstate;
    if b.callstack != [] {
      var top := b.callstack[|b.callstack| - 1];
      TotalUpdate(excl, m, ids, top, Suspended(m[top], time));
      TotalUpdate(surplus, m, ids, top, Suspended(m[top], time));
      m := m[top := Suspended(m[top], time)];
    }
    TotalUpdate(excl, m, ids, id, Begun(m[id], time));
    TotalUpdate(surplus, m, ids, id, Begun(m[id], time));
  }

  lemma LeaveConserves(b: Books, time: int, id: int, ids: seq<int>)
    requires Defined(b) && IsTop(b.callstack, id) && Lists(ids, b.allstate.Keys)
    ensures TotalExclusive(AfterLeave(b, time, id), ids) == TotalExclusive(b, ids) + Pending(b, time)
    ensures Pending(AfterLeave(b, time, id), time) == 0
    ensures CallSurplus(AfterLeave(b, time, id), ids) == CallSurplus(b, ids)
  {
    var excl, surplus := (s: State) => s.exclusive, (s: State) => s.calls - s.subroutines;
    var m := b.allstate;
    TotalUpdate(excl, m, ids, id, Ended(m[id], time));
    TotalUpdate(surplus, m, ids, id, Ended(m[id], time));
    m := m[id := Ended(m[id], time)];
    if |b.callstack| > 1 {
      var top := b.callstack[|b.callstack| - 2];
      TotalUpdate(excl, m, ids, top, m[top].(topTime := time));
      TotalUpdate(surplus, m, ids, top, m[top].(topTime := time));
    }
  }

  /**
   * At every point of every run: exclusive time plus the running stretch is exactly the time
   * some call was open, and calls exceed subroutine counts by exactly the entries on an empty stack.
   */
  lemma {:induction false} Conservation(b: Books, last: int, es: seq<Event>, until: int, ids: seq<int>)
    requires Defined(b) && Acceptable(b.allstate.Keys, es) && Replay(b.callstack, es).Open?
    requires Lists(ids, b.allstate.Keys)
    ensures TotalExclusive(Run(b, es), ids) + Pending(Run(b, es), until) ==
              TotalExclusive(b, ids) + Pending(b, last) + Busy(b.callstack, last, es, until)
    ensures CallSurplus(Run(b, es), ids) == CallSurplus(b, ids) + RootEntries(b.callstack, es)
    decreases |es|
  {
    if es != [] {
      match es[0] {
        case Enter(time, id) => EnterConserves(b, time, id, ids);
        case Leave(time, id) => LeaveConserves(b, time, id, ids);
      }
      Conservation(Step(b, es[0]), es[0].time, es[1..], until, ids);
    }
  }

  lemma {:induction false} FreshTotals(measure: State -> int, m: map<int, State>, ids: seq<int>)
    requires measure(FRESH) == 0
    requires forall k :: 0 <= k < |ids| ==> ids[k] in m && m[ids[k]] == FRESH
    ensures Total(measure, m, ids) == 0
    decreases |ids|
  {
    if ids != [] {
      FreshTotals(measure, m, ids[1..]);
    }
  }

  /** Conservation from the start of a trace. */
  lemma ConservationFromStart(keys: set<int>, es: seq<Event>, until: int, ids: seq<int>)
    requires Nested(es) && Acceptable(keys, es) && Lists(ids, keys)
    ensures TotalExclusive(Run(Initial(keys), es), ids) + Pending(Run(Initial(keys), es), until) ==
              Busy([], 0, es, until)
    ensures CallSurplus(Run(Initial(keys), es), ids) == RootEntries([], es)
  {
    FreshTotals((s: State) => s.exclusive, Initial(keys).allstate, ids);
    FreshTotals((s: State) => s.calls - s.subroutines, Initial(keys).allstate, ids);
    Conservation(Initial(keys), 0, es, until, ids);
  }
}
