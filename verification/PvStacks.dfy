/**
 * State stacks of the pv output: one array of slots per CPU, a pointer into each, and one
 * output record for every entry and exit.
 */
module PvStacks {

  const STACKSIZE := 1024

  datatype Slot = Slot(state: string, tag: int)

  const IDLE := Slot("IDLE", -99)

  /** DOWNTO on entry, UPTO on exit; both name the state that is current from now on. */
  datatype Line = Downto(cpu: nat, now: Slot) | Upto(cpu: nat, now: Slot)

  datatype PvEvent = EnterState(cpu: nat, state: string, no: int) | ExitState(cpu: nat)

  // ---------- stacks as values ----------

  /** Effect of one event on the stacks; the bottom slot is the idle state and never leaves. */
  ghost function After(stacks: seq<seq<Slot>>, e: PvEvent): seq<seq<Slot>>
    requires e.cpu < |stacks|
    requires e.ExitState? ==> |stacks[e.cpu]| > 0
  {
    match e
    case EnterState(cpu, state, no) => stacks[cpu := stacks[cpu] + [Slot(state, no)]]
    case ExitState(cpu) => stacks[cpu := stacks[cpu][..|stacks[cpu]| - 1]]
  }

  ghost predicate Based(stacks: seq<seq<Slot>>) {
    forall c :: 0 <= c < |stacks| ==> 0 < |stacks[c]| <= STACKSIZE && stacks[c][0] == IDLE
  }

  /** The event keeps every stack between its base and the array's end. */
  ghost predicate Allowed(stacks: seq<seq<Slot>>, e: PvEvent) {
    e.cpu < |stacks| && (if e.EnterState? then |stacks[e.cpu]| < STACKSIZE else |stacks[e.cpu]| > 1)
  }

  ghost predicate AllAllowed(stacks: seq<seq<Slot>>, es: seq<PvEvent>)
    requires Based(stacks)
    decreases |es|
  {
    es != [] ==> Allowed(stacks, es[0]) && AllAllowed(After(stacks, es[0]), es[1..])
  }

  ghost function Stacks(stacks: seq<seq<Slot>>, es: seq<PvEvent>): (r: seq<seq<Slot>>)
    requires Based(stacks) && AllAllowed(stacks, es)
    ensures Based(r) && |r| == |stacks|
    decreases |es|
  {
    if es == [] then stacks else Stacks(After(stacks, es[0]), es[1..])
  }

  // ---------- what a run restores ----------

  /** Entries minus exits of one CPU. */
  ghost function Net(es: seq<PvEvent>, c: nat): int {
    if es == [] then 0
    else (if es[0].cpu != c then 0 else if es[0].EnterState? then 1 else -1) + Net(es[1..], c)
  }

  /** No exit of the CPU belongs to an entry before the first event. */
  ghost predicate NeverBelow(es: seq<PvEvent>, c: nat) {
    forall k :: 0 <= k <= |es| ==> Net(es[..k], c) >= 0
  }

  lemma {:induction false} NetSnoc(es: seq<PvEvent>, e: PvEvent, c: nat)
    ensures Net(es + [e], c) == Net(es, c) + (if e.cpu != c then 0 else if e.EnterState? then 1 else -1)
    decreases |es|
  {
    if es == [] {
      assert [e][1..] == [];
    } else {
      assert (es + [e])[1..] == es[1..] + [e];
      NetSnoc(es[1..], e, c);
    }
  }

  lemma {:induction false} StacksSnoc(stacks: seq<seq<Slot>>, es: seq<PvEvent>, e: PvEvent)
    requires Based(stacks) && AllAllowed(stacks, es + [e])
    ensures AllAllowed(stacks, es) && Allowed(Stacks(stacks, es), e)
    ensures Stacks(stacks, es + [e]) == After(Stacks(stacks, es), e)
    decreases |es|
  {
    if es == [] {
      assert [e][1..] == [] && es + [e] == [e];
    } else {
      assert (es + [e])[1..] == es[1..] + [e];
      StacksSnoc(After(stacks, es[0]), es[1..], e);
    }
  }

  /** Depths are counted by entries minus exits. */
  lemma {:induction false} DepthIsNet(stacks: seq<seq<Slot>>, es: seq<PvEvent>, c: nat)
    requires Based(stacks) && AllAllowed(stacks, es) && c < |stacks|
    ensures |Stacks(stacks, es)[c]| == |stacks[c]| + Net(es, c)
    decreases |es|
  {
    if es != [] {
      DepthIsNet(After(stacks, es[0]), es[1..], c);
    }
  }

  /** Whatever the other CPUs do, what lies below stays as long as the CPU never goes below it. */
  lemma {:induction false} BelowStays(stacks: seq<seq<Slot>>, es: seq<PvEvent>, c: nat)
    requires Based(stacks) && AllAllowed(stacks, es) && c < |stacks| && NeverBelow(es, c)
    ensures stacks[c] <= Stacks(stacks, es)[c]
    decreases |es|
  {
    if es == [] {
    } else {
      var front, e := es[..|es| - 1], es[|es| - 1];
      assert es == front + [e];
      StacksSnoc(stacks, front, e);
      forall k | 0 <= k <= |front|
        ensures Net(front[..k], c) >= 0
      {
        assert front[..k] == es[..k];
      }
      BelowStays(stacks, front, c);
      DepthIsNet(stacks, front, c);
      NetSnoc(front, e, c);
      assert es[..|es|] == es && Net(es, c) >= 0;
    }
  }

  /**
   * An exit restores the state that was current before the matching entry, for any events of any
   * CPUs in between that are balanced on this one.
   */
  lemma ExitRestores(stacks: seq<seq<Slot>>, c: nat, state: string, no: int, between: seq<PvEvent>, es: seq<PvEvent>)
    requires Based(stacks) && c < |stacks|
    requires NeverBelow(between, c) && Net(between, c) == 0
    requires es == [EnterState(c, state, no)] + between + [ExitState(c)] && AllAllowed(stacks, es)
    ensures Stacks(stacks, es)[c] == stacks[c]
  {
    var enter, exit := EnterState(c, state, no), ExitState(c);
    var inner := [enter] + between;
    StacksSnoc(stacks, inner, exit);
    assert inner[1..] == between;
    var entered := After(stacks, enter);
    BelowStays(entered, between, c);
    DepthIsNet(entered, between, c);
  }

  // ---------- the output ----------

  /** The state last written for a CPU. */
  ghost function Shown(lines: seq<Line>, c: nat): Slot {
    if lines == [] then IDLE
    else if lines[|lines| - 1].cpu == c then lines[|lines| - 1].now
    else Shown(lines[..|lines| - 1], c)
  }

  lemma ShownSnoc(lines: seq<Line>, line: Line)
    ensures forall c :: Shown(lines + [line], c) == if line.cpu == c then line.now else Shown(lines, c)
  {
    assert (lines + [line])[..|lines|] == lines;
  }

  /** What becomes of an entry: the guard stops the program, or the slot to be written is behind the array, or neither. */
  datatype Entry = Entered | Stopped | PastEnd

  class Output {
    const statestk: array2<Slot>
    const stkptr: array<int>
    var lines: seq<Line>
    ghost var stacks: seq<seq<Slot>>

    /** The arrays hold the stacks, and the state last written for every CPU is the top of its stack. */
    ghost predicate Valid()
      reads this, statestk, stkptr
    {
      && statestk.Length0 == stkptr.Length == |stacks| && statestk.Length1 == STACKSIZE && Based(stacks)
      && forall c :: 0 <= c < |stacks| ==> Row(c)
    }

    ghost predicate Row(c: nat)
      requires statestk.Length0 == stkptr.Length && statestk.Length1 == STACKSIZE
      requires c < |stacks| && c < stkptr.Length
      reads this, statestk, stkptr
    {
      && stkptr[c] + 1 == |stacks[c]| && 0 < |stacks[c]| <= STACKSIZE
      && (forall i :: 0 <= i < |stacks[c]| ==> statestk[c, i] == stacks[c][i])
      && Shown(lines, c) == stacks[c][|stacks[c]| - 1]
    }

    constructor (numproc: nat)
      ensures Valid() && stacks == seq(numproc + 1, _ => [Slot("IDLE", -99)]) && lines == []
      ensures fresh(statestk) && fresh(stkptr) && statestk.Length1 == 1024
    {
      statestk := new Slot[numproc + 1, STACKSIZE]((_, _) => IDLE);
      stkptr := new int[numproc + 1](_ => 0);
      lines, stacks := [], seq(numproc + 1, _ => [IDLE]);
    }

    /** Exit branch: false is the underflow error that ends the program. */
    method Exit(cpu: nat) returns (ok: bool)
      requires Valid() && cpu < |stacks|
      modifies this, stkptr
      ensures ok <==> |old(stacks)[cpu]| > 1
      ensures ok ==> Valid() && stacks == After(old(stacks), ExitState(cpu))
      ensures lines == if ok then old(lines) + [Upto(cpu, stacks[cpu][|stacks[cpu]| - 1])] else old(lines)
    {
      assert Row(cpu);
      stkptr[cpu] := stkptr[cpu] - 1;
      if stkptr[cpu] < 0 {
        return false;
      }
      var now := statestk[cpu, stkptr[cpu]];
      ghost var popped := stacks[cpu][..|stacks[cpu]| - 1];
      assert |popped| == stkptr[cpu] + 1 && popped[|popped| - 1] == now;
      ShownSnoc(lines, Upto(cpu, now));
      lines := lines + [Upto(cpu, now)];
      stacks := stacks[cpu := popped];
      forall c | 0 <= c < |stacks|
        ensures Row(c)
      {
        assert old(Row(c));
      }
      ok := true;
    }

    /**
     * Entry branch.  The guard lets one entry more pass than the array has slots for, so it is never
     * what stops a run: the line is written, and then the slot behind the array.
     */
    method Enter(cpu: nat, state: string, no: int) returns (r: Entry)
      requires Valid() && cpu < |stacks|
      modifies this, stkptr, statestk
      ensures r == (if |old(stacks)[cpu]| == 1024 then PastEnd else Entered)
      ensures lines == old(lines) + [Downto(cpu, Slot(state, no))]
      ensures r.Entered? ==> Valid() && stacks == After(old(stacks), EnterState(cpu, state, no))
    {
      assert Row(cpu);
      ShownSnoc(lines, Downto(cpu, Slot(state, no)));
      stkptr[cpu] := stkptr[cpu] + 1;
      if stkptr[cpu] > STACKSIZE {
        return Stopped;
      }
      lines := lines + [Downto(cpu, Slot(state, no))];
      if stkptr[cpu] == STACKSIZE {
        return PastEnd;
      }
      statestk[cpu, stkptr[cpu]] := Slot(state, no);
      stacks := stacks[cpu := stacks[cpu] + [Slot(state, no)]];
      forall c | 0 <= c < |stacks|
        ensures Row(c)
      {
        assert old(Row(c));
      }
      r := Entered;
    }

    /** The check after the last record. */
    method AllIdle() returns (ok: bool)
      requires Valid()
      ensures ok <==> forall c :: 0 <= c < |stacks| ==> |stacks[c]| == 1
    {
      for i := 0 to stkptr.Length
        invariant forall c :: 0 <= c < i ==> |stacks[c]| == 1
      {
        assert Row(i);
        if stkptr[i] != 0 {
          assert |stacks[i]| != 1;
          return false;
        }
      }
      ok := true;
    }
  }

  // ---------- whole runs ----------

  /** How a conversion ends: all stacks idle, some not, an exit on an empty stack, or a write behind the array. */
  datatype Ending = Done | NotIdle | Underflow | Overrun

  ghost predicate Known(stacks: seq<seq<Slot>>, es: seq<PvEvent>) {
    forall k :: 0 <= k < |es| ==> es[k].cpu < |stacks|
  }

  ghost predicate Idle(stacks: seq<seq<Slot>>) { forall c :: 0 <= c < |stacks| ==> |stacks[c]| == 1 }

  ghost function EndOf(stacks: seq<seq<Slot>>, es: seq<PvEvent>): Ending
    requires Based(stacks) && Known(stacks, es)
    decreases |es|
  {
    if es == [] then (if Idle(stacks) then Done else NotIdle)
    else if es[0].ExitState? && |stacks[es[0].cpu]| == 1 then Underflow
    else if es[0].EnterState? && |stacks[es[0].cpu]| == STACKSIZE then Overrun
    else EndOf(After(stacks, es[0]), es[1..])
  }

  /** A run comes to its last check exactly when every event finds its stack within bounds. */
  lemma {:induction false} ComesToCheck(stacks: seq<seq<Slot>>, es: seq<PvEvent>)
    requires Based(stacks) && Known(stacks, es)
    ensures AllAllowed(stacks, es) <==> EndOf(stacks, es).Done? || EndOf(stacks, es).NotIdle?
    ensures AllAllowed(stacks, es) ==> (EndOf(stacks, es).Done? <==> Idle(Stacks(stacks, es)))
    decreases |es|
  {
    if es != [] && Allowed(stacks, es[0]) {
      ComesToCheck(After(stacks, es[0]), es[1..]);
    }
  }

  /** The depth of a CPU's stack before event k, if the run comes so far. */
  ghost function Depth(stacks: seq<seq<Slot>>, es: seq<PvEvent>, c: nat, k: nat): int
    requires c < |stacks| && k <= |es|
  {
    |stacks[c]| + Net(es[..k], c)
  }

  lemma DepthAfter(stacks: seq<seq<Slot>>, es: seq<PvEvent>, c: nat, k: nat)
    requires Based(stacks) && c < |stacks| && 0 < k <= |es| && es[0].cpu < |stacks|
    ensures Depth(stacks, es, c, 0) == |stacks[c]|
    ensures Depth(stacks, es, c, k) == Depth(After(stacks, es[0]), es[1..], c, k - 1)
  {
    assert es[..0] == [];
    assert es[..k][0] == es[0] && es[..k][1..] == es[1..][..k - 1];
  }

  /** A CPU's depth stays from 1 to the size of the array throughout. */
  ghost predicate Within(stacks: seq<seq<Slot>>, es: seq<PvEvent>, c: nat)
    requires c < |stacks|
  {
    forall k :: 0 <= k <= |es| ==> 1 <= Depth(stacks, es, c, k) <= STACKSIZE
  }

  lemma WithinTail(stacks: seq<seq<Slot>>, es: seq<PvEvent>, c: nat)
    requires Based(stacks) && c < |stacks| && es != [] && Allowed(stacks, es[0])
    ensures Within(stacks, es, c) <==> Within(After(stacks, es[0]), es[1..], c)
  {
    if Within(stacks, es, c) {
      forall k | 0 <= k <= |es[1..]|
        ensures 1 <= Depth(After(stacks, es[0]), es[1..], c, k) <= STACKSIZE
      {
        DepthAfter(stacks, es, c, k + 1);
      }
    }
    if Within(After(stacks, es[0]), es[1..], c) {
      forall k | 0 <= k <= |es|
        ensures 1 <= Depth(stacks, es, c, k) <= STACKSIZE
      {
        DepthAfter(stacks, es, c, if k == 0 then 1 else k);
      }
    }
  }

  lemma FirstAllowed(stacks: seq<seq<Slot>>, es: seq<PvEvent>)
    requires Based(stacks) && es != [] && es[0].cpu < |stacks| && Within(stacks, es, es[0].cpu)
    ensures Allowed(stacks, es[0])
  {
    var c, one := es[0].cpu, es[..1];
    assert one[0] == es[0] && one[1..] == [];
    assert Net(one, c) == if es[0].EnterState? then 1 else -1;
    assert 1 <= Depth(stacks, es, c, 1) <= STACKSIZE;
  }

  /** Every event finds its stack within bounds exactly when every CPU's depth stays within them. */
  lemma {:induction false} AllowedIffWithin(stacks: seq<seq<Slot>>, es: seq<PvEvent>)
    requires Based(stacks) && Known(stacks, es)
    ensures AllAllowed(stacks, es) <==> forall c: nat :: c < |stacks| ==> Within(stacks, es, c)
    decreases |es|
  {
    if es == [] {
      forall c: nat | c < |stacks|
        ensures Within(stacks, es, c)
      {
        assert es[..0] == [];
      }
    } else if Allowed(stacks, es[0]) {
      AllowedIffWithin(After(stacks, es[0]), es[1..]);
      forall c: nat | c < |stacks|
        ensures Within(stacks, es, c) <==> Within(After(stacks, es[0]), es[1..], c)
      {
        WithinTail(stacks, es, c);
      }
    } else if Within(stacks, es, es[0].cpu) {
      FirstAllowed(stacks, es);
    }
  }

  /** On one CPU that starts and stays within bounds, entries and exits balance exactly when its stack is back at its base. */
  lemma IdleAtEnd(start: seq<seq<Slot>>, es: seq<PvEvent>, c: nat)
    requires Based(start) && AllAllowed(start, es) && c < |start| && |start[c]| == 1
    ensures |Stacks(start, es)[c]| == 1 <==> Net(es, c) == 0
  {
    DepthIsNet(start, es, c);
  }

  /** No CPU gets deeper than its array. */
  ghost predicate FitsArray(start: seq<seq<Slot>>, es: seq<PvEvent>) {
    forall c: nat, k: nat :: c < |start| && k <= |es| ==> Depth(start, es, c, k) <= STACKSIZE
  }

  lemma WithinFromIdle(start: seq<seq<Slot>>, es: seq<PvEvent>)
    requires Idle(start)
    ensures (forall c: nat :: c < |start| ==> Within(start, es, c)) <==>
              FitsArray(start, es) && forall c: nat :: c < |start| ==> NeverBelow(es, c)
  {
    if forall c: nat :: c < |start| ==> Within(start, es, c) {
      forall c: nat, k: nat | c < |start| && k <= |es|
        ensures Depth(start, es, c, k) <= STACKSIZE && Net(es[..k], c) >= 0
      {
        assert Within(start, es, c);
        assert 1 <= Depth(start, es, c, k) <= STACKSIZE;
      }
    }
    if FitsArray(start, es) && forall c: nat :: c < |start| ==> NeverBelow(es, c) {
      forall c: nat | c < |start|
        ensures Within(start, es, c)
      {
        assert NeverBelow(es, c);
        forall k | 0 <= k <= |es|
          ensures 1 <= Depth(start, es, c, k) <= STACKSIZE
        {
          assert Net(es[..k], c) >= 0;
        }
      }
    }
  }

  /**
   * A conversion from idle stacks is done exactly when no CPU gets deeper than its array, none exits
   * more often than it has entered, and entries and exits balance on each.
   */
  lemma DoneIff(start: seq<seq<Slot>>, es: seq<PvEvent>)
    requires Based(start) && Idle(start) && Known(start, es)
    ensures EndOf(start, es).Done? <==>
              FitsArray(start, es) && forall c: nat :: c < |start| ==> NeverBelow(es, c) && Net(es, c) == 0
  {
    ComesToCheck(start, es);
    AllowedIffWithin(start, es);
    WithinFromIdle(start, es);
    if AllAllowed(start, es) {
      forall c: nat | c < |start|
        ensures |Stacks(start, es)[c]| == 1 <==> Net(es, c) == 0
      {
        IdleAtEnd(start, es, c);
      }
      IdleIff(Stacks(start, es), es);
    }
  }

  lemma IdleIff(end: seq<seq<Slot>>, es: seq<PvEvent>)
    requires forall c: nat :: c < |end| ==> (|end[c]| == 1 <==> Net(es, c) == 0)
    ensures Idle(end) <==> forall c: nat :: c < |end| ==> Net(es, c) == 0
  {
    if Idle(end) {
      forall c: nat | c < |end|
        ensures Net(es, c) == 0
      {
        assert |end[c]| == 1;
      }
    } else {
      var c: nat :| c < |end| && |end[c]| != 1;
      assert Net(es, c) != 0;
    }
  }

  /** A write behind the array is made at a depth of exactly the array's size. */
  lemma {:induction false} OverrunDepth(stacks: seq<seq<Slot>>, es: seq<PvEvent>) returns (c: nat, k: nat)
    requires Based(stacks) && Known(stacks, es) && EndOf(stacks, es).Overrun?
    ensures c < |stacks| && k < |es| && es[k].cpu == c && es[k].EnterState?
    ensures Depth(stacks, es, c, k) == STACKSIZE && Depth(stacks, es, c, k + 1) == STACKSIZE + 1
    decreases |es|
  {
    if es[0].EnterState? && |stacks[es[0].cpu]| == STACKSIZE {
      c, k := es[0].cpu, 0;
      var none, one := es[..0], es[..1];
      assert none == [] && one[0] == es[0] && one[1..] == [];
      assert Net(none, c) == 0 && Net(one, c) == 1;
      assert Depth(stacks, es, c, 0) == STACKSIZE && Depth(stacks, es, c, 1) == STACKSIZE + 1;
    } else {
      var i;
      c, i := OverrunDepth(After(stacks, es[0]), es[1..]);
      k := i + 1;
      DepthAfter(stacks, es, c, k);
      DepthAfter(stacks, es, c, k + 1);
    }
  }

  lemma OverrunDoesNotFit(start: seq<seq<Slot>>, es: seq<PvEvent>)
    requires Based(start) && Known(start, es) && EndOf(start, es).Overrun?
    ensures !FitsArray(start, es)
  {
    var c, k := OverrunDepth(start, es);
    assert Depth(start, es, c, k + 1) > STACKSIZE;
  }

  /** When no CPU gets deeper than its array, the program stops for an underflow exactly when some CPU exits too often. */
  lemma UnderflowIff(start: seq<seq<Slot>>, es: seq<PvEvent>)
    requires Based(start) && Idle(start) && Known(start, es) && FitsArray(start, es)
    ensures EndOf(start, es).Underflow? <==> exists c: nat :: c < |start| && !NeverBelow(es, c)
  {
    ComesToCheck(start, es);
    AllowedIffWithin(start, es);
    WithinFromIdle(start, es);
    if EndOf(start, es).Overrun? {
      OverrunDoesNotFit(start, es);
    }
  }

  lemma EndStep(stacks: seq<seq<Slot>>, es: seq<PvEvent>, k: nat)
    requires Based(stacks) && k < |es| && Known(stacks, es[k..])
    ensures es[k..][0] == es[k] && es[k..][1..] == es[k + 1..]
    ensures es[k].cpu < |stacks|
    ensures Allowed(stacks, es[k]) ==> Known(After(stacks, es[k]), es[k + 1..])
    ensures EndOf(stacks, es[k..]) ==
              if Allowed(stacks, es[k]) then EndOf(After(stacks, es[k]), es[k + 1..])
              else if es[k].ExitState? then Underflow else Overrun
  {
    assert es[k..][0] == es[k] && es[k..][1..] == es[k + 1..];
    assert forall j :: k < j < |es| ==> es[k..][j - k] == es[j];
  }

  lemma {:induction false} AllowedSnoc(stacks: seq<seq<Slot>>, es: seq<PvEvent>, e: PvEvent)
    requires Based(stacks) && AllAllowed(stacks, es) && Allowed(Stacks(stacks, es), e)
    ensures AllAllowed(stacks, es + [e]) && Stacks(stacks, es + [e]) == After(Stacks(stacks, es), e)
    decreases |es|
  {
    if es == [] {
      assert [e][1..] == [] && es + [e] == [e];
    } else {
      assert (es + [e])[1..] == es[1..] + [e];
      AllowedSnoc(After(stacks, es[0]), es[1..], e);
    }
  }

  /** The line of event k: what is entered, or the state that the exit leaves on top of the CPU's stack. */
  ghost predicate LineOf(line: Line, start: seq<seq<Slot>>, es: seq<PvEvent>, k: nat)
    requires Based(start) && k < |es|
  {
    match es[k]
    case EnterState(cpu, state, no) => line == Downto(cpu, Slot(state, no))
    case ExitState(cpu) =>
      && AllAllowed(start, es[..k + 1]) && cpu < |start|
      && var stack := Stacks(start, es[..k + 1])[cpu]; line == Upto(cpu, stack[|stack| - 1])
  }

  /** One line for each of the first m events, in order. */
  ghost predicate Printed(lines: seq<Line>, start: seq<seq<Slot>>, es: seq<PvEvent>, m: nat)
    requires Based(start) && m <= |es|
  {
    |lines| == m && forall k :: 0 <= k < m ==> LineOf(lines[k], start, es, k)
  }

  /** The run has come through the first m events. */
  ghost predicate Through(out: Output, start: seq<seq<Slot>>, es: seq<PvEvent>, m: nat)
    requires Based(start) && m <= |es|
    reads out, out.statestk, out.stkptr
  {
    out.Valid() && AllAllowed(start, es[..m]) && out.stacks == Stacks(start, es[..m])
  }

  lemma PrintedOne(lines: seq<Line>, line: Line, start: seq<seq<Slot>>, es: seq<PvEvent>, m: nat)
    requires Based(start) && m < |es| && Printed(lines, start, es, m) && LineOf(line, start, es, m)
    ensures Printed(lines + [line], start, es, m + 1)
  {
  }

  /** One event; a run that is stopped keeps its lines, with one more for a write behind the array. */
  method ConvertOne(out: Output, es: seq<PvEvent>, k: nat, ghost start: seq<seq<Slot>>, ghost before: seq<Line>, ghost printed: seq<Line>)
    returns (ok: bool, ghost printed': seq<Line>)
    requires Based(start) && k < |es| && Through(out, start, es, k) && es[k].cpu < |start|
    requires out.lines == before + printed && Printed(printed, start, es, k)
    modifies out, out.statestk, out.stkptr
    ensures ok <==> Allowed(old(out.stacks), es[k])
    ensures ok ==> Through(out, start, es, k + 1) && out.stacks == After(old(out.stacks), es[k])
    ensures ok ==> out.lines == before + printed' && Printed(printed', start, es, k + 1)
    ensures !ok && es[k].ExitState? ==> out.lines == before + printed
    ensures !ok && es[k].EnterState? ==> out.lines == before + printed + [Downto(es[k].cpu, Slot(es[k].state, es[k].no))]
  {
    assert es[..k + 1] == es[..k] + [es[k]];
    if Allowed(out.stacks, es[k]) {
      AllowedSnoc(start, es[..k], es[k]);
    }
    printed' := printed;
    match es[k] {
      case EnterState(cpu, state, no) =>
        var r := out.Enter(cpu, state, no);
        ok := r.Entered?;
      case ExitState(cpu) =>
        ok := out.Exit(cpu);
    }
    if ok {
      ghost var line := out.lines[|out.lines| - 1];
      PrintedOne(printed, line, start, es, k);
      printed' := printed + [line];
    }
  }

  /**
   * The entry and exit branches over a list of events, and the final check.  m is the number of events
   * the run gets through, and every one of them has its line.
   */
  method Convert(out: Output, es: seq<PvEvent>) returns (end: Ending, ghost m: nat, ghost printed: seq<Line>)
    requires out.Valid() && Known(out.stacks, es)
    modifies out, out.statestk, out.stkptr
    ensures end == EndOf(old(out.stacks), es)
    ensures m <= |es| && AllAllowed(old(out.stacks), es[..m]) && Printed(printed, old(out.stacks), es, m)
    ensures end.Done? || end.NotIdle? ==>
              m == |es| && out.Valid() && AllAllowed(old(out.stacks), es) && out.stacks == Stacks(old(out.stacks), es)
              && out.lines == old(out.lines) + printed
    ensures end.Underflow? ==>
              m < |es| && es[m].ExitState? && |Stacks(old(out.stacks), es[..m])[es[m].cpu]| == 1
              && out.lines == old(out.lines) + printed
    ensures end.Overrun? ==>
              m < |es| && es[m].EnterState? && |Stacks(old(out.stacks), es[..m])[es[m].cpu]| == 1024
              && out.lines == old(out.lines) + printed + [Downto(es[m].cpu, Slot(es[m].state, es[m].no))]
  {
    ghost var start, before := out.stacks, out.lines;
    assert es[0..] == es && es[..0] == [];
    printed, m := [], 0;
    for k := 0 to |es|
      invariant m == k && Through(out, start, es, k)
      invariant out.lines == before + printed && Printed(printed, start, es, k)
      invariant Known(out.stacks, es[k..]) && EndOf(out.stacks, es[k..]) == EndOf(start, es)
    {
      EndStep(out.stacks, es, k);
      var ok;
      ghost var printed';
      ok, printed' := ConvertOne(out, es, k, start, before, printed);
      if !ok {
        return if es[k].ExitState? then Underflow else Overrun, m, printed;
      }
      printed, m := printed', k + 1;
    }
    assert es[..|es|] == es;
    var idle := out.AllIdle();
    end := if idle then Done else NotIdle;
  }
}
