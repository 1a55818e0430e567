/**
 * The profile read off the events themselves: how long a routine is open, how long it is on top,
 * how often it is entered, and how often another one is entered while it is on top.  The forest's
 * reference profile and the converter's books agree with it.
 */
module TraceProfile {
  import opened CallTree
  import opened Profile
  import opened Snapshots

  /** The activations open after one more event. */
  function Opened(open: seq<int>, e: Event): seq<int> {
    if e.Enter? then open + [e.id] else if open == [] then [] else open[..|open| - 1]
  }

  /** Time during which a routine is open, from the time of the event before. */
  function OpenTime(open: seq<int>, last: int, es: seq<Event>, id: int): int
    decreases |es|
  {
    if es == [] then 0
    else
      (if id in open then es[0].time - last else 0) + OpenTime(Opened(open, es[0]), es[0].time, es[1..], id)
  }

  /** Time during which it is the innermost open one. */
  function TopTime(open: seq<int>, last: int, es: seq<Event>, id: int): int
    decreases |es|
  {
    if es == [] then 0
    else
      (if open != [] && open[|open| - 1] == id then es[0].time - last else 0)
      + TopTime(Opened(open, es[0]), es[0].time, es[1..], id)
  }

  function EntriesOf(es: seq<Event>, id: int): nat {
    if es == [] then 0 else (if es[0].Enter? && es[0].id == id then 1 else 0) + EntriesOf(es[1..], id)
  }

  /** Entries of any routine while this one is innermost. */
  function EntriesFrom(open: seq<int>, es: seq<Event>, id: int): nat
    decreases |es|
  {
    if es == [] then 0
    else
      (if es[0].Enter? && open != [] && open[|open| - 1] == id then 1 else 0)
      + EntriesFrom(Opened(open, es[0]), es[1..], id)
  }

  // ---------- a call inside a trace ----------

  /** What a forest contributes in a context, and what comes behind it. */
  lemma {:induction false} OpenTimeOf(open: seq<int>, last: int, f: Forest, rest: seq<Event>, id: int)
    ensures OpenTime(open, last, Events(f) + rest, id) ==
              (if id in open then LastLeave(last, f) - last else Inclusive(f, id))
              + OpenTime(open, LastLeave(last, f), rest, id)
    decreases f
  {
    match f
    case Nil => assert Events(f) + rest == rest;
    case Call(c, enter, inside, leave, after) =>
      var tail := EventsShape(f, rest);
      OpenTimeOf(open + [c], enter, inside, tail, id);
      OpenTimeOf(open, leave, after, rest, id);
      assert (open + [c])[..|open|] == open;
  }

  lemma {:induction false} TopTimeOf(open: seq<int>, last: int, f: Forest, rest: seq<Event>, id: int)
    ensures TopTime(open, last, Events(f) + rest, id) ==
              Exclusive(f, id) + (if IsTop(open, id) then LastLeave(last, f) - last - Span(f) else 0)
              + TopTime(open, LastLeave(last, f), rest, id)
    decreases f
  {
    match f
    case Nil => assert Events(f) + rest == rest;
    case Call(c, enter, inside, leave, after) =>
      var tail := EventsShape(f, rest);
      TopTimeOf(open + [c], enter, inside, tail, id);
      TopTimeOf(open, leave, after, rest, id);
      assert (open + [c])[..|open|] == open;
  }

  lemma {:induction false} EntriesOfForest(f: Forest, rest: seq<Event>, id: int)
    ensures EntriesOf(Events(f) + rest, id) == Calls(f, id) + EntriesOf(rest, id)
    decreases f
  {
    match f
    case Nil => assert Events(f) + rest == rest;
    case Call(c, enter, inside, leave, after) =>
      var tail := EventsShape(f, rest);
      EntriesOfForest(inside, tail, id);
      EntriesOfForest(after, rest, id);
  }

  lemma {:induction false} EntriesFromForest(open: seq<int>, f: Forest, rest: seq<Event>, id: int)
    ensures EntriesFrom(open, Events(f) + rest, id) ==
              Subroutines(f, id) + (if IsTop(open, id) then Width(f) else 0) + EntriesFrom(open, rest, id)
    decreases f
  {
    match f
    case Nil => assert Events(f) + rest == rest;
    case Call(c, enter, inside, leave, after) =>
      var tail := EventsShape(f, rest);
      EntriesFromForest(open + [c], inside, tail, id);
      EntriesFromForest(open, after, rest, id);
      assert (open + [c])[..|open|] == open;
  }

  /** The forest's reference profile is the profile read off its events. */
  lemma ForestProfileIsTraceProfile(f: Forest, es: seq<Event>, id: int)
    requires es == Events(f)
    ensures Inclusive(f, id) == OpenTime([], 0, es, id) && Exclusive(f, id) == TopTime([], 0, es, id)
    ensures Calls(f, id) == EntriesOf(es, id) && Subroutines(f, id) == EntriesFrom([], es, id)
  {
    assert es + [] == es;
    OpenTimeOf([], 0, f, [], id);
    TopTimeOf([], 0, f, [], id);
    EntriesOfForest(f, [], id);
    EntriesFromForest([], f, [], id);
  }

  /** Non-negative times are what the converter's sentinel needs. */
  lemma NonNegativeTimes(keys: set<int>, es: seq<Event>)
    requires forall e :: e in es ==> e.id in keys && 0 <= e.time
    ensures Acceptable(keys, es)
  {
  }

  /**
   * For every complete well-nested trace with times from 0 on, the converter ends with the time each routine
   * was open as its inclusive time, the time it was on top as its exclusive time, its entries as its calls,
   * and the entries made from it as its subroutines.
   */
  lemma BooksAreTraceProfile(keys: set<int>, es: seq<Event>, id: int)
    requires WellNested(es) && id in keys && forall e :: e in es ==> e.id in keys && 0 <= e.time
    ensures Acceptable(keys, es)
    ensures Run(Initial(keys), es).callstack == []
    ensures Run(Initial(keys), es).allstate[id] ==
              State(OpenTime([], 0, es, id), TopTime([], 0, es, id), EntriesOf(es, id), EntriesFrom([], es, id), -1, -1, 0)
  {
    var f := Parse(es).0;
    NonNegativeTimes(keys, es);
    WellNestedIsForest(es);
    FinalProfile(keys, es, f);
    ForestProfileIsTraceProfile(f, es, id);
  }

  lemma NestedCall(f: Forest)
    requires f == Call(1, 0, Call(1, 5, Nil, 7, Nil), 10, Nil)
    ensures Events(f) == [Enter(0, 1), Enter(5, 1), Leave(7, 1), Leave(10, 1)]
  {
    assert Events(f.inside) == [Enter(5, 1), Leave(7, 1)];
  }

  lemma OneCallProfile(enter: int, leave: int, f: Forest)
    requires f == Call(1, enter, Nil, leave, Nil)
    ensures Span(f) == leave - enter && Width(f) == 1 && Calls(f, 1) == 1 && Subroutines(f, 1) == 0
    ensures Exclusive(f, 1) == leave - enter && Inclusive(f, 1) == leave - enter
  {
    assert Span(Nil) == 0 && Width(Nil) == 0 && Calls(Nil, 1) == 0 && Subroutines(Nil, 1) == 0;
    assert Exclusive(Nil, 1) == 0 && Inclusive(Nil, 1) == 0;
  }

  lemma NestedCallProfile(f: Forest)
    requires f == Call(1, 0, Call(1, 5, Nil, 7, Nil), 10, Nil)
    ensures ProfileOf(f, 1) == State(10, 10, 2, 1, -1, -1, 0)
  {
    OneCallProfile(5, 7, f.inside);
    AroundProfile(f, f.inside);
  }

  lemma AroundProfile(f: Forest, inside: Forest)
    requires f == Call(1, 0, inside, 10, Nil)
    ensures Inclusive(f, 1) == 10 && Exclusive(f, 1) == 10 - Span(inside) + Exclusive(inside, 1)
    ensures Calls(f, 1) == 1 + Calls(inside, 1) && Subroutines(f, 1) == Width(inside) + Subroutines(inside, 1)
  {
    assert Calls(Nil, 1) == 0 && Subroutines(Nil, 1) == 0 && Exclusive(Nil, 1) == 0 && Inclusive(Nil, 1) == 0;
  }

  /** A routine that calls itself from time 0 on. */
  lemma RecursionFromTimeZero(es: seq<Event>)
    requires es == [Enter(0, 1), Enter(5, 1), Leave(7, 1), Leave(10, 1)]
    ensures WellNested(es) && Acceptable({1}, es)
    ensures Run(Initial({1}), es).allstate[1] == State(10, 10, 2, 1, -1, -1, 0)
  {
    var f := Call(1, 0, Call(1, 5, Nil, 7, Nil), 10, Nil);
    NestedCall(f);
    NestedCallProfile(f);
    ReplayForest([], f, []);
    assert es + [] == es;
    NonNegativeTimes({1}, es);
    FinalProfile({1}, es, f);
  }
}
