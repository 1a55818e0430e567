/**
 * Reference meaning of a thread's trace: the forest of its calls and the profile
 * read off that forest.  Nothing here knows how the converter keeps its books.
 */
module CallTree {

  datatype Event = Enter(time: int, id: int) | Leave(time: int, id: int)

  /** A list of sibling calls, each with the calls made inside it. */
  datatype Forest = Nil | Call(id: int, enter: int, inside: Forest, leave: int, after: Forest)

  function Events(f: Forest): seq<Event> {
    match f
    case Nil => []
    case Call(id, enter, inside, leave, after) =>
      [Enter(enter, id)] + Events(inside) + [Leave(leave, id)] + Events(after)
  }

  /** Number of sibling calls. */
  function Width(f: Forest): nat {
    match f
    case Nil => 0
    case Call(_, _, _, _, after) => 1 + Width(after)
  }

  /** Time between entry and exit, summed over the sibling calls. */
  function Span(f: Forest): int {
    match f
    case Nil => 0
    case Call(_, enter, _, leave, after) => leave - enter + Span(after)
  }

  /** Activations of a routine. */
  function Calls(f: Forest, id: int): nat {
    match f
    case Nil => 0
    case Call(c, _, inside, _, after) => (if c == id then 1 else 0) + Calls(inside, id) + Calls(after, id)
  }

  /** Calls made directly by activations of a routine. */
  function Subroutines(f: Forest, id: int): nat {
    match f
    case Nil => 0
    case Call(c, _, inside, _, after) =>
      (if c == id then Width(inside) else 0) + Subroutines(inside, id) + Subroutines(after, id)
  }

  /** Time spent in activations of a routine but not in the calls they make. */
  function Exclusive(f: Forest, id: int): int {
    match f
    case Nil => 0
    case Call(c, enter, inside, leave, after) =>
      (if c == id then leave - enter - Span(inside) else 0) + Exclusive(inside, id) + Exclusive(after, id)
  }

  /** Time spent in the outermost activations of a routine: recursion is not counted twice. */
  function Inclusive(f: Forest, id: int): int {
    match f
    case Nil => 0
    case Call(c, enter, inside, leave, after) =>
      (if c == id then leave - enter else Inclusive(inside, id)) + Inclusive(after, id)
  }

  // ---------- traces and forests ----------

  /** The activations open after a trace, innermost last; None when a leave does not name the innermost one. */
  datatype OpenCalls = Mismatch | Open(ids: seq<int>)

  function Replay(open: seq<int>, es: seq<Event>): (r: OpenCalls)
    decreases |es|
  {
    if es == [] then Open(open)
    else match es[0]
      case Enter(_, id) => Replay(open + [id], es[1..])
      case Leave(_, id) =>
        if open != [] && open[|open| - 1] == id then Replay(open[..|open| - 1], es[1..]) else Mismatch
  }

  /** A prefix of a well-nested trace: every leave closes the innermost open call. */
  ghost predicate Nested(es: seq<Event>) { Replay([], es).Open? }

  /** A complete well-nested trace. */
  ghost predicate WellNested(es: seq<Event>) { Replay([], es) == Open([]) }

  lemma {:induction false} ReplaySplit(open: seq<int>, a: seq<Event>, b: seq<Event>)
    ensures Replay(open, a + b) == if Replay(open, a).Open? then Replay(Replay(open, a).ids, b) else Mismatch
    decreases |a|
  {
    if a == [] {
      assert a + b == b;
    } else {
      assert (a + b)[0] == a[0] && (a + b)[1..] == a[1..] + b;
      match a[0]
      case Enter(_, id) => ReplaySplit(open + [id], a[1..], b);
      case Leave(_, id) =>
        if open != [] && open[|open| - 1] == id {
          ReplaySplit(open[..|open| - 1], a[1..], b);
        }
    }
  }

  /** A call's trace: its entry, the calls inside, its exit, the calls after. */
  lemma EventsShape(f: Forest, rest: seq<Event>) returns (tail: seq<Event>)
    requires f.Call?
    ensures Events(f) + rest == [Enter(f.enter, f.id)] + (Events(f.inside) + tail)
    ensures (Events(f) + rest)[0] == Enter(f.enter, f.id) && (Events(f) + rest)[1..] == Events(f.inside) + tail
    ensures tail != [] && tail[0] == Leave(f.leave, f.id) && tail[1..] == Events(f.after) + rest
    ensures |Events(f) + rest| == 1 + |Events(f.inside) + tail| && |tail| == 1 + |Events(f.after) + rest|
  {
    tail := [Leave(f.leave, f.id)] + (Events(f.after) + rest);
  }

  /** The trace of a forest is well nested wherever it occurs. */
  lemma {:induction false} ReplayForest(open: seq<int>, f: Forest, rest: seq<Event>)
    ensures Replay(open, Events(f) + rest) == Replay(open, rest)
    decreases f
  {
    match f
    case Nil => assert Events(f) + rest == rest;
    case Call(id, enter, inside, leave, after) =>
      var tail := EventsShape(f, rest);
      ReplayForest(open + [id], inside, tail);
      assert (open + [id])[..|open|] == open;
      ReplayForest(open, after, rest);
  }

  lemma EventsOfCall(es: seq<Event>, inside: Forest, rest: seq<Event>, after: Forest, rest': seq<Event>)
    requires es != [] && es[0].Enter? && es[1..] == Events(inside) + rest
    requires rest != [] && rest[0].Leave? && rest[0].id == es[0].id && rest[1..] == Events(after) + rest'
    ensures es == Events(Call(es[0].id, es[0].time, inside, rest[0].time, after)) + rest'
  {
    assert es == [es[0]] + (Events(inside) + rest);
    assert rest == [rest[0]] + (Events(after) + rest');
  }

  /** Read as many complete calls as possible off the front of a trace. */
  function Parse(es: seq<Event>): (r: (Forest, seq<Event>))
    ensures es == Events(r.0) + r.1
    ensures |r.1| <= |es|
    decreases |es|
  {
    if es == [] || es[0].Leave? then (Nil, es)
    else
      var (inside, rest) := Parse(es[1..]);
      if rest == [] || !rest[0].Leave? || rest[0].id != es[0].id then (Nil, es)
      else
        var (after, rest') := Parse(rest[1..]);
        EventsOfCall(es, inside, rest, after, rest');
        (Call(es[0].id, es[0].time, inside, rest[0].time, after), rest')
  }

  /** Where Parse stops inside a nested trace: at the end, at a leave, or at a call that stays open. */
  lemma {:induction false} ParseStops(open: seq<int>, es: seq<Event>)
    requires Replay(open, es).Open?
    ensures var rest := Parse(es).1;
            rest == [] || rest[0].Leave? || (open < Replay(open, es).ids)
    decreases |es|
  {
    if es != [] && es[0].Enter? {
      var id := es[0].id;
      var (inside, rest) := Parse(es[1..]);
      ParseStops(open + [id], es[1..]);
      ReplayForest(open + [id], inside, rest);
      if rest != [] && rest[0].Leave? {
        assert (open + [id])[..|open|] == open;
        ParseStops(open, rest[1..]);
      }
    }
  }

  /** Every complete well-nested trace is the trace of a forest. */
  lemma WellNestedIsForest(es: seq<Event>)
    requires WellNested(es)
    ensures Events(Parse(es).0) == es
  {
    ParseStops([], es);
    var (f, rest) := Parse(es);
    ReplayForest([], f, rest);
    assert rest == [];
  }

  /** ... and that forest is the only one. */
  lemma {:induction false} ParseEvents(f: Forest, rest: seq<Event>)
    requires rest == [] || rest[0].Leave?
    ensures Parse(Events(f) + rest) == (f, rest)
    decreases f
  {
    match f
    case Nil => assert Events(f) + rest == rest;
    case Call(id, enter, inside, leave, after) =>
      var tail := EventsShape(f, rest);
      ParseEvents(inside, tail);
      ParseEvents(after, rest);
  }

  lemma ForestOfTraceIsUnique(f: Forest, g: Forest)
    requires Events(f) == Events(g)
    ensures f == g
  {
    ParseEvents(f, []);
    ParseEvents(g, []);
    assert Events(f) + [] == Events(f) && Events(g) + [] == Events(g);
  }

  // ---------- sanity of the reference profile ----------

  /** Times never decrease: low <= first event, ..., last event <= high. */
  ghost predicate Ordered(f: Forest, low: int, high: int) {
    match f
    case Nil => low <= high
    case Call(_, enter, inside, leave, after) =>
      low <= enter && Ordered(inside, enter, leave) && Ordered(after, leave, high)
  }

  lemma {:induction false} SpanFits(f: Forest, low: int, high: int)
    requires Ordered(f, low, high)
    ensures 0 <= Span(f) <= high - low
  {
    match f
    case Nil =>
    case Call(_, enter, inside, leave, after) =>
      SpanFits(inside, enter, leave);
      SpanFits(after, leave, high);
  }

  /** With ordered times, 0 <= exclusive <= inclusive <= elapsed time for every routine, recursive or not. */
  lemma {:induction false} ExclusiveWithinInclusive(f: Forest, id: int, low: int, high: int)
    requires Ordered(f, low, high)
    ensures 0 <= Exclusive(f, id) <= Inclusive(f, id) <= high - low
    ensures Exclusive(f, id) <= Span(f)
  {
    match f
    case Nil =>
    case Call(_, enter, inside, leave, after) =>
      SpanFits(inside, enter, leave);
      SpanFits(after, leave, high);
      ExclusiveWithinInclusive(inside, id, enter, leave);
      ExclusiveWithinInclusive(after, id, leave, high);
  }
}
