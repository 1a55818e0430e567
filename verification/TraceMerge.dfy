/**
 * The k-way merge: per-trace descriptors over buffered readers, repeated minimum
 * selection, renumbering through the event table, and buffered output.
 */
module TraceMerge {
  import opened TraceReader
  import opened MergeSpec
  import opened EventTable
  import opened OutputBuffer

  /** The merging part of a trace descriptor. */
  class Source {
    const reader: Reader
    const addOffset: int
    var open: bool
    var overflows: int
    var lasttime: int
    var numrec: int

    ghost function Footprint(): set<object> {
      {this, reader, reader.fd, reader.buffer}
    }

    /** The descriptor has read record k of the trace; what the in-place renumbering does to it does not matter. */
    ghost predicate Reading(trace: seq<Record>, k: nat)
      reads this, reader, reader.fd, reader.buffer
    {
      && open && k < |trace|
      && reader.window == reader.buffer && reader.Valid()
      && 0 <= reader.erec < reader.next
      && reader.fd.records == trace && reader.Position() == k + 1
      && overflows == Overflows(trace, k) && lasttime == trace[k].ti && numrec == k + 1
    }

    /** ... and that record is the current one, unchanged. */
    ghost predicate Standing(trace: seq<Record>, k: nat)
      reads this, reader, reader.fd, reader.buffer
    {
      Reading(trace, k) && reader.window[reader.erec] == trace[k]
    }

    /** All records read and the file closed. */
    ghost predicate Ended(trace: seq<Record>)
      reads this
    {
      !open && numrec == |trace| && !reader.fd.torn
    }

    constructor (reader: Reader, addOffset: int)
      requires reader.Valid() && 0 <= reader.erec < reader.next && reader.window == reader.buffer
      requires reader.Position() == 1 && reader.window[reader.erec] == reader.fd.records[0]
      ensures this.reader == reader && this.addOffset == addOffset
      ensures Standing(reader.fd.records, 0)
    {
      this.reader, this.addOffset := reader, addOffset;
      open, overflows, numrec := true, 0, 1;
      lasttime := reader.window[reader.erec].ti;
    }

    /** Rewrite the event id of the current record in the buffer. */
    method Renumber(gid: int, ghost trace: seq<Record>, ghost k: nat)
      requires Standing(trace, k)
      modifies reader.buffer
      ensures Reading(trace, k) && reader.window[reader.erec] == trace[k].(ev := gid)
    {
      reader.window[reader.erec] := reader.window[reader.erec].(ev := gid);
    }

    /** What reading on has come to: the descriptor stands at record j, or there is none. */
    ghost predicate ReadOn(outcome: Outcome, trace: seq<Record>, j: nat)
      reads this, reader, reader.fd, reader.buffer
    {
      match outcome
      case Got => j < |trace| && Standing(trace, j)
      case AtEnd => j == |trace| && Ended(trace)
      case ReadError => reader.fd.torn
    }

    /** Record j has been followed by one with this event, by the end, or by a read error. */
    ghost predicate Advancing(outcome: Outcome, ev: int, trace: seq<Record>, j: nat)
      reads this, reader, reader.fd, reader.buffer
    {
      ReadOn(outcome, trace, j + 1) && (outcome.Got? ==> ev == trace[j + 1].ev)
    }

    /** Read one record and do the bookkeeping of the merge loop. */
    method ReadOne(ghost trace: seq<Record>, ghost k: nat) returns (outcome: Outcome, ev: int)
      requires Reading(trace, k)
      modifies this, reader, reader.fd`pos, reader.buffer
      ensures Advancing(outcome, ev, trace, k)
    {
      outcome := reader.NextRecord();
      ev := 0;
      if outcome.AtEnd? {
        open := false;
      } else if outcome.Got? {
        var rec := reader.window[reader.erec];
        numrec := numrec + 1;
        if rec.ti < lasttime {
          overflows := overflows + 1;
        }
        lasttime := rec.ti;
        ev := rec.ev;
      }
    }

    static lemma Skip(trace: seq<Record>, j: nat)
      requires j + 1 < |trace| && trace[j + 1].ev == CONT_EVENT
      ensures NextEmitted(trace, j) == NextEmitted(trace, j + 1)
    {
    }

    static lemma Land(trace: seq<Record>, j: nat)
      requires j < |trace|
      ensures j + 1 == |trace| || trace[j + 1].ev != CONT_EVENT ==> NextEmitted(trace, j) == j + 1
    {
    }

    /** The inner loop: advance to the next record that is not a continuation record. */
    method Advance(ghost trace: seq<Record>, ghost k: nat) returns (outcome: Outcome)
      requires Reading(trace, k)
      modifies this, reader, reader.fd`pos, reader.buffer
      ensures ReadOn(outcome, trace, NextEmitted(trace, k))
    {
      ghost var j: nat := k;
      var ev;
      outcome, ev := ReadOne(trace, j);
      while outcome.Got? && ev == CONT_EVENT
        invariant j < |trace| && NextEmitted(trace, k) == NextEmitted(trace, j)
        invariant Advancing(outcome, ev, trace, j)
        decreases if outcome.Got? then |trace| - j else 0
      {
        Skip(trace, j);
        j := j + 1;
        outcome, ev := ReadOne(trace, j);
      }
      Land(trace, j);
    }
  }
}
