/**
 * Buffered reading of a trace file, as both the merger and the converter do it:
 * a descriptor over an open file, a buffer of records, and a window of the buffer
 * that has not been handed out yet.
 */
module TraceReader {

  datatype Record = Record(ev: int, nid: int, tid: int, par: int, ti: int)

  /** An open file: its whole records, whether a torn record follows them, and the read position. */
  class TraceFile {
    const records: seq<Record>
    const torn: bool
    var pos: nat

    constructor (records: seq<Record>, torn: bool)
      ensures this.records == records && this.torn == torn && pos == 0
    {
      this.records, this.torn, pos := records, torn, 0;
    }

    /** read(2) of a bufferful: n whole records, possibly with a part of the torn one behind them. */
    method Read(buf: array<Record>) returns (n: nat, partial: bool)
      requires pos <= |records|
      modifies this`pos, buf
      ensures n == if |records| - old(pos) < buf.Length then |records| - old(pos) else buf.Length
      ensures pos == old(pos) + n && pos <= |records|
      ensures buf[..n] == records[old(pos)..pos]
      ensures partial <==> torn && n < buf.Length
    {
      n := if |records| - pos < buf.Length then |records| - pos else buf.Length;
      forall k | 0 <= k < n {
        buf[k] := records[pos + k];
      }
      partial := torn && n < buf.Length;
      pos := pos + n;
    }
  }

  datatype Outcome = Got | AtEnd | ReadError

  /**
   * The reading part of a trace descriptor.  next and last index the window, the array the
   * two pointers point into; last < next is "buffer empty" and covers the NULL pointers.
   */
  class Reader {
    const fd: TraceFile
    const buffer: array<Record>
    var window: array<Record>
    var next: int
    var last: int
    var erec: int

    /** The number of the next record to hand out. */
    ghost function Position(): int
      reads this, fd
    {
      fd.pos - (last + 1 - next)
    }

    /** The window holds the records from the position up to where the file has been read. */
    ghost predicate Valid()
      reads this, fd, window
    {
      && buffer.Length > 0 && 0 <= Position() && fd.pos <= |fd.records|
      && 0 <= next <= last + 1 <= window.Length
      && forall i :: next <= i <= last ==> window[i] == fd.records[Position() + (i - next)]
    }

    /** The records still to be handed out. */
    ghost function Remaining(): seq<Record>
      requires Valid()
      reads this, fd, window
    {
      fd.records[Position()..]
    }

    constructor (fd: TraceFile, capacity: nat)
      requires capacity > 0 && fd.pos <= |fd.records|
      ensures Valid() && this.fd == fd && fresh(buffer) && window == buffer
      ensures Position() == fd.pos
    {
      this.fd := fd;
      var dummy := Record(0, 0, 0, 0, 0);
      var buf := new Record[capacity](_ => dummy);
      buffer, window := buf, buf;
      next, last, erec := 0, -1, 0;
    }

    /** A copy of a descriptor by value, with another array to refill: window and file are shared. */
    constructor Copy(other: Reader, buffer: array<Record>)
      requires other.Valid() && buffer.Length > 0
      ensures Valid() && fd == other.fd && this.buffer == buffer && window == other.window
      ensures Position() == other.Position()
    {
      fd, this.buffer := other.fd, buffer;
      window, next, last, erec := other.window, other.next, other.last, other.erec;
    }

    /** The refill part of get_next_rec, entered when the window is used up. */
    method Refill() returns (outcome: Outcome)
      requires Valid() && next > last
      modifies this, fd`pos, buffer
      ensures Valid() && (window == buffer || window == old(window))
      ensures !outcome.ReadError? ==> Position() == old(Position())
      ensures outcome.Got? ==> next <= last
      ensures outcome.AtEnd? ==> Position() == |fd.records| && !fd.torn
      ensures outcome.ReadError? ==> fd.torn
      ensures old(Position()) == |fd.records| ==> !outcome.Got?
    {
      ghost var from := fd.pos;
      var n, partial := fd.Read(buffer);
      if n != buffer.Length {
        if n == 0 && !partial {
          return AtEnd;
        }
        if partial {
          return ReadError;
        }
      }
      window := buffer;
      next := 0;
      last := n - 1;
      forall i | next <= i <= last
        ensures window[i] == fd.records[from + i]
      {
        assert buffer[..n][i] == fd.records[from..fd.pos][i];
      }
      outcome := Got;
    }

    /** Hand out the record at next. */
    method Take()
      requires Valid() && next <= last
      modifies this`erec, this`next
      ensures Valid() && Position() == old(Position()) + 1
      ensures erec == old(next) && next == erec + 1 && window[erec] == fd.records[old(Position())]
    {
      erec := next;
      next := next + 1;
    }

    /** get_next_rec: hand out the next record, refilling the buffer when it is used up. */
    method NextRecord() returns (outcome: Outcome)
      requires Valid()
      modifies this, fd`pos, buffer
      ensures Valid() && (window == buffer || window == old(window))
      ensures outcome.Got? ==> 0 <= erec < next <= window.Length
      ensures outcome.Got? ==>
                0 <= old(Position()) < |fd.records| && window[erec] == fd.records[old(Position())]
                && Position() == old(Position()) + 1
      ensures outcome.AtEnd? ==> old(Position()) == Position() == |fd.records| && !fd.torn
      ensures outcome.ReadError? ==> fd.torn
    {
      outcome := Got;
      if next > last {
        outcome := Refill();
      }
      if outcome.Got? {
        Take();
      }
    }
  }
}
