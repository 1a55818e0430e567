/**
 * Matching a send with its receive: a look-ahead on a copy of the reader's descriptor that
 * shares the open file, and puts the file position back.  Also the first pass over a trace.
 */
module Matching {
  import opened TraceReader
  import MergeSpec
  import opened EventTable
  import MessageWord

  const RECV_EVENT := -8

  /** The record's parameter as an unsigned 64-bit word. */
  function ParameterWord(rec: Record): bv64 {
    (rec.par % 0x1_0000_0000_0000_0000) as bv64
  }

  /** A receive with the wanted tag and length on the wanted node. */
  ghost predicate Matches(tagOf: map<int, int>, rec: Record, msgtag: bv64, otherid: int, msglen: bv64) {
    && rec.ev in tagOf && tagOf[rec.ev] == RECV_EVENT
    && MessageWord.Decode(ParameterWord(rec)).tag == msgtag
    && MessageWord.Decode(ParameterWord(rec)).len == msglen
    && rec.nid == otherid
  }

  lemma WordOfNumber(w: bv64, n: int)
    requires n == w as int
    ensures 0 <= n < 0x1_0000_0000_0000_0000 && n as bv64 == w
  {
  }

  lemma SignedOrNot(n: int, par: int)
    requires 0 <= n < 0x1_0000_0000_0000_0000 && (par == n || par == n - 0x1_0000_0000_0000_0000)
    ensures par % 0x1_0000_0000_0000_0000 == n
  {
  }

  lemma WordOfParameter(rec: Record, w: bv64)
    requires rec.par == w as int || rec.par == (w as int) - 0x1_0000_0000_0000_0000
    ensures ParameterWord(rec) == w
  {
    var n := w as int;
    WordOfNumber(w, n);
    SignedOrNot(n, rec.par);
  }

  /**
   * In terms of what the sender packed, whether its word is read as a number from 0 on or as a signed one:
   * a match is a record of a receive event (tag -8) with that tag and length, on that node.
   */
  lemma MatchesWhatWasPacked(tagOf: map<int, int>, rec: Record, m: MessageWord.Message, msgtag: bv64, otherid: int, msglen: bv64)
    requires MessageWord.InRange(m)
    requires var w := MessageWord.Encode(m);
             rec.par == w as int || rec.par == (w as int) - 0x1_0000_0000_0000_0000
    ensures Matches(tagOf, rec, msgtag, otherid, msglen) <==>
              rec.ev in tagOf && tagOf[rec.ev] == -8 && m.tag == msgtag && m.len == msglen && rec.nid == otherid
  {
    WordOfParameter(rec, MessageWord.Encode(m));
    MessageWord.DecodeEncode(m);
  }

  /** A receive of 8 bytes with tag 5. */
  lemma SmallReceiveMatches()
    ensures Matches(map[1 := -8], Record(1, 2, 0, 0x50008, 0), 5, 2, 8)
  {
    var rec := Record(1, 2, 0, 0x50008, 0);
    WordOfParameter(rec, 0x50008);
  }

  /** Record k is where the search ends: it matches, or it has no descriptor, and no record before it does either. */
  ghost predicate EndsAt(tagOf: map<int, int>, recs: seq<Record>, k: nat, msgtag: bv64, otherid: int, msglen: bv64) {
    && k < |recs| && (recs[k].ev !in tagOf || Matches(tagOf, recs[k], msgtag, otherid, msglen))
    && PassedOver(tagOf, recs, k, msgtag, otherid, msglen)
  }

  /** The first n records have descriptors and do not match. */
  ghost predicate PassedOver(tagOf: map<int, int>, recs: seq<Record>, n: nat, msgtag: bv64, otherid: int, msglen: bv64) {
    forall j :: 0 <= j < n && j < |recs| ==> recs[j].ev in tagOf && !Matches(tagOf, recs[j], msgtag, otherid, msglen)
  }

  /** The test on one record. */
  method IsMatch(tagOf: map<int, int>, rec: Record, msgtag: bv64, otherid: int, msglen: bv64) returns (b: bool)
    requires rec.ev in tagOf
    ensures b <==> Matches(tagOf, rec, msgtag, otherid, msglen)
  {
    b := false;
    if tagOf[rec.ev] == RECV_EVENT {
      var message := MessageWord.Decode(ParameterWord(rec));
      b := message.tag == msgtag && message.len == msglen && rec.nid == otherid;
    }
  }

  /** recs are the last records of the file, and the next one to hand out is record k of them. */
  ghost predicate Before(reader: Reader, recs: seq<Record>, k: nat)
    reads reader, reader.fd
  {
    && k <= |recs| <= |reader.fd.records| && reader.Position() == |reader.fd.records| - |recs| + k
    && forall i :: 0 <= i < |recs| ==> recs[i] == reader.fd.records[|reader.fd.records| - |recs| + i]
  }

  lemma BeforeRemaining(reader: Reader)
    requires reader.Valid()
    ensures Before(reader, reader.Remaining(), 0)
  {
  }

  /** The reader has handed out record k. */
  ghost predicate Current(reader: Reader, recs: seq<Record>, k: nat)
    reads reader, reader.fd, reader.window
  {
    && reader.Valid() && k < |recs| && 0 <= reader.erec < reader.window.Length
    && reader.window[reader.erec] == recs[k] && Before(reader, recs, k + 1)
  }

  /** One record of a known remainder. */
  method ReadNext(reader: Reader, ghost recs: seq<Record>, ghost k: nat) returns (outcome: Outcome)
    requires reader.Valid() && Before(reader, recs, k)
    modifies reader, reader.fd`pos, reader.buffer
    ensures reader.Valid() && (reader.window == reader.buffer || reader.window == old(reader.window))
    ensures outcome.Got? ==> Current(reader, recs, k)
    ensures outcome.AtEnd? ==> k == |recs|
    ensures outcome.ReadError? ==> reader.fd.torn
  {
    outcome := reader.NextRecord();
  }

  /** NullDescriptor is the access through the null descriptor of an unknown event, which ends the program. */
  datatype Search = Found(tid: int, nid: int) | NotFound | NullDescriptor | ReadFailed

  /** The search result for a list of records. */
  ghost predicate Answers(r: Search, tagOf: map<int, int>, recs: seq<Record>, msgtag: bv64, otherid: int, msglen: bv64) {
    match r
    case Found(tid, nid) =>
      exists k: nat ::
        && EndsAt(tagOf, recs, k, msgtag, otherid, msglen) && Matches(tagOf, recs[k], msgtag, otherid, msglen)
        && tid == recs[k].tid && nid == recs[k].nid
    case NullDescriptor => exists k: nat :: EndsAt(tagOf, recs, k, msgtag, otherid, msglen) && recs[k].ev !in tagOf
    case NotFound => PassedOver(tagOf, recs, |recs|, msgtag, otherid, msglen)
    case ReadFailed => true
  }

  ghost predicate NoMatchBefore(tagOf: map<int, int>, recs: seq<Record>, k: nat, msgtag: bv64, otherid: int, msglen: bv64) {
    forall j :: 0 <= j < k && j < |recs| ==> !Matches(tagOf, recs[j], msgtag, otherid, msglen)
  }

  /**
   * A search that is not stopped by a read error ends at the null descriptor exactly when a record of an
   * unknown event stands in front of the first match, and otherwise finds a match exactly when there is one.
   */
  lemma AnswerIsDetermined(r: Search, tagOf: map<int, int>, recs: seq<Record>, msgtag: bv64, otherid: int, msglen: bv64)
    requires Answers(r, tagOf, recs, msgtag, otherid, msglen) && !r.ReadFailed?
    ensures r.NullDescriptor? <==>
              exists k: nat :: k < |recs| && recs[k].ev !in tagOf && NoMatchBefore(tagOf, recs, k, msgtag, otherid, msglen)
    ensures !r.NullDescriptor? ==>
              (r.Found? <==> exists k :: 0 <= k < |recs| && Matches(tagOf, recs[k], msgtag, otherid, msglen))
  {
    if r.NullDescriptor? {
      var k: nat :| EndsAt(tagOf, recs, k, msgtag, otherid, msglen) && recs[k].ev !in tagOf;
      assert NoMatchBefore(tagOf, recs, k, msgtag, otherid, msglen);
    } else if r.Found? {
      var k: nat :| EndsAt(tagOf, recs, k, msgtag, otherid, msglen) && Matches(tagOf, recs[k], msgtag, otherid, msglen);
      forall u: nat | u < |recs| && recs[u].ev !in tagOf
        ensures !NoMatchBefore(tagOf, recs, u, msgtag, otherid, msglen)
      {
        assert u > k;
      }
    }
  }

  /** A trace in which the search dies behind its own send, although the receive is there. */
  lemma UnknownEventBeforeReceive(otherid: int)
    ensures var unknown, receive := Record(7, 0, 0, 0, 1), Record(1, otherid, 0, 0, 2);
            var r := NullDescriptor;
            && Matches(map[1 := RECV_EVENT], receive, 0, otherid, 0)
            && Answers(r, map[1 := RECV_EVENT], [unknown, receive], 0, otherid, 0)
  {
    var unknown, receive := Record(7, 0, 0, 0, 1), Record(1, otherid, 0, 0, 2);
    assert ParameterWord(receive) == 0;
    assert MessageWord.Decode(0) == MessageWord.Message(0, 0, 0, 0);
    assert EndsAt(map[1 := RECV_EVENT], [unknown, receive], 0, 0, otherid, 0);
  }

  lemma AtRecord(tagOf: map<int, int>, recs: seq<Record>, k: nat, msgtag: bv64, otherid: int, msglen: bv64)
    requires k < |recs| && PassedOver(tagOf, recs, k, msgtag, otherid, msglen)
    ensures recs[k].ev !in tagOf ==> Answers(NullDescriptor, tagOf, recs, msgtag, otherid, msglen)
    ensures Matches(tagOf, recs[k], msgtag, otherid, msglen) ==>
              Answers(Found(recs[k].tid, recs[k].nid), tagOf, recs, msgtag, otherid, msglen)
    ensures recs[k].ev in tagOf && !Matches(tagOf, recs[k], msgtag, otherid, msglen) ==>
              PassedOver(tagOf, recs, k + 1, msgtag, otherid, msglen)
  {
    if recs[k].ev !in tagOf || Matches(tagOf, recs[k], msgtag, otherid, msglen) {
      assert EndsAt(tagOf, recs, k, msgtag, otherid, msglen);
    }
  }

  /** One round of the search: the record in hand ends it, or the next one is read. */
  method LookOne(copy: Reader, ghost recs: seq<Record>, ghost k: nat, tagOf: map<int, int>,
                 msgtag: bv64, otherid: int, msglen: bv64) returns (r: Option<Search>, outcome: Outcome)
    requires Current(copy, recs, k) && PassedOver(tagOf, recs, k, msgtag, otherid, msglen)
    modifies copy, copy.fd`pos, copy.buffer
    ensures copy.Valid() && (copy.window == copy.buffer || copy.window == old(copy.window))
    ensures r.Some? ==> !r.value.ReadFailed? && Answers(r.value, tagOf, recs, msgtag, otherid, msglen)
    ensures r.None? ==> PassedOver(tagOf, recs, k + 1, msgtag, otherid, msglen)
    ensures r.None? && outcome.Got? ==> Current(copy, recs, k + 1)
    ensures r.None? && outcome.AtEnd? ==> k + 1 == |recs|
    ensures r.None? && outcome.ReadError? ==> copy.fd.torn
  {
    var rec := copy.window[copy.erec];
    AtRecord(tagOf, recs, k, msgtag, otherid, msglen);
    outcome := Got;
    if rec.ev !in tagOf {
      return Some(NullDescriptor), outcome;
    }
    var found := IsMatch(tagOf, rec, msgtag, otherid, msglen);
    if found {
      return Some(Found(rec.tid, rec.nid)), outcome;
    }
    outcome := ReadNext(copy, recs, k + 1);
    r := None;
  }

  /** The search loop on a descriptor of its own. */
  method LookAhead(copy: Reader, ghost recs: seq<Record>, tagOf: map<int, int>,
                   msgtag: bv64, otherid: int, msglen: bv64) returns (r: Search)
    requires copy.Valid() && Before(copy, recs, 0)
    modifies copy, copy.fd`pos, copy.buffer
    ensures Answers(r, tagOf, recs, msgtag, otherid, msglen)
    ensures r.ReadFailed? ==> copy.fd.torn
  {
    ghost var k: nat := 0;
    var outcome := ReadNext(copy, recs, 0);
    while outcome.Got?
      invariant copy.Valid() && k <= |recs| && (copy.window == copy.buffer || copy.window == old(copy.window))
      invariant outcome.Got? ==> Current(copy, recs, k)
      invariant outcome.AtEnd? ==> k == |recs|
      invariant outcome.ReadError? ==> copy.fd.torn
      invariant PassedOver(tagOf, recs, k, msgtag, otherid, msglen)
      decreases |recs| - k, if outcome.Got? then 1 else 0
    {
      var answer;
      answer, outcome := LookOne(copy, recs, k, tagOf, msgtag, otherid, msglen);
      if answer.Some? {
        return answer.value;
      }
      k := k + 1;
    }
    r := if outcome.AtEnd? then NotFound else ReadFailed;
  }

  /**
   * GetMatchingRecv.  Unless the program ends in it, the caller's descriptor keeps its remaining records
   * although the look-ahead reads the same file: it refills another buffer and seeks back.
   */
  method GetMatchingRecv(trc: Reader, tmpbuffer: array<Record>, tagOf: map<int, int>,
                         msgtag: bv64, otherid: int, msglen: bv64) returns (r: Search)
    requires trc.Valid() && tmpbuffer.Length > 0 && tmpbuffer != trc.window
    modifies trc.fd`pos, tmpbuffer
    ensures Answers(r, tagOf, old(trc.Remaining()), msgtag, otherid, msglen)
    ensures r.Found? || r.NotFound? ==>
              trc.Valid() && trc.Remaining() == old(trc.Remaining()) && trc.fd.pos == old(trc.fd.pos)
    ensures r.ReadFailed? ==> trc.fd.torn
  {
    ghost var recs := trc.Remaining();
    BeforeRemaining(trc);
    var lastPosition := trc.fd.pos;
    r := SearchOnCopy(trc, tmpbuffer, tagOf, msgtag, otherid, msglen, recs);
    if r.Found? || r.NotFound? {
      trc.fd.pos := lastPosition;
      StillValid(trc);
    }
  }

  /** With the file position put back, a reader whose window has not been touched is as it was. */
  twostate lemma StillValid(trc: Reader)
    requires old(trc.Valid()) && unchanged(trc) && trc.fd.pos == old(trc.fd.pos)
    requires forall i :: 0 <= i < trc.window.Length ==> trc.window[i] == old(trc.window[i])
    ensures trc.Valid() && trc.Position() == old(trc.Position()) && trc.Remaining() == old(trc.Remaining())
  {
  }

  /** The descriptor passed by value: the search moves the file and fills the other buffer, and nothing else of the caller's. */
  method SearchOnCopy(trc: Reader, tmpbuffer: array<Record>, tagOf: map<int, int>, msgtag: bv64, otherid: int, msglen: bv64,
                      ghost recs: seq<Record>) returns (r: Search)
    requires trc.Valid() && tmpbuffer.Length > 0 && tmpbuffer != trc.window && Before(trc, recs, 0)
    modifies trc.fd`pos, tmpbuffer
    ensures Answers(r, tagOf, recs, msgtag, otherid, msglen)
    ensures r.ReadFailed? ==> trc.fd.torn
  {
    var copy := new Reader.Copy(trc, tmpbuffer);
    r := LookAhead(copy, recs, tagOf, msgtag, otherid, msglen);
  }

  // ---------- the first pass over a trace ----------

  const INIT_EVENT := "\"EV_INIT\""

  /** What the first pass finds out; used holds the known events that occur. */
  datatype Totals = Totals(numrec: int, overflows: int, firsttime: int, lasttime: int,
                           used: set<int>, numproc: int, maxnode: int)

  ghost function UsedBy(names: map<int, string>, recs: seq<Record>): set<int> {
    set k | 0 <= k < |recs| && recs[k].ev in names :: recs[k].ev
  }

  /** Records of the init event. */
  ghost function Inits(names: map<int, string>, recs: seq<Record>): nat {
    if recs == [] then 0
    else
      var rec := recs[|recs| - 1];
      Inits(names, recs[..|recs| - 1]) + (if rec.ev in names && names[rec.ev] == "\"EV_INIT\"" then 1 else 0)
  }

  /** m is the largest node of the records behind the first one, or the given one. */
  ghost predicate LargestNode(m: int, first: int, recs: seq<Record>) {
    && (m == first || exists k :: 0 < k < |recs| && m == recs[k].nid)
    && first <= m && forall k :: 0 < k < |recs| ==> recs[k].nid <= m
  }

  /** The totals after the first n records have been read, all but the last one of which have been looked up. */
  ghost predicate TotalsOf(t: Totals, names: map<int, string>, threads: bool, recs: seq<Record>, n: nat, looked: nat) {
    && 0 < n <= |recs| && looked <= n
    && t.numrec == n && t.overflows == MergeSpec.Overflows(recs, n - 1)
    && t.firsttime == recs[0].ti && t.lasttime == recs[n - 1].ti
    && t.used == UsedBy(names, recs[..looked]) && t.numproc == Inits(names, recs[..looked])
    && LargestNode(t.maxnode, if threads then 0 else recs[0].nid, recs[..n])
  }

  /** A known event is marked as used, and the init event is counted. */
  function LookedUp(t: Totals, names: map<int, string>, rec: Record): Totals {
    if rec.ev !in names then t
    else t.(used := t.used + {rec.ev}, numproc := t.numproc + (if names[rec.ev] == INIT_EVENT then 1 else 0))
  }

  function Counted(t: Totals, rec: Record): Totals {
    t.(numrec := t.numrec + 1, overflows := t.overflows + (if rec.ti < t.lasttime then 1 else 0),
       lasttime := rec.ti, maxnode := if rec.nid > t.maxnode then rec.nid else t.maxnode)
  }

  lemma LookUpOne(t: Totals, names: map<int, string>, threads: bool, recs: seq<Record>, n: nat)
    requires 0 < n <= |recs| && TotalsOf(t, names, threads, recs, n, n - 1)
    ensures TotalsOf(LookedUp(t, names, recs[n - 1]), names, threads, recs, n, n)
  {
    assert recs[..n][..n - 1] == recs[..n - 1];
    assert recs[..n] == recs[..n - 1] + [recs[n - 1]];
    assert UsedBy(names, recs[..n]) ==
           UsedBy(names, recs[..n - 1]) + (if recs[n - 1].ev in names then {recs[n - 1].ev} else {}) by {
      assert forall k :: 0 <= k < n - 1 ==> recs[..n][k] == recs[..n - 1][k];
    }
  }

  lemma CountOne(t: Totals, names: map<int, string>, threads: bool, recs: seq<Record>, n: nat)
    requires 0 < n < |recs| && TotalsOf(t, names, threads, recs, n, n)
    ensures TotalsOf(Counted(t, recs[n]), names, threads, recs, n + 1, n)
  {
    var m := Counted(t, recs[n]).maxnode;
    assert forall k :: 0 < k < n ==> recs[..n + 1][k] == recs[..n][k];
    assert recs[..n + 1][n] == recs[n];
    if m != recs[n].nid && m != (if threads then 0 else recs[0].nid) {
      var k :| 0 < k < n && m == recs[..n][k].nid;
      assert m == recs[..n + 1][k].nid;
    }
  }

  /**
   * The loop that skips through the whole trace to determine its parameters.  Records of unknown events
   * only draw a warning.  The node of the first record is not looked at in the multi-threaded case.
   */
  method SkipThrough(trc: Reader, names: map<int, string>, threads: bool) returns (outcome: Outcome, totals: Totals)
    requires trc.Valid() && trc.Remaining() != []
    modifies trc, trc.fd`pos, trc.buffer
    ensures outcome.AtEnd? || outcome.ReadError?
    ensures outcome.ReadError? ==> trc.fd.torn
    ensures outcome.AtEnd? ==>
              TotalsOf(totals, names, threads, old(trc.Remaining()), |old(trc.Remaining())|, |old(trc.Remaining())|)
  {
    ghost var recs := trc.Remaining();
    totals := Totals(0, 0, 0, 0, {}, 0, 0);
    outcome := ReadNext(trc, recs, 0);
    if !outcome.Got? {
      return;
    }
    var rec := trc.window[trc.erec];
    totals := Totals(1, 0, rec.ti, rec.ti, {}, 0, if threads then 0 else rec.nid);
    ghost var n: nat := 1;
    assert recs[..0] == [];
    while outcome.Got?
      invariant trc.Valid() && (trc.window == trc.buffer || trc.window == old(trc.window)) && 0 < n <= |recs|
      invariant if outcome.Got? then Passing(trc, names, threads, recs, n, rec, totals)
                else outcome.AtEnd? ==> n == |recs| && TotalsOf(totals, names, threads, recs, n, n)
      invariant outcome.ReadError? ==> trc.fd.torn
      decreases |recs| - n, if outcome.Got? then 1 else 0
    {
      outcome, rec, totals := PassOne(trc, names, threads, rec, totals, recs, n);
      n := if outcome.Got? then n + 1 else n;
    }
  }

  /** n records have been read; the last one is in hand and not yet looked up. */
  ghost predicate Passing(trc: Reader, names: map<int, string>, threads: bool, recs: seq<Record>, n: nat,
                          rec: Record, totals: Totals)
    reads trc, trc.fd, trc.window
  {
    && trc.Valid() && 0 < n <= |recs| && rec == recs[n - 1] && Before(trc, recs, n)
    && TotalsOf(totals, names, threads, recs, n, n - 1)
  }

  /** One round: look the record in hand up and read the next one. */
  method PassOne(trc: Reader, names: map<int, string>, threads: bool, rec: Record, totals: Totals,
                 ghost recs: seq<Record>, ghost n: nat) returns (outcome: Outcome, next: Record, totals': Totals)
    requires Passing(trc, names, threads, recs, n, rec, totals)
    modifies trc, trc.fd`pos, trc.buffer
    ensures trc.Valid() && (trc.window == trc.buffer || trc.window == old(trc.window))
    ensures outcome.Got? ==> Passing(trc, names, threads, recs, n + 1, next, totals')
    ensures outcome.AtEnd? ==> n == |recs| && TotalsOf(totals', names, threads, recs, n, n)
    ensures outcome.ReadError? ==> trc.fd.torn
  {
    LookUpOne(totals, names, threads, recs, n);
    totals', next := LookedUp(totals, names, rec), rec;
    outcome := ReadNext(trc, recs, n);
    if outcome.Got? {
      next := trc.window[trc.erec];
      CountOne(totals', names, threads, recs, n);
      totals' := Counted(totals', next);
    }
  }
}
