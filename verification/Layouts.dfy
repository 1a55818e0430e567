/**
 * The record layouts of trace files: byte swapping, field access in all layouts, and the
 * guess of the layout from a file's first bytes.
 */
module Layouts {

  // ---------- byte swapping ----------

  function Swap16(a: bv16): bv16 { ((a & 0xff00) >> 8) | ((a & 0x00ff) << 8) }

  function Swap32(a: bv32): bv32 {
    ((a & 0xff000000) >> 24) | ((a & 0x00ff0000) >> 8) | ((a & 0x0000ff00) << 8) | ((a & 0x000000ff) << 24)
  }

  function Swap64(a: bv64): bv64 {
    ((a & 0xff00000000000000) >> 56) | ((a & 0x00ff000000000000) >> 40)
    | ((a & 0x0000ff0000000000) >> 24) | ((a & 0x000000ff00000000) >> 8)
    | ((a & 0x00000000ff000000) << 8) | ((a & 0x0000000000ff0000) << 24)
    | ((a & 0x000000000000ff00) << 40) | ((a & 0x00000000000000ff) << 56)
  }

  /** Swapping twice is the identity, in all three widths. */
  lemma SwapInvolution(a: bv16, b: bv32, c: bv64)
    ensures Swap16(Swap16(a)) == a && Swap32(Swap32(b)) == b && Swap64(Swap64(c)) == c
  {
  }

  // ---------- records as they lie in memory ----------

  /** What a trace record says. */
  datatype Event = Event(ev: bv32, nid: bv16, tid: bv16, par: bv64, ti: bv64)

  /** The two memory layouts; the fields are words as the reading machine loads them. */
  datatype Raw =
    | R32(ev32: bv32, nid: bv16, tid: bv16, par: bv64, ti: bv64)
    | R64(ev64: bv64, nid: bv16, tid: bv16, padding: bv32, par: bv64, ti: bv64)

  datatype Format = Native | F32 | F64 | F32Swap | F64Swap

  predicate Fits(f: Format, r: Raw) { if f.F64? || f.F64Swap? then r.R64? else r.R32? }

  predicate Swapped(f: Format) { f.F32Swap? || f.F64Swap? }

  function SignBits(negative: bool): bv64 { if negative then 0xffffffff00000000 else 0 }

  /** Conversions between the 32-bit id and the 64-bit id field. */
  function SignExtend(v: bv32): bv64 { SignBits(v & 0x80000000 != 0) | (v as bv64) }

  function Truncate(v: bv64): bv32 { (v & 0xffffffff) as bv32 }

  function GetEv(f: Format, r: Raw): bv32
    requires Fits(f, r)
  {
    match f
    case Native => r.ev32
    case F32 => r.ev32
    case F32Swap => Swap32(r.ev32)
    case F64 => Truncate(r.ev64)
    case F64Swap => Truncate(Swap64(r.ev64))
  }

  function GetNid(f: Format, r: Raw): bv16 { if Swapped(f) then Swap16(r.nid) else r.nid }

  function GetTid(f: Format, r: Raw): bv16 { if Swapped(f) then Swap16(r.tid) else r.tid }

  function GetPar(f: Format, r: Raw): bv64 { if Swapped(f) then Swap64(r.par) else r.par }

  function GetTi(f: Format, r: Raw): bv64 { if Swapped(f) then Swap64(r.ti) else r.ti }

  /** Everything the accessors report about a record. */
  function Decode(f: Format, r: Raw): Event
    requires Fits(f, r)
  {
    Event(GetEv(f, r), GetNid(f, r), GetTid(f, r), GetPar(f, r), GetTi(f, r))
  }

  // ---------- writing in place ----------

  lemma LowHalf(high: bv64, v: bv32)
    requires high == 0 || high == 0xffffffff00000000
    ensures (high | (v as bv64)) & 0xffffffff == v as bv64
  {
  }

  lemma ExtendTruncate(v: bv32)
    ensures Truncate(SignExtend(v)) == v
  {
    LowHalf(SignBits(v & 0x80000000 != 0), v);
  }

  /** The record with another id, in the spelling of its layout. */
  function WithEv(f: Format, r: Raw, value: bv32): Raw
    requires Fits(f, r)
  {
    match f
    case Native => r.(ev32 := value)
    case F32 => r.(ev32 := value)
    case F32Swap => r.(ev32 := Swap32(value))
    case F64 => r.(ev64 := SignExtend(value))
    case F64Swap => r.(ev64 := Swap64(SignExtend(value)))
  }

  lemma WithEvNarrow(f: Format, r: Raw, value: bv32)
    requires Fits(f, r) && r.R32?
    ensures Fits(f, WithEv(f, r, value)) && Decode(f, WithEv(f, r, value)) == Decode(f, r).(ev := value)
  {
    SwapInvolution(0, value, 0);
  }

  lemma WithEvWide(f: Format, r: Raw, value: bv32)
    requires Fits(f, r) && r.R64?
    ensures Fits(f, WithEv(f, r, value)) && Decode(f, WithEv(f, r, value)) == Decode(f, r).(ev := value)
  {
    ExtendTruncate(value);
    SwapInvolution(0, 0, SignExtend(value));
  }

  /** event_SetEv */
  method SetEv(f: Format, events: array<Raw>, index: nat, value: bv32)
    requires index < events.Length && Fits(f, events[index])
    modifies events
    ensures Fits(f, events[index]) && Decode(f, events[index]) == Decode(f, old(events[index])).(ev := value)
    ensures forall k :: 0 <= k < events.Length && k != index ==> events[k] == old(events[k])
  {
    if events[index].R32? {
      WithEvNarrow(f, events[index], value);
    } else {
      WithEvWide(f, events[index], value);
    }
    events[index] := WithEv(f, events[index], value);
  }

  /** event_SetNid */
  method SetNid(f: Format, events: array<Raw>, index: nat, value: bv16)
    requires index < events.Length && Fits(f, events[index])
    modifies events
    ensures Fits(f, events[index]) && Decode(f, events[index]) == Decode(f, old(events[index])).(nid := value)
    ensures forall k :: 0 <= k < events.Length && k != index ==> events[k] == old(events[k])
  {
    SwapInvolution(value, 0, 0);
    events[index] := events[index].(nid := if Swapped(f) then Swap16(value) else value);
  }

  /** event_SetTi */
  method SetTi(f: Format, events: array<Raw>, index: nat, value: bv64)
    requires index < events.Length && Fits(f, events[index])
    modifies events
    ensures Fits(f, events[index]) && Decode(f, events[index]) == Decode(f, old(events[index])).(ti := value)
    ensures forall k :: 0 <= k < events.Length && k != index ==> events[k] == old(events[k])
  {
    SwapInvolution(0, 0, value);
    events[index] := events[index].(ti := if Swapped(f) then Swap64(value) else value);
  }

  // ---------- bytes ----------

  /** The bytes of a word, lowest first. */
  function Bytes64(x: bv64): (b: seq<bv8>)
    ensures |b| == 8
  {
    [(x & 0xff) as bv8, ((x >> 8) & 0xff) as bv8, ((x >> 16) & 0xff) as bv8, ((x >> 24) & 0xff) as bv8,
     ((x >> 32) & 0xff) as bv8, ((x >> 40) & 0xff) as bv8, ((x >> 48) & 0xff) as bv8, ((x >> 56) & 0xff) as bv8]
  }

  function Word64(b: seq<bv8>): bv64
    requires |b| == 8
  {
    (b[0] as bv64) | ((b[1] as bv64) << 8) | ((b[2] as bv64) << 16) | ((b[3] as bv64) << 24)
    | ((b[4] as bv64) << 32) | ((b[5] as bv64) << 40) | ((b[6] as bv64) << 48) | ((b[7] as bv64) << 56)
  }

  function Bytes32(x: bv32): (b: seq<bv8>)
    ensures |b| == 4
  {
    [(x & 0xff) as bv8, ((x >> 8) & 0xff) as bv8, ((x >> 16) & 0xff) as bv8, ((x >> 24) & 0xff) as bv8]
  }

  function Word32(b: seq<bv8>): bv32
    requires |b| == 4
  {
    (b[0] as bv32) | ((b[1] as bv32) << 8) | ((b[2] as bv32) << 16) | ((b[3] as bv32) << 24)
  }

  function Bytes16(x: bv16): (b: seq<bv8>)
    ensures |b| == 2
  {
    [(x & 0xff) as bv8, ((x >> 8) & 0xff) as bv8]
  }

  function Word16(b: seq<bv8>): bv16
    requires |b| == 2
  {
    (b[0] as bv16) | ((b[1] as bv16) << 8)
  }

  function Reversed(b: seq<bv8>): (r: seq<bv8>)
    ensures |r| == |b| && forall k :: 0 <= k < |b| ==> r[k] == b[|b| - 1 - k]
  {
    seq(|b|, k requires 0 <= k < |b| => b[|b| - 1 - k])
  }

  lemma ReversedTwice(b: seq<bv8>)
    ensures Reversed(Reversed(b)) == b
  {
  }

  /** What a machine of either byte order stores for a word ... */
  function Store64(big: bool, x: bv64): (b: seq<bv8>)
    ensures |b| == 8
  {
    if big then Reversed(Bytes64(x)) else Bytes64(x)
  }

  function Store32(big: bool, x: bv32): (b: seq<bv8>)
    ensures |b| == 4
  {
    if big then Reversed(Bytes32(x)) else Bytes32(x)
  }

  function Store16(big: bool, x: bv16): (b: seq<bv8>)
    ensures |b| == 2
  {
    if big then Reversed(Bytes16(x)) else Bytes16(x)
  }

  /** ... and loads from bytes. */
  function Load64(big: bool, b: seq<bv8>): bv64
    requires |b| == 8
  {
    Word64(if big then Reversed(b) else b)
  }

  function Load32(big: bool, b: seq<bv8>): bv32
    requires |b| == 4
  {
    Word32(if big then Reversed(b) else b)
  }

  function Load16(big: bool, b: seq<bv8>): bv16
    requires |b| == 2
  {
    Word16(if big then Reversed(b) else b)
  }

  lemma WordOfBytes(x: bv64)
    ensures Word64(Bytes64(x)) == x
  {
  }

  lemma WordOfReversed(x: bv64)
    ensures Word64(Reversed(Bytes64(x))) == Swap64(x)
  {
  }

  lemma Word32OfBytes(y: bv32)
    ensures Word32(Bytes32(y)) == y
  {
  }

  lemma Word32OfReversed(y: bv32)
    ensures Word32(Reversed(Bytes32(y))) == Swap32(y)
  {
  }

  lemma Word16OfBytes(z: bv16)
    ensures Word16(Bytes16(z)) == z && Word16(Reversed(Bytes16(z))) == Swap16(z)
  {
  }

  lemma LoadStored64(reader: bool, writer: bool, x: bv64)
    ensures Load64(reader, Store64(writer, x)) == if reader == writer then x else Swap64(x)
  {
    WordOfBytes(x);
    WordOfReversed(x);
    ReversedTwice(Bytes64(x));
  }

  lemma LoadStored32(reader: bool, writer: bool, y: bv32)
    ensures Load32(reader, Store32(writer, y)) == if reader == writer then y else Swap32(y)
  {
    Word32OfBytes(y);
    Word32OfReversed(y);
    ReversedTwice(Bytes32(y));
  }

  lemma LoadStored16(reader: bool, writer: bool, z: bv16)
    ensures Load16(reader, Store16(writer, z)) == if reader == writer then z else Swap16(z)
  {
    Word16OfBytes(z);
    ReversedTwice(Bytes16(z));
  }

  /** Loading what another machine stored swaps the bytes exactly when the byte orders differ. */
  lemma LoadStored(reader: bool, writer: bool, x: bv64, y: bv32, z: bv16)
    ensures Load64(reader, Store64(writer, x)) == if reader == writer then x else Swap64(x)
    ensures Load32(reader, Store32(writer, y)) == if reader == writer then y else Swap32(y)
    ensures Load16(reader, Store16(writer, z)) == if reader == writer then z else Swap16(z)
  {
    LoadStored64(reader, writer, x);
    LoadStored32(reader, writer, y);
    LoadStored16(reader, writer, z);
  }

  // ---------- records in a file ----------

  /** The bytes of a record as a machine of some byte order and width writes it; the compiler pads the wide layout. */
  function Image(writer: bool, wide: bool, e: Event, padding: bv32): (b: seq<bv8>)
    ensures |b| == if wide then 32 else 24
  {
    if wide then
      Store64(writer, SignExtend(e.ev)) + Store16(writer, e.nid) + Store16(writer, e.tid) + Store32(writer, padding)
      + Store64(writer, e.par) + Store64(writer, e.ti)
    else
      Store32(writer, e.ev) + Store16(writer, e.nid) + Store16(writer, e.tid)
      + Store64(writer, e.par) + Store64(writer, e.ti)
  }

  /** The fields as another machine loads them. */
  function Loaded(reader: bool, wide: bool, b: seq<bv8>): Raw
    requires |b| == if wide then 32 else 24
  {
    if wide then
      R64(Load64(reader, b[..8]), Load16(reader, b[8..10]), Load16(reader, b[10..12]), Load32(reader, b[12..16]),
          Load64(reader, b[16..24]), Load64(reader, b[24..32]))
    else
      R32(Load32(reader, b[..4]), Load16(reader, b[4..6]), Load16(reader, b[6..8]),
          Load64(reader, b[8..16]), Load64(reader, b[16..24]))
  }

  function LayoutFor(reader: bool, writer: bool, wide: bool): Format {
    if wide then (if reader == writer then F64 else F64Swap) else (if reader == writer then F32 else F32Swap)
  }

  lemma FiveParts(a: seq<bv8>, b: seq<bv8>, c: seq<bv8>, d: seq<bv8>, e: seq<bv8>)
    requires |a| == 4 && |b| == |c| == 2 && |d| == |e| == 8
    ensures var s := a + b + c + d + e;
            s[..4] == a && s[4..6] == b && s[6..8] == c && s[8..16] == d && s[16..24] == e
  {
  }

  lemma SixParts(a: seq<bv8>, b: seq<bv8>, c: seq<bv8>, p: seq<bv8>, d: seq<bv8>, e: seq<bv8>)
    requires |a| == 8 && |b| == |c| == 2 && |p| == 4 && |d| == |e| == 8
    ensures var s := a + b + c + p + d + e;
            s[..8] == a && s[8..10] == b && s[10..12] == c && s[12..16] == p && s[16..24] == d && s[24..32] == e
  {
  }

  lemma NarrowParts(writer: bool, e: Event, padding: bv32)
    ensures var b := Image(writer, false, e, padding);
            && b[..4] == Store32(writer, e.ev) && b[4..6] == Store16(writer, e.nid)
            && b[6..8] == Store16(writer, e.tid)
            && b[8..16] == Store64(writer, e.par) && b[16..24] == Store64(writer, e.ti)
  {
    FiveParts(Store32(writer, e.ev), Store16(writer, e.nid), Store16(writer, e.tid),
              Store64(writer, e.par), Store64(writer, e.ti));
  }

  lemma WideParts(writer: bool, e: Event, padding: bv32)
    ensures var b := Image(writer, true, e, padding);
            && b[..8] == Store64(writer, SignExtend(e.ev)) && b[8..10] == Store16(writer, e.nid)
            && b[10..12] == Store16(writer, e.tid) && b[12..16] == Store32(writer, padding)
            && b[16..24] == Store64(writer, e.par) && b[24..32] == Store64(writer, e.ti)
  {
    SixParts(Store64(writer, SignExtend(e.ev)), Store16(writer, e.nid), Store16(writer, e.tid),
             Store32(writer, padding), Store64(writer, e.par), Store64(writer, e.ti));
  }

  lemma NarrowLoaded(reader: bool, writer: bool, e: Event, padding: bv32)
    ensures var r, same := Loaded(reader, false, Image(writer, false, e, padding)), reader == writer;
            r == R32(if same then e.ev else Swap32(e.ev), if same then e.nid else Swap16(e.nid),
                     if same then e.tid else Swap16(e.tid), if same then e.par else Swap64(e.par),
                     if same then e.ti else Swap64(e.ti))
  {
    NarrowParts(writer, e, padding);
    LoadStored(reader, writer, e.par, e.ev, e.nid);
    LoadStored(reader, writer, e.ti, e.ev, e.tid);
  }

  lemma WideLoaded(reader: bool, writer: bool, e: Event, padding: bv32)
    ensures var r, same := Loaded(reader, true, Image(writer, true, e, padding)), reader == writer;
            r == R64(if same then SignExtend(e.ev) else Swap64(SignExtend(e.ev)), if same then e.nid else Swap16(e.nid),
                     if same then e.tid else Swap16(e.tid), if same then padding else Swap32(padding),
                     if same then e.par else Swap64(e.par), if same then e.ti else Swap64(e.ti))
  {
    WideParts(writer, e, padding);
    LoadStored(reader, writer, e.par, padding, e.nid);
    LoadStored(reader, writer, e.ti, padding, e.tid);
    LoadStored64(reader, writer, SignExtend(e.ev));
  }

  /** In the layout that fits the writer, the accessors report what was written, for all pairs of machines. */
  lemma ReadsWhatWasWritten(reader: bool, writer: bool, wide: bool, e: Event, padding: bv32)
    ensures var r := Loaded(reader, wide, Image(writer, wide, e, padding));
            Fits(LayoutFor(reader, writer, wide), r) && Decode(LayoutFor(reader, writer, wide), r) == e
  {
    NarrowLoaded(reader, writer, e, padding);
    WideLoaded(reader, writer, e, padding);
    SwapInvolution(e.nid, e.ev, SignExtend(e.ev));
    SwapInvolution(e.tid, 0, e.par);
    SwapInvolution(0, 0, e.ti);
    ExtendTruncate(e.ev);
  }

  /** In the native layout a machine reads its own narrow records. */
  lemma NativeReadsOwn(machine: bool, e: Event, padding: bv32)
    ensures var r := Loaded(machine, false, Image(machine, false, e, padding)); Fits(Native, r) && Decode(Native, r) == e
  {
    NarrowLoaded(machine, machine, e, padding);
  }

  /** The wide id is the same number as the narrow one, negative ids included. */
  lemma WideIdIsSameNumber(v: bv32)
    ensures v < 0x80000000 ==> SignExtend(v) == v as bv64
    ensures v >= 0x80000000 ==> SignExtend(v) == 0xffffffff00000000 + (v as bv64)
  {
  }

  // ---------- guessing the layout ----------

  const MARK: bv64 := 3

  /** The word a layout expects to be the mark. */
  function MarkIn(f: Format, par32: bv64, par64: bv64): bv64
    requires !f.Native?
  {
    match f
    case F32 => par32
    case F32Swap => Swap64(par32)
    case F64 => par64
    case F64Swap => Swap64(par64)
  }

  ghost predicate OnlyHit(f: Format, par32: bv64, par64: bv64)
    requires !f.Native?
  {
    && MarkIn(f, par32, par64) == MARK
    && forall g: Format :: !g.Native? && g != f ==> MarkIn(g, par32, par64) != MARK
  }

  /** determineFormat: commit to a layout only when it is the only one that reads the mark. */
  method DetermineFormat(par32: bv64, par64: bv64) returns (format: Format)
    ensures forall f: Format :: !f.Native? ==> (format == f <==> OnlyHit(f, par32, par64))
  {
    format := Native;
    var formatFound := false;
    if par32 == MARK {
      format, formatFound := F32, true;
    }
    if Swap64(par32) == MARK {
      if formatFound {
        return Native;
      }
      format, formatFound := F32Swap, true;
    }
    if par64 == MARK {
      if formatFound {
        assert MarkIn(format, par32, par64) == MARK == MarkIn(F64, par32, par64);
        return Native;
      }
      format, formatFound := F64, true;
    }
    if Swap64(par64) == MARK {
      if formatFound {
        assert MarkIn(format, par32, par64) == MARK == MarkIn(F64Swap, par32, par64);
        return Native;
      }
      format, formatFound := F64Swap, true;
    }
  }

  /** The words of a file's first record at the parameter's place of the narrow and of the wide layout. */
  function Par32(reader: bool, b: seq<bv8>): bv64
    requires |b| >= 24
  {
    Load64(reader, b[8..16])
  }

  function Par64(reader: bool, b: seq<bv8>): bv64
    requires |b| >= 24
  {
    Load64(reader, b[16..24])
  }

  /** The file's layout is recognised: the guess commits to the one that fits its writer. */
  ghost predicate Recognised(reader: bool, writer: bool, wide: bool, e: Event, padding: bv32) {
    var b := Image(writer, wide, e, padding);
    OnlyHit(LayoutFor(reader, writer, wide), Par32(reader, b), Par64(reader, b))
  }

  lemma MarkSwapped(x: bv64)
    ensures Swap64(MARK) != MARK
    ensures Swap64(x) == MARK <==> x == Swap64(MARK)
  {
    SwapInvolution(0, 0, x);
    SwapInvolution(0, 0, MARK);
  }

  /** A word as a machine of the same or of the other byte order sees it. */
  function Seen(same: bool, x: bv64): bv64 { if same then x else Swap64(x) }

  lemma SeenAsMark(same: bool, x: bv64)
    ensures Seen(same, x) != MARK && Seen(same, x) != Swap64(MARK) <==> x != MARK && x != Swap64(MARK)
    ensures Seen(same, Seen(same, x)) == x
  {
    SwapInvolution(0, 0, x);
    SwapInvolution(0, 0, MARK);
  }

  /** Between the words at the two places, the fitting layout is the only one that reads the mark unless the other word is one. */
  lemma OtherWordDecides(same: bool, wide: bool, other: bv64)
    ensures OnlyHit(if wide then (if same then F64 else F64Swap) else (if same then F32 else F32Swap),
                    if wide then Seen(same, other) else Seen(same, MARK),
                    if wide then Seen(same, MARK) else Seen(same, other)) <==>
              other != MARK && other != Swap64(MARK)
  {
    var f := if wide then (if same then F64 else F64Swap) else (if same then F32 else F32Swap);
    var par32, par64 := if wide then Seen(same, other) else Seen(same, MARK), if wide then Seen(same, MARK) else Seen(same, other);
    SeenAsMark(same, other);
    SeenAsMark(same, MARK);
    MarkSwapped(MARK);
    MarkSwapped(Seen(same, other));
    if OnlyHit(f, par32, par64) {
      assert !wide ==> MarkIn(F64, par32, par64) != MARK && MarkIn(F64Swap, par32, par64) != MARK;
      assert wide ==> MarkIn(F32, par32, par64) != MARK && MarkIn(F32Swap, par32, par64) != MARK;
    }
  }

  /** For a file in the narrow layout the condition is on the first time stamp only, whoever reads it. */
  lemma Detects32(reader: bool, writer: bool, e: Event, padding: bv32)
    requires e.par == MARK
    ensures Recognised(reader, writer, false, e, padding) <==> e.ti != MARK && e.ti != Swap64(MARK)
  {
    NarrowParts(writer, e, padding);
    LoadStored64(reader, writer, e.par);
    LoadStored64(reader, writer, e.ti);
    OtherWordDecides(reader == writer, false, e.ti);
  }

  /** Node, thread and padding of the wide layout, side by side in one word. */
  function Neighbours(writer: bool, nid: bv16, tid: bv16, padding: bv32): bv64 {
    if writer then ((nid as bv64) << 48) | ((tid as bv64) << 32) | (padding as bv64)
    else (nid as bv64) | ((tid as bv64) << 16) | ((padding as bv64) << 32)
  }

  lemma LittleIds(nid: bv16, tid: bv16, padding: bv32)
    ensures var b, n, t := Bytes64(Neighbours(false, nid, tid, padding)), Bytes16(nid), Bytes16(tid);
            b[0] == n[0] && b[1] == n[1] && b[2] == t[0] && b[3] == t[1]
  {
  }

  lemma LittlePadding(nid: bv16, tid: bv16, padding: bv32)
    ensures var b, p := Bytes64(Neighbours(false, nid, tid, padding)), Bytes32(padding);
            b[4] == p[0] && b[5] == p[1] && b[6] == p[2] && b[7] == p[3]
  {
  }

  lemma BigIds(nid: bv16, tid: bv16, padding: bv32)
    ensures var b, n, t := Bytes64(Neighbours(true, nid, tid, padding)), Bytes16(nid), Bytes16(tid);
            b[7] == n[1] && b[6] == n[0] && b[5] == t[1] && b[4] == t[0]
  {
  }

  lemma BigPadding(nid: bv16, tid: bv16, padding: bv32)
    ensures var b, p := Bytes64(Neighbours(true, nid, tid, padding)), Bytes32(padding);
            b[3] == p[3] && b[2] == p[2] && b[1] == p[1] && b[0] == p[0]
  {
  }

  lemma JoinedBytes(n: seq<bv8>, t: seq<bv8>, p: seq<bv8>, b: seq<bv8>)
    requires |n| == |t| == 2 && |p| == 4 && |b| == 8
    requires b[0] == n[0] && b[1] == n[1] && b[2] == t[0] && b[3] == t[1]
    requires b[4] == p[0] && b[5] == p[1] && b[6] == p[2] && b[7] == p[3]
    ensures n + t + p == b
  {
  }

  lemma NeighboursStored(writer: bool, nid: bv16, tid: bv16, padding: bv32)
    ensures Store16(writer, nid) + Store16(writer, tid) + Store32(writer, padding)
            == Store64(writer, Neighbours(writer, nid, tid, padding))
  {
    if writer {
      BigIds(nid, tid, padding);
      BigPadding(nid, tid, padding);
    } else {
      LittleIds(nid, tid, padding);
      LittlePadding(nid, tid, padding);
    }
    JoinedBytes(Store16(writer, nid), Store16(writer, tid), Store32(writer, padding),
                Store64(writer, Neighbours(writer, nid, tid, padding)));
  }

  lemma NeighboursMark(nid: bv16, tid: bv16, padding: bv32)
    ensures Neighbours(false, nid, tid, padding) == MARK <==> nid == 3 && tid == 0 && padding == 0
    ensures Neighbours(false, nid, tid, padding) == Swap64(MARK) <==> nid == 0 && tid == 0 && padding == 0x03000000
    ensures Neighbours(true, nid, tid, padding) == MARK <==> nid == 0 && tid == 0 && padding == 3
    ensures Neighbours(true, nid, tid, padding) == Swap64(MARK) <==> nid == 0x0300 && tid == 0 && padding == 0
  {
  }

  lemma WideNeighbours(writer: bool, e: Event, padding: bv32)
    ensures Image(writer, true, e, padding)[8..16] == Store64(writer, Neighbours(writer, e.nid, e.tid, padding))
  {
    var b := Image(writer, true, e, padding);
    WideParts(writer, e, padding);
    NeighboursStored(writer, e.nid, e.tid, padding);
    assert b[8..16] == b[8..10] + b[10..12] + b[12..16];
  }

  /**
   * For a file in the wide layout it is on node, thread and padding: with zero padding, a trace of node 3
   * (of node 768, from a big-endian machine), thread 0, is not recognised, whoever reads it.
   */
  lemma Detects64(reader: bool, writer: bool, e: Event, padding: bv32)
    requires e.par == MARK
    ensures Recognised(reader, writer, true, e, padding) <==>
              if writer then
                !(e.nid == 0x0300 && e.tid == 0 && padding == 0) && !(e.nid == 0 && e.tid == 0 && padding == 3)
              else
                !(e.nid == 3 && e.tid == 0 && padding == 0) && !(e.nid == 0 && e.tid == 0 && padding == 0x03000000)
  {
    var word := Neighbours(writer, e.nid, e.tid, padding);
    WideParts(writer, e, padding);
    WideNeighbours(writer, e, padding);
    LoadStored64(reader, writer, e.par);
    LoadStored64(reader, writer, word);
    NeighboursMark(e.nid, e.tid, padding);
    OtherWordDecides(reader == writer, true, word);
  }

  /** Such a trace: the first record of node 3, thread 0, in the wide layout of a little-endian machine. */
  lemma NodeThreeNotRecognised(reader: bool, ev: bv32, ti: bv64)
    ensures !Recognised(reader, false, true, Event(ev, 3, 0, MARK, ti), 0)
  {
    Detects64(reader, false, Event(ev, 3, 0, MARK, ti), 0);
  }
}
