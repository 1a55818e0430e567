/**
 * One line of an event definition file: how an entry is printed and how a line is decoded.
 */
module EdfLine {
  import opened EventTable
  import opened Scan

  const QUOTE := '"'

  // ---------- printing and decoding ----------

  /** The part of an entry's line in front of its name. */
  function Prefix(e: EdfEntry): string {
    PrintInt(e.localId) + ([' '] + (e.state + ([' '] + (PrintInt(e.tag) + [' ']))))
  }

  /** The fprintf of one entry. */
  function PrintEntry(e: EdfEntry): string {
    Prefix(e) + e.name + ([' '] + e.param)
  }

  /**
   * The three leading fields, as sscanf reads them.  The id is preset to -1 and a negative id ends
   * the program; the state is preset to nothing; the tag keeps what the variable held before.
   */
  function ScanFields(line: string, oldTag: int): Option<(int, string, int)> {
    match ScanInt(line)
    case None => None
    case Some((id, rest)) =>
      if id < 0 then None
      else
        match ScanWord(rest)
        case None => Some((id, [], oldTag))
        case Some((state, rest')) =>
          match ScanInt(rest')
          case None => Some((id, state, oldTag))
          case Some((tag, _)) => Some((id, state, tag))
  }

  /**
   * The name is what lies between the first and the last quote of the line, the parameter what
   * follows one character later; no quote, or nothing behind the last one, ends the program.
   */
  function NameAndParam(line: string): Option<(string, string)> {
    var f, l := First(line, QUOTE), Last(line, QUOTE);
    if l + 2 > |line| || f > l then None else Some((line[f..l + 1], line[l + 2..]))
  }

  /** What one line defines; None when it ends the program. */
  function DecodeLine(line: string, oldTag: int): Option<EdfEntry> {
    match NameAndParam(line)
    case None => None
    case Some((name, param)) =>
      match ScanFields(line, oldTag)
      case None => None
      case Some((id, state, tag)) => Some(EdfEntry(id, state, tag, name, param))
  }

  /** Whether a line ends the program does not depend on the lines before it, nor does it on its own tag. */
  lemma TagBlindLine(line: string, oldTag: int)
    ensures DecodeLine(line, oldTag).Some? <==> DecodeLine(line, 0).Some?
    ensures DecodeLine(line, oldTag).Some? ==>
              DecodeLine(line, DecodeLine(line, oldTag).value.tag) == DecodeLine(line, oldTag)
  {
  }

  // ---------- what a line can define ----------

  /** A newline occurs at the end if at all. */
  predicate NewlineOnlyAtEnd(s: string) { forall k :: 0 <= k < |s| - 1 ==> s[k] != NEWLINE }

  predicate EndsLine(s: string) { s != [] && s[|s| - 1] == NEWLINE }

  predicate Quoted(name: string) { name != [] && name[0] == QUOTE && name[|name| - 1] == QUOTE }

  predicate Without(s: string, c: char) { forall k :: 0 <= k < |s| ==> s[k] != c }

  /** The shape of every entry read from a line. */
  predicate FromLine(e: EdfEntry) {
    && e.localId >= 0 && e.state != [] && NoSpaces(e.state)
    && Quoted(e.name) && Without(e.name, NEWLINE)
    && Without(e.param, QUOTE) && NewlineOnlyAtEnd(e.param)
  }

  lemma NameAndParamShape(line: string)
    requires NewlineOnlyAtEnd(line) && NameAndParam(line).Some?
    ensures var (name, param) := NameAndParam(line).value;
            Quoted(name) && Without(name, NEWLINE) && Without(param, QUOTE) && NewlineOnlyAtEnd(param)
    ensures QUOTE in line
  {
    var f, l := First(line, QUOTE), Last(line, QUOTE);
    FirstPlace(line, QUOTE);
    LastPlace(line, QUOTE);
    assert line[f] == QUOTE;
  }

  lemma FieldsShape(line: string, oldTag: int)
    requires QUOTE in line && ScanFields(line, oldTag).Some?
    ensures var (id, state, _) := ScanFields(line, oldTag).value; id >= 0 && state != [] && NoSpaces(state)
  {
    WordBehindNumber(line, QUOTE);
    ScannedWord(ScanInt(line).value.1);
  }

  /** Whatever line is decoded, the entry has that shape. */
  lemma DecodedHasShape(line: string, oldTag: int)
    requires NewlineOnlyAtEnd(line) && DecodeLine(line, oldTag).Some?
    ensures FromLine(DecodeLine(line, oldTag).value)
  {
    NameAndParamShape(line);
    FieldsShape(line, oldTag);
  }

  // ---------- a line with a name in it ----------

  /** A quoted name with no quote around it is found, and what follows one character later is the parameter. */
  lemma NameFound(before: string, name: string, c: char, param: string)
    requires Without(before, QUOTE) && Quoted(name) && c != QUOTE && Without(param, QUOTE)
    ensures NameAndParam(before + name + ([c] + param)) == Some((name, param))
  {
    var line, p, n := before + name + ([c] + param), |before|, |name|;
    SlicesOf(before, name, c, param);
    EndsOf(line, p, name);
    NameAt(line, p, n);
  }

  lemma EndsOf(line: string, p: nat, name: string)
    requires name != [] && p + |name| <= |line| && line[p..p + |name|] == name
    ensures line[p] == name[0] && line[p + |name| - 1] == name[|name| - 1]
  {
    assert line[p..p + |name|][|name| - 1] == name[|name| - 1];
  }

  lemma SlicesOf(before: string, name: string, c: char, param: string)
    ensures var line, p, n := before + name + ([c] + param), |before|, |name|;
            && |line| == p + n + 1 + |param| && line[p + n] == c
            && line[..p] == before && line[p..p + n] == name && line[p + n + 1..] == param
  {
  }

  lemma NameAt(line: string, p: nat, n: nat)
    requires 0 < n && p + n < |line| && line[p] == QUOTE && line[p + n - 1] == QUOTE && line[p + n] != QUOTE
    requires Without(line[..p], QUOTE) && Without(line[p + n + 1..], QUOTE)
    ensures NameAndParam(line) == Some((line[p..p + n], line[p + n + 1..]))
  {
    FirstIs(line, QUOTE, p);
    forall j | p + n <= j < |line|
      ensures line[j] != QUOTE
    {
      assert j > p + n ==> line[j] == line[p + n + 1..][j - (p + n + 1)];
    }
    LastIs(line, QUOTE, p + n - 1);
  }

  /** With a quote before or behind it a longer name is found, if any. */
  lemma NameSpoiled(before: string, name: string, behind: string)
    requires Quoted(name) && (QUOTE in before || QUOTE in behind)
    ensures var r := NameAndParam(before + name + behind); r.Some? ==> |r.value.0| > |name|
  {
    var line, p, n := before + name + behind, |before|, |name|;
    assert line[p] == name[0] && line[p + n - 1] == name[n - 1];
    var other := if QUOTE in before then Index(before, QUOTE) else p + n + Index(behind, QUOTE);
    assert line[other] == QUOTE;
    FirstPlace(line, QUOTE);
    LastPlace(line, QUOTE);
  }

  function Index(s: string, c: char): (k: nat)
    requires c in s
    ensures k < |s| && s[k] == c
  {
    if s[0] == c then 0 else 1 + Index(s[1..], c)
  }

  // ---------- the fields in front ----------

  lemma FieldsFound(id: int, state: string, tag: int, tail: string, oldTag: int)
    requires state != [] && NoSpaces(state)
    ensures ScanFields(PrintInt(id) + ([' '] + (state + ([' '] + (PrintInt(tag) + ([' '] + tail))))), oldTag) ==
              if id < 0 then None else Some((id, state, tag))
  {
    var r3 := [' '] + tail;
    var r2 := [' '] + (PrintInt(tag) + r3);
    var r1 := [' '] + (state + r2);
    ScanPrintedInt(id, r1);
    ScanPrintedWord(state, r2);
    ScanPrintedInt(tag, r3);
  }

  lemma Regroup(a: string, b: string, c: string, tail: string)
    ensures a + ([' '] + (b + ([' '] + (c + [' '])))) + tail == a + ([' '] + (b + ([' '] + (c + ([' '] + tail)))))
  {
  }

  lemma FieldsOfPrinted(e: EdfEntry, tail: string, oldTag: int)
    requires FromLine(e)
    ensures ScanFields(Prefix(e) + tail, oldTag) == Some((e.localId, e.state, e.tag))
  {
    FieldsFound(e.localId, e.state, e.tag, tail, oldTag);
    Regroup(PrintInt(e.localId), e.state, PrintInt(e.tag), tail);
  }

  lemma JoinedWithout(id: string, state: string, tag: string, c: char)
    requires c != ' ' && c !in id && c !in tag
    ensures c in id + ([' '] + (state + ([' '] + (tag + [' '])))) <==> c in state
  {
  }

  /** Apart from the state, what is printed in front of the name is plain. */
  lemma PrefixHas(e: EdfEntry, c: char)
    requires !IsDigit(c) && c != '-' && c != ' '
    ensures c in Prefix(e) <==> c in e.state
  {
    PrintIntIsPlain(e.localId, c);
    PrintIntIsPlain(e.tag, c);
    JoinedWithout(PrintInt(e.localId), e.state, PrintInt(e.tag), c);
  }

  // ---------- decoding a printed entry ----------

  lemma FromParts(line: string, oldTag: int, name: string, param: string)
    requires NameAndParam(line) == Some((name, param))
    ensures DecodeLine(line, oldTag) ==
              match ScanFields(line, oldTag)
              case None => None
              case Some((id, state, tag)) => Some(EdfEntry(id, state, tag, name, param))
  {
  }

  lemma Associates(a: string, b: string, c: string)
    ensures a + b + c == a + (b + c)
  {
  }

  /** Without such quotes a printed entry decodes to itself, whatever quotes its name has inside. */
  lemma DecodeClean(e: EdfEntry, oldTag: int)
    requires FromLine(e) && QUOTE !in e.state
    ensures DecodeLine(PrintEntry(e), oldTag) == Some(e)
  {
    PrefixHas(e, QUOTE);
    NameFound(Prefix(e), e.name, ' ', e.param);
    FieldsOfPrinted(e, e.name + ([' '] + e.param), oldTag);
    Associates(Prefix(e), e.name, [' '] + e.param);
    FromParts(PrintEntry(e), oldTag, e.name, e.param);
  }

  lemma LongerNameDiffers(line: string, oldTag: int, e: EdfEntry)
    requires NameAndParam(line).Some? ==> |NameAndParam(line).value.0| > |e.name|
    ensures DecodeLine(line, oldTag) != Some(e)
  {
  }

  /** A quote in the state, or one in text glued to the entry's line, spoils the name. */
  lemma DecodeSpoiled(e: EdfEntry, extra: string, oldTag: int)
    requires FromLine(e) && (QUOTE in extra || QUOTE in e.state)
    ensures DecodeLine(PrintEntry(e) + extra, oldTag) != Some(e)
  {
    PrefixHas(e, QUOTE);
    var behind := [' '] + e.param + extra;
    NameSpoiled(Prefix(e), e.name, behind);
    assert PrintEntry(e) + extra == Prefix(e) + e.name + behind by {
      Associates(Prefix(e) + e.name, [' '] + e.param, extra);
    }
    LongerNameDiffers(PrintEntry(e) + extra, oldTag, e);
  }

  /** An entry with a negative id is never read back: its line ends the program. */
  lemma DecodeNegative(e: EdfEntry, extra: string, oldTag: int)
    requires e.localId < 0 && e.state != [] && NoSpaces(e.state)
    ensures DecodeLine(PrintEntry(e) + extra, oldTag).None?
  {
    var tail := e.name + ([' '] + e.param) + extra;
    FieldsFound(e.localId, e.state, e.tag, tail, oldTag);
    Regroup(PrintInt(e.localId), e.state, PrintInt(e.tag), tail);
    Associates(Prefix(e), e.name, [' '] + e.param);
    Associates(Prefix(e), e.name + ([' '] + e.param), extra);
  }

  /** A definition line with nothing behind its name is read with an empty parameter: its line end is lost. */
  lemma LineWithoutParameter(e: EdfEntry, oldTag: int)
    requires FromLine(e) && QUOTE !in e.state && e.param == []
    ensures DecodeLine(Prefix(e) + e.name + [NEWLINE], oldTag) == Some(e)
  {
    PrefixHas(e, QUOTE);
    NameFound(Prefix(e), e.name, NEWLINE, []);
    assert [NEWLINE] + [] == [NEWLINE];
    FieldsOfPrinted(e, e.name + [NEWLINE], oldTag);
    Associates(Prefix(e), e.name, [NEWLINE]);
    FromParts(Prefix(e) + e.name + [NEWLINE], oldTag, e.name, []);
  }
}
