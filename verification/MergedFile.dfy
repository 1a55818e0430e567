/**
 * The merged event file of a run: when a tool that reads it finds under every global id exactly
 * the name that has it, in terms of the definition lines of the input files.
 */
module MergedFile {
  import opened EventTable
  import opened EdfLine
  import opened EdfFile
  import opened Meaning
  import opened MergeProgram

  /** es lists the stored table, each name once. */
  ghost predicate ListsTable(es: seq<EdfEntry>, stored: map<string, EventDescr>) {
    && (forall k :: 0 <= k < |es| ==>
          es[k].name in stored
          && var d := stored[es[k].name]; es[k] == EdfEntry(d.gid, d.state, d.tag, es[k].name, d.param))
    && (forall name :: name in stored ==> exists k :: 0 <= k < |es| && es[k].name == name)
  }

  lemma {:induction false} NameOfListed(es: seq<EdfEntry>, k: nat)
    requires k < |es|
    requires forall i :: 0 <= i < |es| && es[i].localId == es[k].localId ==> es[i].name == es[k].name
    ensures NameOf(es, es[k].localId) == Some(es[k].name)
    decreases |es|
  {
    if es[|es| - 1].localId != es[k].localId {
      NameOfListed(es[..|es| - 1], k);
    }
  }

  /** A tool that parses the merged file, if it reads back, finds under every global id exactly the name that has it. */
  lemma ReadBack(es: seq<EdfEntry>, stored: map<string, EventDescr>, name: string)
    requires ListsTable(es, stored) && Numbered(stored, |stored|) && name in stored
    ensures NameOf(es, stored[name].gid) == Some(name)
  {
    var k :| 0 <= k < |es| && es[k].name == name;
    forall i | 0 <= i < |es| && es[i].localId == es[k].localId
      ensures es[i].name == es[k].name
    {
      assert stored[es[i].name].gid == stored[es[k].name].gid;
    }
    NameOfListed(es, k);
  }

  // ---------- in terms of the input files ----------

  /** The event files are texts; tags are what the tag variable holds when parsing starts. */
  ghost predicate FromTexts(edf: EdfFiles, texts: (nat, nat) -> string, tags: (nat, nat) -> int) {
    forall i: nat, t: nat :: edf(i, t) == ParseFile(texts(i, t), tags(i, t))
  }

  ghost predicate AllFromLines(es: seq<EdfEntry>) { forall k :: 0 <= k < |es| ==> FromLine(es[k]) }

  lemma DefsFromLines(edf: EdfFiles, texts: (nat, nat) -> string, tags: (nat, nat) -> int, i: nat)
    requires FromTexts(edf, texts, tags)
    ensures AllFromLines(Defs(edf, i, 0))
  {
    assert edf(i, 0) == ParseFile(texts(i, 0), tags(i, 0));
    if edf(i, 0).Entries? {
      ParsedFileHasShape(texts(i, 0), tags(i, 0));
    }
  }

  lemma JoinedFromLines(a: seq<EdfEntry>, b: seq<EdfEntry>)
    requires AllFromLines(a) && AllFromLines(b)
    ensures AllFromLines(a + b)
  {
  }

  lemma {:induction false} AllDefsFromLines(edf: EdfFiles, n: nat)
    requires forall i: nat :: AllFromLines(Defs(edf, i, 0))
    ensures AllFromLines(AllDefs(edf, n))
    decreases n
  {
    if n > 0 {
      AllDefsFromLines(edf, n - 1);
      JoinedFromLines(AllDefs(edf, n - 1), Defs(edf, n - 1, 0));
    }
  }

  lemma {:induction false} DefsAreInAllDefs(edf: EdfFiles, n: nat, i: nat, name: string)
    requires i < n && FirstDef(Defs(edf, i, 0), name).Some?
    ensures FirstDef(AllDefs(edf, n), name).Some?
    decreases n
  {
    var front, last := AllDefs(edf, n - 1), Defs(edf, n - 1, 0);
    if i < n - 1 {
      DefsAreInAllDefs(edf, n - 1, i, name);
    }
    DefinedInConcat(front, last, name);
  }

  lemma DefinedInConcat(a: seq<EdfEntry>, b: seq<EdfEntry>, name: string)
    ensures FirstDef(a + b, name).Some? <==> FirstDef(a, name).Some? || FirstDef(b, name).Some?
  {
    FirstDefConcat(a, b, name);
  }

  /** With finished event files every name of the merged file has the descriptor of its first definition line. */
  lemma FirstLineDescribes(edf: EdfFiles, n: nat, step: nat, stored: map<string, EventDescr>, name: string)
    requires DefinedBy(edf, n, step, stored) && Finished(edf)
    ensures name in stored <==> FirstDef(AllDefs(edf, n), name).Some?
    ensures name in stored ==> Describes(stored[name], FirstDef(AllDefs(edf, n), name).value)
  {
    if name in stored && FirstDef(AllDefs(edf, n), name).None? {
      var e :| DefinedIn(edf, n, step, name, Some(e)) && Describes(stored[name], e);
      var i: nat, t: nat :| i < n && t <= step && FirstDef(Defs(edf, i, t), name) == Some(e);
      assert edf(i, t) == edf(i, 0);
      DefsAreInAllDefs(edf, n, i, name);
      assert false;
    }
  }

  lemma ListedFromLine(edf: EdfFiles, n: nat, stored: map<string, EventDescr>, e: EdfEntry)
    requires AllFromLines(AllDefs(edf, n)) && FirstDef(AllDefs(edf, n), e.name).Some?
    requires e.name in stored && Describes(stored[e.name], FirstDef(AllDefs(edf, n), e.name).value)
    requires e == EdfEntry(stored[e.name].gid, stored[e.name].state, stored[e.name].tag, e.name, stored[e.name].param)
    requires stored[e.name].gid >= 0
    ensures FromLine(e)
  {
    FirstDefNamed(AllDefs(edf, n), e.name);
    assert FromLine(FirstDef(AllDefs(edf, n), e.name).value);
  }

  /** The definition line of a name survives: no quote in its state, and a parameter with its line end unless it comes last. */
  ghost predicate LineSurvives(log: seq<EdfEntry>, name: string, last: bool) {
    match FirstDef(log, name)
    case None => true
    case Some(d) => QUOTE !in d.state && (last || EndsLine(d.param))
  }

  /**
   * The merged file of a completed run on finished event files reads back if and only if the first
   * definition line of every name survives.
   */
  lemma MergedFileReadsBack(header: string, es: seq<EdfEntry>, stored: map<string, EventDescr>, tag: int, edf: EdfFiles,
                            texts: (nat, nat) -> string, tags: (nat, nat) -> int, n: nat, step: nat)
    requires FromTexts(edf, texts, tags) && Finished(edf) && HeaderLine(header)
    requires DefinedBy(edf, n, step, stored) && Numbered(stored, |stored|) && ListsTable(es, stored)
    ensures ParseFile(PrintFile(header, es), tag) == Entries(es) <==>
              forall k :: 0 <= k < |es| ==> LineSurvives(AllDefs(edf, n), es[k].name, k == |es| - 1)
  {
    forall i: nat
      ensures AllFromLines(Defs(edf, i, 0))
    {
      DefsFromLines(edf, texts, tags, i);
    }
    AllDefsFromLines(edf, n);
    forall k | 0 <= k < |es|
      ensures FromLine(es[k])
      ensures LineSurvives(AllDefs(edf, n), es[k].name, k == |es| - 1) <==>
                QUOTE !in es[k].state && (k < |es| - 1 ==> EndsLine(es[k].param))
    {
      FirstLineDescribes(edf, n, step, stored, es[k].name);
      ListedFromLine(edf, n, stored, es[k]);
    }
    RoundTrip(header, es, tag);
  }
}
