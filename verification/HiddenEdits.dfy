/** A run of ordinary edits, with a new title after the commit, on which a change goes unreported. */
module HiddenEdits {
  import opened Bytes
  import opened Decimal
  import opened Merkle
  import opened PortableCodec
  import opened RevisionChain
  import opened RevisionHistory
  import opened ContentBinding
  import opened ContentRuns

  const AAA: Str := [97, 97, 97, 97, 97, 97, 97, 97, 97]
  const SPELLED: Str := AAA + [17, 0, 0, 0]

  /** A second title triple whose bytes also read as a drawing command. */
  const TITLE_AS_COMMAND: Triple := (SPELLED, NDA_TITLE, [])

  const COMMAND_AS_TITLE :=
    Command(13, 0x6100_0000, 0x6161, 0x6161, 0x6161, 0x6161, LenPrefixed(NDA_TITLE) + LenPrefixed([]))

  lemma LittleEndian()
    ensures LeBytes(13, 4) == [13, 0, 0, 0] && LeBytes(17, 4) == [17, 0, 0, 0]
    ensures LeBytes(0x6100_0000, 4) == [0, 0, 0, 97] && LeBytes(0x6161, 2) == [97, 97]
  {
    Small(13);
    Small(17);
    assert LeBytes(0x6161, 2) == [97] + LeBytes(97, 1);
    assert LeBytes(0x6100_0000, 4) == [0] + LeBytes(0x61_0000, 3);
    assert LeBytes(0x61_0000, 3) == [0] + LeBytes(0x6100, 2);
    assert LeBytes(0x6100, 2) == [0] + LeBytes(97, 1);
  }

  lemma Small(n: Byte)
    ensures LeBytes(n, 4) == [n, 0, 0, 0]
  {
    ZeroBytes(3);
    assert LeBytes(n, 4) == [n] + LeBytes(0, 3);
  }

  lemma SpelledAlike()
    ensures TripleContent(TITLE_AS_COMMAND) == CommandContent(COMMAND_AS_TITLE)
  {
    hide LeBytes, Ascii, IsProvenance;
    FieldsDistinct();
    LittleEndian();
    var tail := LenPrefixed(NDA_TITLE) + LenPrefixed([]);
    assert |tail| == 17 by { assert |NDA_TITLE| == 9; }
    assert LenPrefixed(SPELLED) == [13, 0, 0, 0] + AAA + [17, 0, 0, 0];
    assert LenPrefixed(tail) == [17, 0, 0, 0] + tail;
    assert TripleContent(TITLE_AS_COMMAND) == [13, 0, 0, 0] + AAA + [17, 0, 0, 0] + tail;
    assert [13, 0, 0, 0] + AAA == [13] + [0, 0, 0, 97] + [97, 97] + [97, 97] + [97, 97] + [97, 97];
  }

  /** What is committed in the run below: a title and a second triple under the title predicate. */
  function TwoTitles(title: Str): Doc {
    Doc([(DOC, NDA_TITLE, title), TITLE_AS_COMMAND], [])
  }

  function Retitled(title: Str): seq<Op> {
    [Title(title), Draw(COMMAND_AS_TITLE)]
  }

  lemma TwoTitlesReached(h: Hash, title: Str)
    ensures Run(h, EMPTY, [Title(title), Push(TITLE_AS_COMMAND)]) == TwoTitles(title)
    ensures GoodHistory(TwoTitles(title)) && Revisions(TwoTitles(title).triples) == []
  {
    hide Ascii;
    assert Title(title).Title?;
    var d := SetTitle(EMPTY, title);
    assert d.triples == [(DOC, NDA_TITLE, title)];
    assert TwoTitles(title) == PushTriple(d, TITLE_AS_COMMAND);
    RunTwo(h, EMPTY, Title(title), Push(TITLE_AS_COMMAND));
    DocIsNoRevision();
    assert RevIndex(SPELLED) == None by { assert SPELLED[0] == 97 && REV[0] == 114 by { FirstOfRev(); } }
    assert Holds(TwoTitles(title).triples, []);
    HoldsRevisions(TwoTitles(title).triples, []);
  }

  lemma FirstOfRev()
    ensures REV[0] == 114
  {
  }

  lemma RunTwo(h: Hash, d: Doc, p: Op, q: Op)
    ensures Run(h, d, [p, q]) == Step(h, Step(h, d, p), q)
  {
    hide Step;
    assert [p, q][1..] == [q] && [q][1..] == [];
    assert Run(h, Step(h, d, p), [q]) == Run(h, Step(h, Step(h, d, p), q), []);
  }

  lemma RetitledEdits(title: Str)
    ensures EditsAfterCommit(TwoTitles(title), Retitled(title))
  {
    hide GoodHistory, Revisions;
    TwoTitlesReached(_ => ZERO_ROOT, title);
    HonestRetitle(title);
  }

  lemma HonestRetitle(title: Str)
    ensures Honest(Retitled(title), 1) && Commits(Retitled(title)) == 0
  {
    hide Run, Commits, Honest;
    var ops, h := Retitled(title), (_ => ZERO_ROOT);
    assert ops[1..] == [Draw(COMMAND_AS_TITLE)] && ops[1..][1..] == [];
    RunUnfolds(h, EMPTY, ops, 1);
    RunUnfolds(h, EMPTY, ops[1..], 1);
    RunStops(h, EMPTY);
    assert Honest(ops, 1) by { HonestEdits(title); }
  }

  lemma HonestEdits(title: Str)
    ensures Honest(Retitled(title), 1)
  {
    var ops := Retitled(title);
    assert ops[1..] == [Draw(COMMAND_AS_TITLE)] && ops[1..][1..] == [];
    assert Honest(ops[1..], 1);
  }

  /** Retitling keeps of the committed triples only the provenance. */
  lemma RetitledTriples(h: Hash, title: Str, c: Stamp)
    ensures TriplesContent(WithoutTitle(CommitBy(h, TwoTitles(title), c).triples)) == []
  {
    hide Ascii, TriplesContent, WithoutTitle, OriginTriples, RevisionTriples, NextIndex, NewRevision, IsProvenance;
    var d := TwoTitles(title);
    var d1 := CommitBy(h, d, c);
    var origin := OriginTriples(d.triples, NextIndex(d.triples), c.timestamp, c.workspace);
    var r := NewRevision(h, d, c.author, c.timestamp, c.message);
    var us := origin + RevisionTriples(r);
    assert d1.triples == d.triples + us;
    assert d1.triples[1..][1..] == us;
    TitleDropped(d1.triples);
    TitleDropped(d1.triples[1..]);
    OriginIsNoRevision(d.triples, NextIndex(d.triples), c.timestamp, c.workspace);
    RevisionSubjects(r);
    assert forall t :: t in us ==> IsProvenance(t.1);
    WithoutTitleKeeps(us);
    ProvenanceHasNoContent(WithoutTitle(us));
  }

  /** Retitling drops both title triples, and the drawing puts the dropped bytes back. */
  lemma RetitledBytes(h: Hash, title: Str, c: Stamp)
    ensures var now := Run(h, CommitBy(h, TwoTitles(title), c), Retitled(title));
            now.commands == [COMMAND_AS_TITLE] && ContentBytes(now) == ContentBytes(TwoTitles(title))
  {
    hide Ascii, TriplesContent, CommandsContent, TripleContent, CommandContent, WithoutTitle, CommitBy;
    var d, d1 := TwoTitles(title), CommitBy(h, TwoTitles(title), c);
    assert d1.commands == [] by { CommandsStay(h, d, c); }
    RunTwo(h, d1, Title(title), Draw(COMMAND_AS_TITLE));
    var first := (DOC, NDA_TITLE, title);
    RetitledTriples(h, title, c);
    ContentAppend([first], WithoutTitle(d1.triples));
    OneTriple(TITLE_AS_COMMAND);
    ContentAppend([first], [TITLE_AS_COMMAND]);
    assert d.triples == [first] + [TITLE_AS_COMMAND];
    OneCommand(COMMAND_AS_TITLE);
    NoContent();
    SpelledAlike();
    assert [] + [COMMAND_AS_TITLE] == [COMMAND_AS_TITLE];
  }

  lemma CommandsStay(h: Hash, d: Doc, c: Stamp)
    ensures CommitBy(h, d, c).commands == d.commands
  {
  }

  /**
    An honest run, under any hash, on which `uncommitted_delta` reports no change although since the commit a
    content triple was dropped and a command drawn: what `CountedUnchangedIff` guards against.
   */
  lemma TitleHidesEdits(h: Hash, title: Str, c: Stamp)
    ensures var before := [Title(title), Push(TITLE_AS_COMMAND)];
            var committed := CommitBy(h, Run(h, EMPTY, before), c);
            var now := Run(h, committed, [Title(title), Draw(COMMAND_AS_TITLE)]);
            && Honest(before, 0) && Honest(Retitled(title), 1)
            && !UncommittedDelta(h, now).changed
            && committed.commands == [] && now.commands == [COMMAND_AS_TITLE] && !SameContent(committed, now)
  {
    hide UncommittedDelta, ContentBytes, SetTitle, Revisions, GoodHistory, RevIndex, Ascii, LatestIndex, NextIndex, Room,
         RecordedHash, Run, CommitBy;
    TwoTitlesReached(h, title);
    RetitledEdits(title);
    RetitledBytes(h, title, c);
    CommandsStay(h, TwoTitles(title), c);
    HonestEditsClaimNothing(h, TwoTitles(title), c, Retitled(title));
    RunUnchangedIff(h, TwoTitles(title), c, Retitled(title));
    assert Honest([Title(title), Push(TITLE_AS_COMMAND)], 0) by { HonestStart(title); }
  }

  lemma HonestStart(title: Str)
    ensures Honest([Title(title), Push(TITLE_AS_COMMAND)], 0)
  {
    var ops := [Title(title), Push(TITLE_AS_COMMAND)];
    assert RevIndex(SPELLED) == None by { assert SPELLED[0] != REV[0]; }
    assert ops[1..] == [Push(TITLE_AS_COMMAND)] && ops[1..][1..] == [];
  }
}
