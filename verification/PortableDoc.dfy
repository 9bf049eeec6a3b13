/** The mutable portable document: edits, commits and history checks on its own fields. */
module PortableDoc {
  import opened Bytes
  import opened Decimal
  import opened Merkle
  import opened PortableCodec
  import opened PortableIO
  import opened RevisionChain
  import opened RevisionHistory

  class NdaPortableDoc {
    var triples: seq<Triple>
    var commands: seq<Command>

    function Model(): Doc
      reads this
    {
      Doc(triples, commands)
    }

    constructor ()
      ensures Model() == EMPTY && GoodHistory(Model())
    {
      triples, commands := [], [];
    }

    method Push(subject: Str, predicate_: Str, object_: Str)
      modifies this`triples
      ensures Model() == PushTriple(old(Model()), (subject, predicate_, object_))
    {
      triples := triples + [(subject, predicate_, object_)];
    }

    method Draw(c: Command)
      modifies this`commands
      ensures Model() == PushCommand(old(Model()), c)
    {
      commands := commands + [c];
    }

    /** `set_title`: drop every title triple, then put the new one first. */
    method Retitle(title: Str)
      modifies this`triples
      ensures Model() == RevisionChain.SetTitle(old(Model()), title)
      ensures old(GoodHistory(Model())) ==> GoodHistory(Model()) && Revisions(triples) == Revisions(old(triples))
    {
      hide Ascii, Revisions, Holds, Linked;
      var kept: seq<Triple> := [];
      for i := 0 to |triples|
        invariant triples == old(triples)
        invariant kept == WithoutTitle(triples[..i])
      {
        WithoutTitleSnoc(triples, i);
        if triples[i].1 != NDA_TITLE {
          kept := kept + [triples[i]];
        }
      }
      assert triples[..|triples|] == triples;
      triples := [(DOC, NDA_TITLE, title)] + kept;
      if old(GoodHistory(Model())) {
        HoldsSetTitle(old(Model()), title, Revisions(old(triples)));
        HoldsRevisions(triples, Revisions(old(triples)));
      }
    }

    /** The origin and creation markers of the first revision. */
    method RecordOrigin(next: nat, timestamp: Str, workspace: Str)
      modifies this`triples
      ensures triples == old(triples) + OriginTriples(old(triples), next, timestamp, workspace)
    {
      hide Ascii;
      if next == 0 {
        CreatedElsewhere(triples, workspace);
        triples := triples + [(DOC, NDA_ORIGIN, workspace)];
        if !exists i :: 0 <= i < |triples| && triples[i].1 == NDA_CREATED {
          triples := triples + [(DOC, NDA_CREATED, timestamp)];
        }
      }
    }

    /** The seven triples of a revision, pushed one by one. */
    method RecordRevision(r: Revision)
      modifies this`triples
      ensures triples == old(triples) + RevisionTriples(r)
    {
      hide Ascii;
      triples := triples + [(r.id, REV_PARENT, r.parent)];
      triples := triples + [(r.id, REV_CONTENT_HASH, r.contentHash)];
      triples := triples + [(r.id, REV_AUTHOR_NAME, r.authorName)];
      triples := triples + [(r.id, REV_AUTHOR_EMAIL, r.authorEmail)];
      triples := triples + [(r.id, REV_AUTHOR_SOURCE, r.authorSource)];
      triples := triples + [(r.id, REV_TIMESTAMP, r.timestamp)];
      triples := triples + [(r.id, REV_MESSAGE, r.message)];
    }

    /** `commit_revision`. */
    method CommitRevision(h: Hash, a: Author, timestamp: Str, message: Str, workspace: Str)
      modifies this`triples
      ensures Model() == Commit(h, old(Model()), a, timestamp, message, workspace)
      ensures old(GoodHistory(Model())) && |Revisions(old(triples))| < U64 ==>
        && GoodHistory(Model())
        && |Revisions(triples)| == |Revisions(old(triples))| + 1
        && Revisions(old(triples)) <= Revisions(triples)
        && !UncommittedDelta(h, Model()).changed
    {
      hide Ascii, Revisions, GoodHistory, Hex, ContentHash, NextIndex, ParentHash, RevSubject, UncommittedDelta,
        OriginTriples, RevisionTriples;
      ghost var d := Model();
      var parent := ParentHash(triples);
      var contentHex := Hex(ContentHash(h, Doc(triples, commands)));
      var next := NextIndex(triples);
      RecordOrigin(next, timestamp, workspace);
      RecordRevision(Revision(RevSubject(next), parent, contentHex, a.name, a.email, a.source, timestamp, message));
      assert Model() == Commit(h, d, a, timestamp, message, workspace);
      if old(GoodHistory(Model())) && |Revisions(old(triples))| < U64 {
        CommitAppendsOne(h, d, a, timestamp, message, workspace);
        CommitLeavesNothing(h, d, a, timestamp, message, workspace);
      }
    }

    /** `verify_history`: walk the revisions with the previous content hash in hand. */
    method CheckHistory() returns (r: Result<(), BrokenLink>)
      ensures r == VerifyHistory(triples)
      ensures GoodHistory(Model()) ==> r.Ok?
    {
      hide Revisions, Holds, Linked;
      var revs := Revisions(triples);
      var prev: Option<Str> := None;
      if GoodHistory(Model()) { GoodVerifies(Model()); }
      for i := 0 to |revs|
        invariant VerifyFrom(revs, None) == VerifyFrom(revs[i..], prev)
      {
        var expected := Expected(prev);
        if revs[i].parent != expected {
          return Err(BrokenLink(revs[i].id, revs[i].parent, expected));
        }
        assert revs[i..][1..] == revs[i + 1..];
        prev := Some(revs[i].contentHash);
      }
      r := Ok(());
    }

    /** `try_to_portable_bytes`, then `from_portable_bytes` on the result. */
    method SaveAndReload(h: Hash) returns (r: Result<Doc, EncodeError>)
      requires WellFormed(Model())
      ensures if Fits(Model()) then r == Ok(Model()) else r.Err?
    {
      r := Transport(h, Doc(triples, commands));
    }
  }

  lemma CreatedElsewhere(ts: seq<Triple>, workspace: Str)
    ensures (exists i :: 0 <= i < |ts| && ts[i].1 == NDA_CREATED)
            <==> exists i :: 0 <= i < |ts + [(DOC, NDA_ORIGIN, workspace)]|
                             && (ts + [(DOC, NDA_ORIGIN, workspace)])[i].1 == NDA_CREATED
  {
    var us := ts + [(DOC, NDA_ORIGIN, workspace)];
    assert |NDA_ORIGIN| != |NDA_CREATED|;
    if i :| 0 <= i < |ts| && ts[i].1 == NDA_CREATED {
      assert us[i].1 == NDA_CREATED;
    }
  }

  lemma {:induction false} WithoutTitleAppend(a: seq<Triple>, b: seq<Triple>)
    ensures WithoutTitle(a + b) == WithoutTitle(a) + WithoutTitle(b)
  {
    hide Ascii;
    if a == [] {
      assert a + b == b;
    } else {
      assert (a + b)[1..] == a[1..] + b;
      WithoutTitleAppend(a[1..], b);
    }
  }

  lemma WithoutTitleSnoc(ts: seq<Triple>, i: nat)
    requires i < |ts|
    ensures WithoutTitle(ts[..i + 1]) == WithoutTitle(ts[..i]) + if ts[i].1 == NDA_TITLE then [] else [ts[i]]
  {
    hide Ascii;
    assert ts[..i + 1] == ts[..i] + [ts[i]];
    WithoutTitleAppend(ts[..i], [ts[i]]);
    assert WithoutTitle([ts[i]][1..]) == [];
  }
}
