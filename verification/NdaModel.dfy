/** Documents of lossless facts over an interning dictionary. */
module NdaModel {
  import opened Bytes
  import opened Decimal

  datatype Object = StrId(id: Word32) | Int(value: Int64)

  datatype Fact = Fact(subject: Word32, pred: Word16, obj: Object)

  datatype Dict = Dict(strings: seq<Str>, index: map<Str, nat>)

  datatype Document = Document(dict: Dict, facts: seq<Fact>)

  /** A fact as an agent reads it. */
  type Readable = (Str, Word16, Str)

  const EMPTY_DICT := Dict([], map[])

  // ----- interning

  /** The id `intern` returns; a new id is cast with `as u32`. */
  function InternId(d: Dict, s: Str): Word32
    requires Sound(d)
  {
    if s in d.index then d.index[s] else |d.strings| % U32
  }

  function Intern(d: Dict, s: Str): Dict {
    if s in d.index then d else Dict(d.strings + [s], d.index[s := |d.strings| % U32])
  }

  function Resolve(d: Dict, id: nat): Option<Str> {
    if id < |d.strings| then Some(d.strings[id]) else None
  }

  /** Every indexed string is where its id says. */
  ghost predicate Sound(d: Dict) {
    forall s :: s in d.index ==> d.index[s] < |d.strings| && d.index[s] < U32 && d.strings[d.index[s]] == s
  }

  /** The index exactly inverts the string list. */
  ghost predicate Inverts(d: Dict) {
    && Sound(d)
    && forall i :: 0 <= i < |d.strings| ==> d.strings[i] in d.index && d.index[d.strings[i]] == i
  }

  /** Interning returns an id that resolves to the string and never changes what an existing id resolves to. */
  lemma InternResolves(d: Dict, s: Str)
    requires Sound(d) && |d.strings| < U32
    ensures Sound(Intern(d, s)) && Resolve(Intern(d, s), InternId(d, s)) == Some(s)
    ensures d.strings <= Intern(d, s).strings && |Intern(d, s).strings| <= |d.strings| + 1
    ensures forall id :: Resolve(d, id).Some? ==> Resolve(Intern(d, s), id) == Resolve(d, id)
  {
  }

  lemma InternInverts(d: Dict, s: Str)
    requires Inverts(d) && |d.strings| < U32
    ensures Inverts(Intern(d, s))
  {
    InternResolves(d, s);
  }

  // ----- reading facts

  /** `object_display`. */
  function ObjectDisplay(d: Dict, o: Object): Option<Str> {
    match o
    case StrId(id) => Resolve(d, id)
    case Int(n) => Some(DecInt(n))
  }

  function Display(d: Dict, f: Fact): Option<Readable> {
    match (Resolve(d, f.subject), ObjectDisplay(d, f.obj))
    case (Some(s), Some(o)) => Some((s, f.pred, o))
    case (_, _) => None
  }

  function Shown(d: Dict, f: Fact): seq<Readable> {
    match Display(d, f) case Some(r) => [r] case None => []
  }

  /** `readable_facts`: facts with unresolvable ids are skipped. */
  function ReadableFacts(d: Dict, facts: seq<Fact>): seq<Readable> {
    if facts == [] then [] else Shown(d, facts[0]) + ReadableFacts(d, facts[1..])
  }

  lemma {:induction false} ReadableAppend(d: Dict, a: seq<Fact>, b: seq<Fact>)
    ensures ReadableFacts(d, a + b) == ReadableFacts(d, a) + ReadableFacts(d, b)
  {
    hide Shown;
    if a == [] {
      assert a + b == b;
    } else {
      assert (a + b)[1..] == a[1..] + b;
      ReadableAppend(d, a[1..], b);
    }
  }

  /** The largest dictionary id a fact uses. */
  function TopId(f: Fact): nat {
    match f.obj
    case StrId(id) => if id > f.subject then id else f.subject
    case Int(_) => f.subject
  }

  lemma DisplayIff(d: Dict, f: Fact)
    ensures Display(d, f).Some? <==> TopId(f) < |d.strings|
  {
  }

  lemma DisplayGrows(d: Dict, e: Dict, f: Fact)
    requires d.strings <= e.strings
    ensures TopId(f) < |d.strings| ==> Display(e, f) == Display(d, f)
  {
  }

  /** A grown dictionary reads the same facts exactly when no fact points into the grown part. */
  lemma {:induction false} ReadableGrowsIff(d: Dict, e: Dict, facts: seq<Fact>)
    requires d.strings <= e.strings
    ensures |ReadableFacts(e, facts)| >= |ReadableFacts(d, facts)|
    ensures ReadableFacts(e, facts) == ReadableFacts(d, facts)
            <==> forall i :: 0 <= i < |facts| ==> !(|d.strings| <= TopId(facts[i]) < |e.strings|)
  {
    hide Display;
    if facts != [] {
      var f := facts[0];
      ReadableGrowsIff(d, e, facts[1..]);
      DisplayIff(d, f);
      DisplayIff(e, f);
      DisplayGrows(d, e, f);
      assert forall i :: 1 <= i < |facts| ==> facts[i] == facts[1..][i - 1];
      if !(|d.strings| <= TopId(f) < |e.strings|) {
        assert Shown(e, f) == Shown(d, f);
        PrefixCancel(Shown(d, f), ReadableFacts(e, facts[1..]), ReadableFacts(d, facts[1..]));
      } else {
        assert |Shown(e, f)| == 1 && |Shown(d, f)| == 0;
      }
    }
  }

  lemma PrefixCancel<T>(p: seq<T>, a: seq<T>, b: seq<T>)
    ensures p + a == p + b <==> a == b
  {
    if p + a == p + b {
      assert a == (p + a)[|p|..] && b == (p + b)[|p|..];
    }
  }

  // ----- building and merging

  function PushStr(d: Document, s: Str, pred: Word16, o: Str): Document
    requires Sound(d.dict) && |d.dict.strings| + 1 < U32
  {
    InternResolves(d.dict, s);
    var d1 := Intern(d.dict, s);
    Document(Intern(d1, o), d.facts + [Fact(InternId(d.dict, s), pred, StrId(InternId(d1, o)))])
  }

  function PushInt(d: Document, s: Str, pred: Word16, n: Int64): Document
    requires Sound(d.dict) && |d.dict.strings| < U32
  {
    Document(Intern(d.dict, s), d.facts + [Fact(InternId(d.dict, s), pred, Int(n))])
  }

  /** One iteration of `merge`: re-intern the strings of a source fact, or skip it. */
  function MergeFact(d: Document, src: Dict, f: Fact): (r: Document)
    requires Sound(d.dict) && |d.dict.strings| + 1 < U32
    ensures Sound(r.dict) && |r.dict.strings| <= |d.dict.strings| + 2 && d.dict.strings <= r.dict.strings
  {
    match Resolve(src, f.subject)
    case None => d
    case Some(s) =>
      InternResolves(d.dict, s);
      var d1 := Intern(d.dict, s);
      match f.obj
      case Int(n) => Document(d1, d.facts + [Fact(InternId(d.dict, s), f.pred, f.obj)])
      case StrId(id) =>
        match Resolve(src, id)
        case None => d.(dict := d1)
        case Some(o) =>
          InternResolves(d1, o);
          Document(Intern(d1, o), d.facts + [Fact(InternId(d.dict, s), f.pred, StrId(InternId(d1, o)))])
  }

  function Merge(d: Document, src: Dict, facts: seq<Fact>): (r: Document)
    requires Sound(d.dict) && |d.dict.strings| + 2 * |facts| <= U32
    ensures Sound(r.dict) && d.dict.strings <= r.dict.strings
    ensures |r.dict.strings| <= |d.dict.strings| + 2 * |facts|
    decreases |facts|
  {
    if facts == [] then d else Merge(MergeFact(d, src, facts[0]), src, facts[1..])
  }

  /** A merged fact reads in the target as it read in the source. */
  lemma MergeFactReads(d: Document, src: Dict, f: Fact)
    requires Sound(d.dict) && |d.dict.strings| + 1 < U32
    ensures var r := MergeFact(d, src, f);
            && d.facts <= r.facts
            && ReadableFacts(r.dict, r.facts[|d.facts|..]) == Shown(src, f)
            && (forall i :: |d.facts| <= i < |r.facts| ==> TopId(r.facts[i]) < |r.dict.strings|)
  {
    hide Sound, Intern, InternId, DecInt;
    var r := MergeFact(d, src, f);
    if Resolve(src, f.subject).Some? {
      var s := Resolve(src, f.subject).value;
      InternResolves(d.dict, s);
      var d1 := Intern(d.dict, s);
      match f.obj {
        case Int(n) =>
          assert r.facts[|d.facts|..] == [Fact(InternId(d.dict, s), f.pred, f.obj)];
          OneReads(r.dict, r.facts[|d.facts|]);
        case StrId(id) =>
          if Resolve(src, id).Some? {
            var o := Resolve(src, id).value;
            InternResolves(d1, o);
            assert r.facts[|d.facts|..] == [Fact(InternId(d.dict, s), f.pred, StrId(InternId(d1, o)))];
            OneReads(r.dict, r.facts[|d.facts|]);
          }
      }
    }
  }

  lemma OneReads(d: Dict, f: Fact)
    ensures ReadableFacts(d, [f]) == Shown(d, f)
  {
    assert ReadableFacts(d, [f][1..]) == [];
  }

  /** What a merge adds: the target's facts stay as stored, and the rest reads like the source. */
  lemma {:induction false} MergeReads(d: Document, src: Dict, facts: seq<Fact>)
    requires Sound(d.dict) && |d.dict.strings| + 2 * |facts| <= U32
    ensures var r := Merge(d, src, facts);
            && d.facts <= r.facts
            && ReadableFacts(r.dict, r.facts[|d.facts|..]) == ReadableFacts(src, facts)
    decreases |facts|
  {
    hide MergeFact, Shown;
    if facts != [] {
      var m := MergeFact(d, src, facts[0]);
      var r := Merge(m, src, facts[1..]);
      MergeFactReads(d, src, facts[0]);
      MergeReads(m, src, facts[1..]);
      var mid := m.facts[|d.facts|..];
      assert r.facts[|d.facts|..] == mid + r.facts[|m.facts|..];
      ReadableAppend(r.dict, mid, r.facts[|m.facts|..]);
      ReadableGrowsIff(m.dict, r.dict, mid);
    }
  }

  // ----- how far a merge grows the dictionary

  /** The strings a merge interns for a fact: a resolvable subject, even of a fact then skipped, and its object. */
  function FactStrings(src: Dict, f: Fact): set<Str> {
    match Resolve(src, f.subject)
    case None => {}
    case Some(s) =>
      match f.obj
      case Int(_) => {s}
      case StrId(id) => match Resolve(src, id) case None => {s} case Some(o) => {s, o}
  }

  function MergedStrings(src: Dict, facts: seq<Fact>): set<Str> {
    if facts == [] then {} else FactStrings(src, facts[0]) + MergedStrings(src, facts[1..])
  }

  /** The new dictionary entries a merge will make, told from the two documents before it. */
  function NewStrings(d: Document, src: Document): set<Str> {
    MergedStrings(src.dict, src.facts) - d.dict.index.Keys
  }

  /** The dictionary gains one slot per new key. */
  ghost predicate GrownBy(d: Dict, r: Dict, ss: set<Str>) {
    r.index.Keys == d.index.Keys + ss && |r.strings| + |d.index.Keys| == |d.strings| + |r.index.Keys|
  }

  lemma InternGrows(d: Dict, s: Str)
    ensures GrownBy(d, Intern(d, s), {s})
  {
    if s in d.index { assert d.index.Keys + {s} == d.index.Keys; }
  }

  lemma GrownTrans(a: Dict, b: Dict, c: Dict, ss: set<Str>, ts: set<Str>)
    requires GrownBy(a, b, ss) && GrownBy(b, c, ts)
    ensures GrownBy(a, c, ss + ts)
  {
  }

  lemma MergeFactDict(d: Document, src: Dict, f: Fact)
    requires Sound(d.dict) && |d.dict.strings| + 1 < U32
    ensures MergeFact(d, src, f).dict ==
            match Resolve(src, f.subject)
            case None => d.dict
            case Some(s) =>
              if f.obj.StrId? && Resolve(src, f.obj.id).Some?
              then Intern(Intern(d.dict, s), Resolve(src, f.obj.id).value) else Intern(d.dict, s)
  {
    hide Intern, InternId, Sound;
  }

  lemma MergeFactGrows(d: Document, src: Dict, f: Fact)
    requires Sound(d.dict) && |d.dict.strings| + 1 < U32
    ensures GrownBy(d.dict, MergeFact(d, src, f).dict, FactStrings(src, f))
  {
    hide GrownBy, Intern, MergeFact, Sound, Resolve;
    MergeFactDict(d, src, f);
    match Resolve(src, f.subject) {
      case None => Ungrown(d.dict);
      case Some(s) =>
        InternGrows(d.dict, s);
        if f.obj.StrId? && Resolve(src, f.obj.id).Some? {
          var d1, o := Intern(d.dict, s), Resolve(src, f.obj.id).value;
          InternGrows(d1, o);
          GrownTrans(d.dict, d1, Intern(d1, o), {s}, {o});
          assert {s} + {o} == {s, o};
        }
    }
  }

  lemma Ungrown(d: Dict)
    ensures GrownBy(d, d, {})
  {
  }

  lemma {:induction false} MergeGrows(d: Document, src: Dict, facts: seq<Fact>)
    requires Sound(d.dict) && |d.dict.strings| + 2 * |facts| <= U32
    ensures GrownBy(d.dict, Merge(d, src, facts).dict, MergedStrings(src, facts))
    decreases |facts|
  {
    hide GrownBy, MergeFact, FactStrings;
    if facts == [] {
      Ungrown(d.dict);
    } else {
      var m := MergeFact(d, src, facts[0]);
      MergeFactGrows(d, src, facts[0]);
      MergeGrows(m, src, facts[1..]);
      GrownTrans(d.dict, m.dict, Merge(m, src, facts[1..]).dict, FactStrings(src, facts[0]),
                 MergedStrings(src, facts[1..]));
    }
  }

  /** A merge fills exactly one slot per string the target did not know. */
  lemma MergeFillsNewStrings(d: Document, src: Document)
    requires Sound(d.dict) && |d.dict.strings| + 2 * |src.facts| <= U32
    ensures |Merge(d, src.dict, src.facts).dict.strings| == |d.dict.strings| + |NewStrings(d, src)|
  {
    hide Merge, MergedStrings, Sound;
    MergeGrows(d, src.dict, src.facts);
    UnionSize(d.dict.index.Keys, MergedStrings(src.dict, src.facts));
  }

  lemma UnionSize(ks: set<Str>, ms: set<Str>)
    ensures |ks + ms| == |ks| + |ms - ks|
  {
    assert ks + ms == ks + (ms - ks);
  }

  /**
    Merging reads as the target's facts followed by the source's exactly when no fact of the target points
    at one of the dictionary slots that the source's new strings will take.
   */
  lemma MergeExactIff(d: Document, src: Document)
    requires Sound(d.dict) && |d.dict.strings| + 2 * |src.facts| <= U32
    ensures var r := Merge(d, src.dict, src.facts);
            ReadableFacts(r.dict, r.facts) == ReadableFacts(d.dict, d.facts) + ReadableFacts(src.dict, src.facts)
            <==> forall i :: 0 <= i < |d.facts| ==>
                   !(|d.dict.strings| <= TopId(d.facts[i]) < |d.dict.strings| + |NewStrings(d, src)|)
  {
    hide Merge, TopId, NewStrings;
    var r := Merge(d, src.dict, src.facts);
    MergeFillsNewStrings(d, src);
    MergeReads(d, src.dict, src.facts);
    assert r.facts == d.facts + r.facts[|d.facts|..];
    ReadableAppend(r.dict, d.facts, r.facts[|d.facts|..]);
    ReadableGrowsIff(d.dict, r.dict, d.facts);
    SuffixCancel(ReadableFacts(r.dict, d.facts), ReadableFacts(d.dict, d.facts), ReadableFacts(src.dict, src.facts));
  }

  lemma SuffixCancel<T>(a: seq<T>, b: seq<T>, s: seq<T>)
    ensures a + s == b + s <==> a == b
  {
    if a + s == b + s {
      assert |a + s| == |b + s|;
      assert a == (a + s)[..|a|] && b == (b + s)[..|b|];
    }
  }

  /** No fact of the document has an id outside its dictionary. */
  ghost predicate NoDangling(d: Document) {
    forall i :: 0 <= i < |d.facts| ==> TopId(d.facts[i]) < |d.dict.strings|
  }

  /** A target without dangling ids absorbs any source losslessly. */
  lemma MergeLossless(d: Document, src: Document)
    requires Sound(d.dict) && NoDangling(d) && |d.dict.strings| + 2 * |src.facts| <= U32
    ensures var r := Merge(d, src.dict, src.facts);
            ReadableFacts(r.dict, r.facts) == ReadableFacts(d.dict, d.facts) + ReadableFacts(src.dict, src.facts)
  {
    hide Merge, TopId, NewStrings;
    MergeExactIff(d, src);
  }

  /** A dangling target fact can be given a meaning by a merge. */
  lemma DanglingFactResurfaces()
    ensures var d := Document(EMPTY_DICT, [Fact(0, 7, Int(1))]);
            var src := Document(Dict([[65]], map[[65] := 0]), [Fact(0, 7, Int(2))]);
            var r := Merge(d, src.dict, src.facts);
            && ReadableFacts(d.dict, d.facts) == []
            && |ReadableFacts(r.dict, r.facts)| == |ReadableFacts(src.dict, src.facts)| + 1
  {
    hide DecInt;
    var d := Document(EMPTY_DICT, [Fact(0, 7, Int(1))]);
    var src := Document(Dict([[65]], map[[65] := 0]), [Fact(0, 7, Int(2))]);
    var r := Merge(d, src.dict, src.facts);
    OneReads(d.dict, d.facts[0]);
    OneReads(src.dict, src.facts[0]);
    assert src.facts[1..] == [];
    assert r == MergeFact(d, src.dict, src.facts[0]);
    assert r.facts == [Fact(0, 7, Int(1))] + [Fact(0, 7, Int(2))];
    ReadableAppend(r.dict, [Fact(0, 7, Int(1))], [Fact(0, 7, Int(2))]);
    OneReads(r.dict, Fact(0, 7, Int(1)));
    OneReads(r.dict, Fact(0, 7, Int(2)));
  }

  // ----- what a push reads as

  lemma PushStrReads(d: Document, s: Str, pred: Word16, o: Str)
    requires Sound(d.dict) && NoDangling(d) && |d.dict.strings| + 1 < U32
    ensures var r := PushStr(d, s, pred, o);
            ReadableFacts(r.dict, r.facts) == ReadableFacts(d.dict, d.facts) + [(s, pred, o)] && r.facts[..|d.facts|] == d.facts
  {
    hide Intern, InternId, Sound;
    var r, d1 := PushStr(d, s, pred, o), Intern(d.dict, s);
    InternResolves(d.dict, s);
    InternResolves(d1, o);
    var f := Fact(InternId(d.dict, s), pred, StrId(InternId(d1, o)));
    ReadableAppend(r.dict, d.facts, [f]);
    ReadableGrowsIff(d.dict, r.dict, d.facts);
    OneReads(r.dict, f);
  }

  /** Integers read in decimal. */
  lemma PushIntReads(d: Document, s: Str, pred: Word16, n: Int64)
    requires Sound(d.dict) && NoDangling(d) && |d.dict.strings| < U32
    ensures var r := PushInt(d, s, pred, n);
            ReadableFacts(r.dict, r.facts) == ReadableFacts(d.dict, d.facts) + [(s, pred, DecInt(n))]
            && r.facts[..|d.facts|] == d.facts
  {
    hide Intern, InternId, Sound, DecInt;
    var r := PushInt(d, s, pred, n);
    InternResolves(d.dict, s);
    var f := Fact(InternId(d.dict, s), pred, Int(n));
    ReadableAppend(r.dict, d.facts, [f]);
    ReadableGrowsIff(d.dict, r.dict, d.facts);
    OneReads(r.dict, f);
  }
}
