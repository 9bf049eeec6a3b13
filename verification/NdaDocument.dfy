/** The mutable dictionary and document: interning, pushing, merging and streaming, as the source runs them. */
module NdaDocument {
  import opened Bytes
  import opened NdaModel
  import opened NdaStream

  class NdaDictionary {
    var strings: seq<Str>
    var index: map<Str, nat>

    function Model(): Dict
      reads this
    {
      Dict(strings, index)
    }

    constructor ()
      ensures Model() == EMPTY_DICT
    {
      strings, index := [], map[];
    }

    method InternString(s: Str) returns (id: Word32)
      requires Sound(Model())
      modifies this
      ensures id == InternId(old(Model()), s) && Model() == Intern(old(Model()), s)
      ensures |old(strings)| < U32 ==> Sound(Model()) && Resolve(Model(), id) == Some(s) && old(strings) <= strings
    {
      if s in index {
        return index[s];
      }
      id := |strings| % U32;
      strings := strings + [s];
      index := index[s := id];
    }
  }

  class NdaDocument {
    const dict: NdaDictionary
    var facts: seq<Fact>

    function Model(): Document
      reads this, dict
    {
      Document(dict.Model(), facts)
    }

    constructor ()
      ensures Model() == Document(EMPTY_DICT, []) && fresh(dict)
    {
      dict := new NdaDictionary();
      facts := [];
    }

    method PushStrFact(subject: Str, pred: Word16, object_: Str)
      requires Sound(dict.Model()) && |dict.strings| + 1 < U32
      modifies this`facts, dict
      ensures Model() == PushStr(old(Model()), subject, pred, object_)
    {
      var s := dict.InternString(subject);
      var o := dict.InternString(object_);
      facts := facts + [Fact(s, pred, StrId(o))];
    }

    method PushIntFact(subject: Str, pred: Word16, n: Int64)
      requires Sound(dict.Model()) && |dict.strings| < U32
      modifies this`facts, dict
      ensures Model() == PushInt(old(Model()), subject, pred, n)
    {
      var s := dict.InternString(subject);
      facts := facts + [Fact(s, pred, Int(n))];
    }

    /** `merge`: absorb every resolvable fact of another document, re-interning its strings. */
    method MergeFrom(other: NdaDocument)
      requires other != this && other.dict != dict
      requires Sound(dict.Model()) && |dict.strings| + 2 * |other.facts| <= U32
      modifies this`facts, dict
      ensures Model() == Merge(old(Model()), other.dict.Model(), other.facts)
      ensures NoDangling(old(Model())) ==>
        ReadableFacts(dict.Model(), facts)
        == old(ReadableFacts(dict.Model(), facts)) + ReadableFacts(other.dict.Model(), other.facts)
    {
      ghost var start, src := Model(), other.dict.Model();
      for i := 0 to |other.facts|
        invariant other.Model() == old(other.Model())
        invariant Sound(dict.Model()) && |dict.strings| + 2 * (|other.facts| - i) <= U32
        invariant Merge(start, src, other.facts) == Merge(Model(), src, other.facts[i..])
      {
        assert other.facts[i..][1..] == other.facts[i + 1..];
        MergeOne(other, other.facts[i]);
      }
      if NoDangling(start) { MergeLossless(start, other.Model()); }
    }

    method MergeOne(other: NdaDocument, f: Fact)
      requires other != this && other.dict != dict
      requires Sound(dict.Model()) && |dict.strings| + 1 < U32
      modifies this`facts, dict
      ensures Model() == MergeFact(old(Model()), other.dict.Model(), f)
    {
      if f.subject >= |other.dict.strings| {
        return;
      }
      var s := dict.InternString(other.dict.strings[f.subject]);
      match f.obj {
        case Int(n) =>
          facts := facts + [Fact(s, f.pred, Int(n))];
        case StrId(id) =>
          if id >= |other.dict.strings| {
            return;
          }
          var o := dict.InternString(other.dict.strings[id]);
          facts := facts + [Fact(s, f.pred, StrId(o))];
      }
    }

    /** `readable_facts`. */
    method Readables() returns (out: seq<Readable>)
      ensures out == ReadableFacts(dict.Model(), facts)
    {
      hide Display;
      out := [];
      for i := 0 to |facts|
        invariant out == ReadableFacts(dict.Model(), facts[..i])
      {
        assert facts[..i + 1] == facts[..i] + [facts[i]];
        ReadableAppend(dict.Model(), facts[..i], [facts[i]]);
        OneReads(dict.Model(), facts[i]);
        match Display(dict.Model(), facts[i]) {
          case Some(r) => out := out + [r];
          case None =>
        }
      }
      assert facts[..|facts|] == facts;
    }

    /** `to_binary_stream`. */
    method ToBinaryStream() returns (buf: seq<Byte>)
      ensures buf == Encode(Model())
    {
      hide LeBytes, ObjectBytes, StringsBytes, FactsBytes;
      var strings := dict.strings;
      buf := LeBytes(|strings|, 4);
      ghost var head := buf;
      NothingWritten();
      for i := 0 to |strings|
        invariant buf == head + StringsBytes(strings[..i])
      {
        StringsSnoc(strings, i);
        buf := buf + LeBytes(|strings[i]|, 4);
        buf := buf + strings[i];
      }
      assert strings[..|strings|] == strings;
      buf := buf + LeBytes(|facts|, 4);
      ghost var body := buf;
      for i := 0 to |facts|
        invariant buf == body + FactsBytes(facts[..i])
      {
        FactsSnoc(facts, i);
        buf := buf + LeBytes(facts[i].subject, 4);
        buf := buf + LeBytes(facts[i].pred, 2);
        buf := buf + ObjectBytes(facts[i].obj);
      }
      assert facts[..|facts|] == facts;
    }
  }

  lemma NothingWritten()
    ensures StringsBytes([]) == [] && FactsBytes([]) == []
  {
  }

  lemma {:induction false} StringsAppend(a: seq<Str>, b: seq<Str>)
    ensures StringsBytes(a + b) == StringsBytes(a) + StringsBytes(b)
  {
    hide LenPrefixed;
    if a == [] {
      assert a + b == b;
    } else {
      assert (a + b)[1..] == a[1..] + b;
      StringsAppend(a[1..], b);
    }
  }

  lemma {:induction false} FactsAppend(a: seq<Fact>, b: seq<Fact>)
    ensures FactsBytes(a + b) == FactsBytes(a) + FactsBytes(b)
  {
    hide FactBytes;
    if a == [] {
      assert a + b == b;
    } else {
      assert (a + b)[1..] == a[1..] + b;
      FactsAppend(a[1..], b);
    }
  }

  lemma StringsSnoc(ss: seq<Str>, i: nat)
    requires i < |ss|
    ensures StringsBytes(ss[..i + 1]) == StringsBytes(ss[..i]) + LenPrefixed(ss[i])
  {
    hide LenPrefixed;
    assert ss[..i + 1] == ss[..i] + [ss[i]];
    StringsAppend(ss[..i], [ss[i]]);
    assert StringsBytes([ss[i]][1..]) == [];
  }

  lemma FactsSnoc(fs: seq<Fact>, i: nat)
    requires i < |fs|
    ensures FactsBytes(fs[..i + 1]) == FactsBytes(fs[..i]) + FactBytes(fs[i])
  {
    hide FactBytes;
    assert fs[..i + 1] == fs[..i] + [fs[i]];
    FactsAppend(fs[..i], [fs[i]]);
    assert FactsBytes([fs[i]][1..]) == [];
  }

  // ----- decoding

  /** A partial list of values in front of what a reader still has to return. */
  function Onto<T>(xs: seq<T>, r: Reading<seq<T>>): Reading<seq<T>> {
    if r.Err? then r else Ok((xs + r.value.0, r.value.1))
  }

  method DecodeStrings(b: seq<Byte>, start: nat, n: nat)
    returns (r: Reading<seq<Str>>, index: map<Str, nat>)
    ensures r == ReadStrings(b, start, n)
    ensures r.Ok? ==> index == BuildIndex(r.value.0)
  {
    hide ReadString;
    var strings: seq<Str>, pos := [], start;
    index := map[];
    ghost var all := ReadStrings(b, start, n);
    assert all.Ok? ==> [] + all.value.0 == all.value.0;
    for i := 0 to n
      invariant |strings| == i && index == BuildIndex(strings)
      invariant all == Onto(strings, ReadStrings(b, pos, n - i))
    {
      var s := ReadString(b, pos);
      if s.Err? {
        return Err(s.error), index;
      }
      ghost var rest := ReadStrings(b, s.value.1, n - i - 1);
      assert rest.Ok? ==> strings + ([s.value.0] + rest.value.0) == strings + [s.value.0] + rest.value.0;
      assert (strings + [s.value.0])[..i] == strings;
      index := index[s.value.0 := i % U32];
      strings, pos := strings + [s.value.0], s.value.1;
    }
    assert strings + [] == strings;
    r := Ok((strings, pos));
  }

  method DecodeFacts(b: seq<Byte>, start: nat, n: nat) returns (r: Reading<seq<Fact>>)
    ensures r == ReadFacts(b, start, n)
  {
    hide ReadFact;
    var facts: seq<Fact>, pos := [], start;
    ghost var all := ReadFacts(b, start, n);
    assert all.Ok? ==> [] + all.value.0 == all.value.0;
    for i := 0 to n
      invariant all == Onto(facts, ReadFacts(b, pos, n - i))
    {
      var f := ReadFact(b, pos);
      if f.Err? {
        return Err(f.error);
      }
      ghost var rest := ReadFacts(b, f.value.1, n - i - 1);
      assert rest.Ok? ==> facts + ([f.value.0] + rest.value.0) == facts + [f.value.0] + rest.value.0;
      facts, pos := facts + [f.value.0], f.value.1;
    }
    assert facts + [] == facts;
    r := Ok((facts, pos));
  }

  /** `from_binary_stream`. */
  method FromBinaryStream(b: seq<Byte>) returns (r: Reading<Document>)
    ensures r == Decode(b)
  {
    hide ReadU32, ReadStrings, ReadFacts, BuildIndex;
    var n := ReadU32(b, 0);
    if n.Err? { return Err(n.error); }
    var strings, index := DecodeStrings(b, n.value.1, n.value.0);
    if strings.Err? { return Err(strings.error); }
    var m := ReadU32(b, strings.value.1);
    if m.Err? { return Err(m.error); }
    var facts := DecodeFacts(b, m.value.1, m.value.0);
    if facts.Err? { return Err(facts.error); }
    r := Ok((Document(Dict(strings.value.0, index), facts.value.0), facts.value.1));
  }
}
