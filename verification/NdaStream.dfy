/** The self-describing binary stream of a fact document, in both directions. */
module NdaStream {
  import opened Bytes
  import opened Slices
  import opened NdaModel

  datatype StreamError =
    | EndInU32
    | EndInString
    | InvalidUtf8
    | EndInPredicate
    | EndInTag
    | EndInInt
    | UnknownTag

  /** A value read and the position after it. */
  type Reading<T> = Result<(T, nat), StreamError>

  // ----- encoding

  function StringsBytes(ss: seq<Str>): seq<Byte> {
    if ss == [] then [] else LenPrefixed(ss[0]) + StringsBytes(ss[1..])
  }

  function ObjectBytes(o: Object): seq<Byte> {
    match o
    case StrId(id) => [0] + LeBytes(id, 4)
    case Int(n) => [1] + LeBytes(I64Bits(n), 8)
  }

  function FactBytes(f: Fact): seq<Byte> {
    LeBytes(f.subject, 4) + LeBytes(f.pred, 2) + ObjectBytes(f.obj)
  }

  function FactsBytes(fs: seq<Fact>): seq<Byte> {
    if fs == [] then [] else FactBytes(fs[0]) + FactsBytes(fs[1..])
  }

  /** `to_binary_stream`. */
  function Encode(d: Document): seq<Byte> {
    LeBytes(|d.dict.strings|, 4) + StringsBytes(d.dict.strings) + LeBytes(|d.facts|, 4) + FactsBytes(d.facts)
  }

  // ----- decoding

  function ReadU32(b: seq<Byte>, pos: nat): Reading<Word32> {
    if pos + 4 > |b| then Err(EndInU32)
    else
      FromLeBound(b[pos..pos + 4]);
      Widths();
      Ok((FromLe(b[pos..pos + 4]), pos + 4))
  }

  function ReadString(b: seq<Byte>, pos: nat): Reading<Str> {
    var (len, p) :- ReadU32(b, pos);
    if p + len > |b| then Err(EndInString)
    else if !ValidUtf8(b[p..p + len]) then Err(InvalidUtf8)
    else Ok((b[p..p + len], p + len))
  }

  function ReadStrings(b: seq<Byte>, pos: nat, n: nat): Reading<seq<Str>>
    decreases n
  {
    if n == 0 then Ok(([], pos))
    else
      var (s, p) :- ReadString(b, pos);
      var (rest, q) :- ReadStrings(b, p, n - 1);
      Ok(([s] + rest, q))
  }

  function ReadObject(b: seq<Byte>, pos: nat): Reading<Object> {
    if pos + 1 > |b| then Err(EndInTag)
    else if b[pos] == 0 then
      var (id, p) :- ReadU32(b, pos + 1);
      Ok((StrId(id), p))
    else if b[pos] == 1 then
      if pos + 9 > |b| then Err(EndInInt)
      else
        FromLeBound(b[pos + 1..pos + 9]);
        Widths();
        Ok((Int(BitsI64(FromLe(b[pos + 1..pos + 9]))), pos + 9))
    else Err(UnknownTag)
  }

  function ReadFact(b: seq<Byte>, pos: nat): Reading<Fact> {
    var (subject, p) :- ReadU32(b, pos);
    if p + 2 > |b| then Err(EndInPredicate)
    else
      FromLeBound(b[p..p + 2]);
      Widths();
      var pred := FromLe(b[p..p + 2]);
      var (obj, q) :- ReadObject(b, p + 2);
      Ok((Fact(subject, pred, obj), q))
  }

  function ReadFacts(b: seq<Byte>, pos: nat, n: nat): Reading<seq<Fact>>
    decreases n
  {
    if n == 0 then Ok(([], pos))
    else
      var (f, p) :- ReadFact(b, pos);
      var (rest, q) :- ReadFacts(b, p, n - 1);
      Ok(([f] + rest, q))
  }

  /** The index the decoder rebuilds: a repeated string keeps its last position. */
  function BuildIndex(ss: seq<Str>): map<Str, nat> {
    if ss == [] then map[]
    else BuildIndex(ss[..|ss| - 1])[ss[|ss| - 1] := (|ss| - 1) % U32]
  }

  /** `from_binary_stream`, with the position where decoding stopped; bytes after it are ignored. */
  function Decode(b: seq<Byte>): Reading<Document> {
    var (n, p) :- ReadU32(b, 0);
    var (strings, q) :- ReadStrings(b, p, n);
    var (m, r) :- ReadU32(b, q);
    var (facts, end) :- ReadFacts(b, r, m);
    Ok((Document(Dict(strings, BuildIndex(strings)), facts), end))
  }

  // ----- decoding what was encoded

  lemma ReadU32At(b: seq<Byte>, pos: nat, n: nat)
    requires n < U32 && At(b, pos, LeBytes(n, 4))
    ensures ReadU32(b, pos) == Ok((n, pos + 4))
  {
    hide LeBytes, FromLe, Pow256;
    Widths();
    LeRoundTrip(n, 4);
  }

  ghost predicate GoodString(s: Str) {
    |s| < U32 && ValidUtf8(s)
  }

  lemma ReadStringAt(b: seq<Byte>, pos: nat, s: Str)
    requires GoodString(s) && At(b, pos, LenPrefixed(s))
    ensures ReadString(b, pos) == Ok((s, pos + |LenPrefixed(s)|))
  {
    hide LeBytes, ReadU32, ValidUtf8, At;
    var len := LeBytes(|s|, 4);
    AtSplit(b, pos, len, s);
    ReadU32At(b, pos, |s|);
    AtSlice(b, pos + 4, s);
  }

  lemma {:induction false} ReadStringsAt(b: seq<Byte>, pos: nat, ss: seq<Str>)
    requires At(b, pos, StringsBytes(ss)) && forall i :: 0 <= i < |ss| ==> GoodString(ss[i])
    ensures ReadStrings(b, pos, |ss|) == Ok((ss, pos + |StringsBytes(ss)|))
    decreases |ss|
  {
    hide ReadString, LenPrefixed, GoodString, At;
    if ss != [] {
      AtSplit(b, pos, LenPrefixed(ss[0]), StringsBytes(ss[1..]));
      ReadStringAt(b, pos, ss[0]);
      ReadStringsAt(b, pos + |LenPrefixed(ss[0])|, ss[1..]);
      assert ss == [ss[0]] + ss[1..];
    }
  }

  lemma ReadObjectAt(b: seq<Byte>, pos: nat, o: Object)
    requires At(b, pos, ObjectBytes(o))
    ensures ReadObject(b, pos) == Ok((o, pos + |ObjectBytes(o)|))
  {
    hide LeBytes, FromLe, ReadU32, Pow256, At;
    var tag := [ObjectBytes(o)[0]];
    AtSplit(b, pos, tag, ObjectBytes(o)[1..]);
    assert ObjectBytes(o) == tag + ObjectBytes(o)[1..];
    AtSlice(b, pos, tag);
    assert b[pos] == b[pos..pos + 1][0];
    match o {
      case StrId(id) =>
        assert ObjectBytes(o)[1..] == LeBytes(id, 4);
        ReadU32At(b, pos + 1, id);
      case Int(n) =>
        assert ObjectBytes(o)[1..] == LeBytes(I64Bits(n), 8);
        AtSlice(b, pos + 1, LeBytes(I64Bits(n), 8));
        Widths();
        LeRoundTrip(I64Bits(n), 8);
    }
  }

  lemma ReadFactAt(b: seq<Byte>, pos: nat, f: Fact)
    requires At(b, pos, FactBytes(f))
    ensures ReadFact(b, pos) == Ok((f, pos + |FactBytes(f)|))
  {
    hide LeBytes, FromLe, ReadU32, ReadObject, ObjectBytes, Pow256, At;
    var s, p, o := LeBytes(f.subject, 4), LeBytes(f.pred, 2), ObjectBytes(f.obj);
    AtSplit(b, pos, s + p, o);
    AtSplit(b, pos, s, p);
    ReadU32At(b, pos, f.subject);
    AtSlice(b, pos + 4, p);
    Widths();
    LeRoundTrip(f.pred, 2);
    ReadObjectAt(b, pos + 6, f.obj);
  }

  lemma {:induction false} ReadFactsAt(b: seq<Byte>, pos: nat, fs: seq<Fact>)
    requires At(b, pos, FactsBytes(fs))
    ensures ReadFacts(b, pos, |fs|) == Ok((fs, pos + |FactsBytes(fs)|))
    decreases |fs|
  {
    hide ReadFact, FactBytes, At;
    if fs != [] {
      AtSplit(b, pos, FactBytes(fs[0]), FactsBytes(fs[1..]));
      ReadFactAt(b, pos, fs[0]);
      ReadFactsAt(b, pos + |FactBytes(fs[0])|, fs[1..]);
      assert fs == [fs[0]] + fs[1..];
    }
  }

  /** The counts and lengths fit their prefixes and the strings are what Rust allows. */
  ghost predicate Encodable(d: Document) {
    && |d.dict.strings| < U32 && |d.facts| < U32
    && forall i :: 0 <= i < |d.dict.strings| ==> GoodString(d.dict.strings[i])
  }

  /** Decoding an encoding gives the document back, whatever bytes follow it. */
  lemma DecodeEncoded(d: Document, tail: seq<Byte>)
    requires Encodable(d)
    ensures Decode(Encode(d) + tail)
         == Ok((Document(Dict(d.dict.strings, BuildIndex(d.dict.strings)), d.facts), |Encode(d)|))
  {
    hide LeBytes, StringsBytes, FactsBytes, ReadU32, ReadStrings, ReadFacts, BuildIndex, GoodString, At;
    var b := Encode(d) + tail;
    var n, ss, m, fs := LeBytes(|d.dict.strings|, 4), StringsBytes(d.dict.strings), LeBytes(|d.facts|, 4), FactsBytes(d.facts);
    AtWhole(Encode(d));
    AtExtend(Encode(d), tail, 0, Encode(d));
    AtSplit(b, 0, n + ss + m, fs);
    AtSplit(b, 0, n + ss, m);
    AtSplit(b, 0, n, ss);
    ReadU32At(b, 0, |d.dict.strings|);
    ReadStringsAt(b, 4, d.dict.strings);
    ReadU32At(b, 4 + |ss|, |d.facts|);
    ReadFactsAt(b, 4 + |ss| + 4, d.facts);
  }

  lemma {:induction false} BuildIndexSound(ss: seq<Str>)
    requires |ss| <= U32
    ensures Sound(Dict(ss, BuildIndex(ss)))
  {
    if ss != [] {
      var init, last := ss[..|ss| - 1], ss[|ss| - 1];
      BuildIndexSound(init);
      var m := BuildIndex(init);
      forall s | s in BuildIndex(ss)
        ensures BuildIndex(ss)[s] < |ss| && ss[BuildIndex(ss)[s]] == s
      {
        if s != last { assert m[s] < |init| && init[m[s]] == s; }
      }
    }
  }

  /** The last position of a string in the list is the one the index keeps. */
  lemma {:induction false} BuildIndexLast(ss: seq<Str>, i: nat)
    requires |ss| <= U32 && i < |ss| && forall j :: i < j < |ss| ==> ss[j] != ss[i]
    ensures ss[i] in BuildIndex(ss) && BuildIndex(ss)[ss[i]] == i
  {
    if i < |ss| - 1 {
      BuildIndexLast(ss[..|ss| - 1], i);
    }
  }

  lemma RebuildsIndex(d: Dict)
    requires Inverts(d) && |d.strings| <= U32
    ensures BuildIndex(d.strings) == d.index
  {
    hide BuildIndex;
    var built := BuildIndex(d.strings);
    BuildIndexSound(d.strings);
    forall i | 0 <= i < |d.strings|
      ensures d.strings[i] in built && built[d.strings[i]] == i
    {
      forall j | i < j < |d.strings| ensures d.strings[j] != d.strings[i] {
        assert d.index[d.strings[j]] == j && d.index[d.strings[i]] == i;
      }
      BuildIndexLast(d.strings, i);
    }
    forall s
      ensures s in built <==> s in d.index
      ensures s in built && s in d.index ==> built[s] == d.index[s]
    {
      if s in built { assert d.strings[built[s]] == s; }
      if s in d.index { assert d.strings[d.index[s]] == s; }
    }
  }

  /** Round trip: a document whose index inverts its strings survives encode then decode unchanged. */
  lemma StreamRoundTrip(d: Document)
    requires Encodable(d) && Inverts(d.dict)
    ensures Decode(Encode(d)) == Ok((d, |Encode(d)|))
  {
    hide Encode, Decode, BuildIndex;
    assert Encode(d) + [] == Encode(d);
    DecodeEncoded(d, []);
    RebuildsIndex(d.dict);
  }

  // ----- encoding what was decoded

  lemma ReadU32Inverse(b: seq<Byte>, pos: nat)
    ensures ReadU32(b, pos).Ok? ==>
      var (n, p) := ReadU32(b, pos).value;
      p == pos + 4 && At(b, pos, LeBytes(n, 4))
  {
    hide LeBytes, FromLe;
    if pos + 4 <= |b| {
      LeInverse(b[pos..pos + 4]);
    }
  }

  lemma ReadStringInverse(b: seq<Byte>, pos: nat)
    ensures ReadString(b, pos).Ok? ==>
      var (s, p) := ReadString(b, pos).value;
      p == pos + |LenPrefixed(s)| && At(b, pos, LenPrefixed(s)) && GoodString(s)
  {
    hide LeBytes, ReadU32, ValidUtf8;
    ReadU32Inverse(b, pos);
    if ReadString(b, pos).Ok? {
      var (len, q) := ReadU32(b, pos).value;
      var s := b[q..q + len];
      assert |s| == len && ReadString(b, pos) == Ok((s, q + len));
      AtSplit(b, pos, LeBytes(|s|, 4), s);
    }
  }

  lemma {:induction false} ReadStringsInverse(b: seq<Byte>, pos: nat, n: nat)
    ensures ReadStrings(b, pos, n).Ok? ==>
      var (ss, p) := ReadStrings(b, pos, n).value;
      && |ss| == n && p == pos + |StringsBytes(ss)| && (pos <= |b| ==> At(b, pos, StringsBytes(ss)))
      && (forall i :: 0 <= i < |ss| ==> GoodString(ss[i]))
    decreases n
  {
    hide ReadString, LenPrefixed, GoodString, At;
    if n == 0 {
      AtNothing(b, pos);
    } else if ReadStrings(b, pos, n).Ok? {
      var (ss, q) := ReadStrings(b, pos, n).value;
      var (s, p) := ReadString(b, pos).value;
      ReadStringInverse(b, pos);
      AtSlice(b, pos, LenPrefixed(s));
      ReadStringsInverse(b, p, n - 1);
      assert ss[1..] == ReadStrings(b, p, n - 1).value.0;
      AtSplit(b, pos, LenPrefixed(s), StringsBytes(ss[1..]));
    }
  }

  lemma AtNothing(b: seq<Byte>, pos: nat)
    ensures pos <= |b| ==> At(b, pos, [])
  {
  }

  lemma ReadObjectInverse(b: seq<Byte>, pos: nat)
    ensures ReadObject(b, pos).Ok? ==>
      var (o, p) := ReadObject(b, pos).value;
      p == pos + |ObjectBytes(o)| && At(b, pos, ObjectBytes(o))
  {
    hide LeBytes, FromLe, ReadU32, At;
    if ReadObject(b, pos).Ok? {
      var (o, p) := ReadObject(b, pos).value;
      var tag := [b[pos]];
      assert At(b, pos, tag) by { TagAt(b, pos); }
      match o {
        case StrId(id) =>
          ReadU32Inverse(b, pos + 1);
          AtSplit(b, pos, tag, LeBytes(id, 4));
        case Int(n) =>
          var raw := b[pos + 1..pos + 9];
          LeInverse(raw);
          assert At(b, pos + 1, raw) by { RawAt(b, pos + 1, 8); }
          AtSplit(b, pos, tag, raw);
      }
    }
  }

  lemma TagAt(b: seq<Byte>, pos: nat)
    requires pos < |b|
    ensures At(b, pos, [b[pos]])
  {
  }

  lemma RawAt(b: seq<Byte>, pos: nat, n: nat)
    requires pos + n <= |b|
    ensures At(b, pos, b[pos..pos + n])
  {
  }

  lemma ReadFactInverse(b: seq<Byte>, pos: nat)
    ensures ReadFact(b, pos).Ok? ==>
      var (f, p) := ReadFact(b, pos).value;
      p == pos + |FactBytes(f)| && At(b, pos, FactBytes(f))
  {
    hide LeBytes, FromLe, ReadU32, ReadObject, ObjectBytes, At;
    if ReadFact(b, pos).Ok? {
      var (f, p) := ReadFact(b, pos).value;
      ReadU32Inverse(b, pos);
      var raw := b[pos + 4..pos + 6];
      LeInverse(raw);
      assert At(b, pos + 4, raw) by { RawAt(b, pos + 4, 2); }
      ReadObjectInverse(b, pos + 6);
      AtSplit(b, pos, LeBytes(f.subject, 4), raw);
      AtSplit(b, pos, LeBytes(f.subject, 4) + raw, ObjectBytes(f.obj));
    }
  }

  lemma {:induction false} ReadFactsInverse(b: seq<Byte>, pos: nat, n: nat)
    ensures ReadFacts(b, pos, n).Ok? ==>
      var (fs, p) := ReadFacts(b, pos, n).value;
      |fs| == n && p == pos + |FactsBytes(fs)| && (pos <= |b| ==> At(b, pos, FactsBytes(fs)))
    decreases n
  {
    hide ReadFact, FactBytes, At;
    if n == 0 {
      AtNothing(b, pos);
    } else if ReadFacts(b, pos, n).Ok? {
      var (fs, q) := ReadFacts(b, pos, n).value;
      var (f, p) := ReadFact(b, pos).value;
      ReadFactInverse(b, pos);
      AtSlice(b, pos, FactBytes(f));
      ReadFactsInverse(b, p, n - 1);
      assert fs[1..] == ReadFacts(b, p, n - 1).value.0;
      AtSplit(b, pos, FactBytes(f), FactsBytes(fs[1..]));
    }
  }

  /** Whatever is accepted re-encodes to exactly the bytes the decoder consumed. */
  lemma EncodeDecoded(b: seq<Byte>)
    requires Decode(b).Ok?
    ensures var (d, end) := Decode(b).value;
            end <= |b| && Encode(d) == b[..end] && Encodable(d) && Sound(d.dict)
  {
    hide LeBytes, StringsBytes, FactsBytes, ReadU32, ReadStrings, ReadFacts, BuildIndex, GoodString, At;
    var (n, p) := ReadU32(b, 0).value;
    var (strings, q) := ReadStrings(b, p, n).value;
    var (m, r) := ReadU32(b, q).value;
    var (facts, end) := ReadFacts(b, r, m).value;
    ReadU32Inverse(b, 0);
    AtSlice(b, 0, LeBytes(n, 4));
    ReadStringsInverse(b, p, n);
    ReadU32Inverse(b, q);
    AtSlice(b, q, LeBytes(m, 4));
    ReadFactsInverse(b, r, m);
    var w, x, y, z := LeBytes(n, 4), StringsBytes(strings), LeBytes(m, 4), FactsBytes(facts);
    AtSplit(b, 0, w, x);
    AtSplit(b, 0, w + x, y);
    AtSplit(b, 0, w + x + y, z);
    AtSlice(b, 0, w + x + y + z);
    BuildIndexSound(strings);
  }

  /** No strict prefix of an encoding is accepted. */
  lemma StrictPrefixRejected(d: Document, k: nat)
    requires Encodable(d) && k < |Encode(d)|
    ensures Decode(Encode(d)[..k]).Err?
  {
    hide Encode, Decode, BuildIndex, Encodable;
    var b := Encode(d);
    if Decode(b[..k]).Ok? {
      EncodeDecoded(b[..k]);
      var (e, end) := Decode(b[..k]).value;
      assert b == Encode(e) + b[end..];
      DecodeEncoded(e, b[end..]);
      assert b == b + [];
      DecodeEncoded(d, []);
    }
  }

  // ----- the stream written out, and what a malformed one reports

  lemma StrFactExample()
    ensures FactBytes(Fact(0x0403_0201, 0x0605, StrId(0x0A09_0807))) == [1, 2, 3, 4, 5, 6, 0, 7, 8, 9, 10]
  {
    hide LeBytes;
    LeFour(1, 2, 3, 4);
    LeFour(7, 8, 9, 10);
    LeTwo(5, 6);
  }

  lemma IntFactExample()
    ensures FactBytes(Fact(1, 2, Int(-2))) == [1, 0, 0, 0, 2, 0, 1, 254, 255, 255, 255, 255, 255, 255, 255]
  {
    hide LeBytes;
    LeFour(1, 0, 0, 0);
    LeTwo(2, 0);
    LeEight(254, 255, 255, 255, 0xFFFF_FFFF);
    LeFour(255, 255, 255, 255);
    assert I64Bits(-2) == 0xFFFF_FFFE + U32 * 0xFFFF_FFFF;
  }

  /** One string, one fact of each kind: counts, ids and lengths in four bytes, predicates in two, integers in eight. */
  lemma StreamExample(index: map<Str, nat>)
    ensures Encode(Document(Dict([[97, 98]], index), [Fact(0x0403_0201, 0x0605, StrId(0x0A09_0807)), Fact(1, 2, Int(-2))]))
         == [1, 0, 0, 0] + [2, 0, 0, 0, 97, 98] + [2, 0, 0, 0] + [1, 2, 3, 4, 5, 6, 0, 7, 8, 9, 10]
            + [1, 0, 0, 0, 2, 0, 1, 254, 255, 255, 255, 255, 255, 255, 255]
  {
    hide LeBytes, FactBytes, StringsBytes, FactsBytes;
    LeFour(1, 0, 0, 0);
    LeFour(2, 0, 0, 0);
    StrFactExample();
    IntFactExample();
    OneString([97, 98]);
    TwoFacts(Fact(0x0403_0201, 0x0605, StrId(0x0A09_0807)), Fact(1, 2, Int(-2)));
  }

  lemma OneString(s: Str)
    ensures StringsBytes([s]) == LenPrefixed(s)
  {
    hide LenPrefixed;
    assert StringsBytes([s][1..]) == [];
  }

  lemma TwoFacts(f: Fact, g: Fact)
    ensures FactsBytes([f, g]) == FactBytes(f) + FactBytes(g)
  {
    hide FactBytes;
    assert [f, g][1..] == [g] && FactsBytes([g][1..]) == [];
  }

  /** Which error a string reports. */
  lemma StringErrors(b: seq<Byte>, pos: nat)
    ensures ReadU32(b, pos).Err? <==> pos + 4 > |b|
    ensures ReadString(b, pos) == Err(EndInU32) <==> pos + 4 > |b|
    ensures ReadU32(b, pos).Ok? ==>
      var len := ReadU32(b, pos).value.0;
      && (ReadString(b, pos) == Err(EndInString) <==> pos + 4 + len > |b|)
      && (ReadString(b, pos) == Err(InvalidUtf8) <==> pos + 4 + len <= |b| && !ValidUtf8(b[pos + 4..pos + 4 + len]))
  {
    hide FromLe, ValidUtf8;
  }

  /** Which error a fact reports: where it ends too early, or an unknown tag. */
  lemma FactErrors(b: seq<Byte>, pos: nat)
    ensures ReadFact(b, pos) == Err(EndInPredicate) <==> pos + 4 <= |b| < pos + 6
    ensures ReadFact(b, pos) == Err(EndInTag) <==> |b| == pos + 6
    ensures ReadFact(b, pos) == Err(UnknownTag) <==> |b| > pos + 6 && b[pos + 6] > 1
    ensures ReadFact(b, pos) == Err(EndInInt) <==> pos + 6 < |b| < pos + 15 && b[pos + 6] == 1
    ensures ReadFact(b, pos) == Err(EndInU32) <==> pos + 4 > |b| || (pos + 6 < |b| < pos + 11 && b[pos + 6] == 0)
  {
    hide FromLe, BitsI64;
  }
}
