/** The NDA1 bytes spelled out position by position: what a buffer must hold to be read as a document. */
module PortableLayout {
  import opened Bytes
  import opened Slices
  import opened Merkle
  import opened PortableCodec

  /** Little-endian numbers, byte by byte. */
  function U16At(b: seq<Byte>, i: nat): nat
    requires i + 2 <= |b|
  {
    var n0: nat, n1: nat := b[i], b[i + 1];
    n0 + 256 * n1
  }

  function U32At(b: seq<Byte>, i: nat): nat
    requires i + 4 <= |b|
  {
    var n0: nat, n1: nat, n2: nat, n3: nat := b[i], b[i + 1], b[i + 2], b[i + 3];
    n0 + 256 * n1 + 0x1_0000 * n2 + 0x100_0000 * n3
  }

  lemma FromLeTwo(x: seq<Byte>)
    requires |x| == 2
    ensures FromLe(x) == U16At(x, 0)
  {
    assert FromLe(x[1..][1..]) == 0;
  }

  lemma FromLeFour(x: seq<Byte>)
    requires |x| == 4
    ensures FromLe(x) == U32At(x, 0)
  {
    assert x[2..] == [x[2], x[3]] && x[1..][1..] == x[2..];
    FromLeTwo(x[2..]);
    assert FromLe(x) == x[0] + 256 * FromLe(x[1..]) && FromLe(x[1..]) == x[1] + 256 * FromLe(x[2..]);
  }

  lemma Word16Is(b: seq<Byte>, i: nat)
    requires i + 2 <= |b|
    ensures ReadWord16(b, i) == U16At(b, i)
  {
    hide FromLe;
    FromLeTwo(b[i..i + 2]);
  }

  lemma Word32Is(b: seq<Byte>, i: nat)
    requires i + 4 <= |b|
    ensures ReadWord32(b, i) == U32At(b, i) && FromLe(b[i..i + 4]) == U32At(b, i)
  {
    hide FromLe;
    FromLeFour(b[i..i + 4]);
  }

  /** The pool holds `s` at `i`: its length in two bytes, then its bytes. */
  predicate HasString(pool: seq<Byte>, i: nat, s: Str) {
    i + 2 + |s| <= |pool| && U16At(pool, i) == |s| && pool[i + 2..i + 2 + |s|] == s && ValidUtf8(s)
  }

  predicate HasTriple(b: seq<Byte>, pool: seq<Byte>, i: nat, t: Triple) {
    && i + 12 <= |b|
    && HasString(pool, U32At(b, i), t.0)
    && HasString(pool, U32At(b, i + 4), t.1)
    && HasString(pool, U32At(b, i + 8), t.2)
  }

  predicate HasCommand(b: seq<Byte>, pool: seq<Byte>, i: nat, c: Command) {
    && i + 18 <= |b|
    && b[i] == c.kind && U32At(b, i + 1) == c.color
    && U16At(b, i + 5) == c.x && U16At(b, i + 7) == c.y && U16At(b, i + 9) == c.w && U16At(b, i + 11) == c.h
    && HasString(pool, U32At(b, i + 13), c.content)
  }

  /** "NDA1", then four zero flag bytes. */
  predicate HasMagic(b: seq<Byte>) {
    |b| >= 48 && b[..4] == [0x4E, 0x44, 0x41, 0x31]
  }

  predicate HasHeader(b: seq<Byte>) {
    HasMagic(b) && b[4..8] == [0, 0, 0, 0] && U16At(b, 46) <= |b|
  }

  /** The buffer spells the document. */
  predicate Spells(h: Hash, b: seq<Byte>, d: Doc) {
    && HasHeader(b)
    && b[8..40] == TriplesRoot(h, d.triples)
    && U32At(b, 40) == |d.triples|
    && U16At(b, 44) == |d.commands|
    && (forall i :: 0 <= i < |d.triples| ==> HasTriple(b, b[U16At(b, 46)..], 48 + 12 * i, d.triples[i]))
    && (forall j :: 0 <= j < |d.commands| ==>
          HasCommand(b, b[U16At(b, 46)..], 48 + 12 * |d.triples| + 18 * j, d.commands[j]))
  }

  lemma ReadStringIff(pool: seq<Byte>, i: nat, s: Str)
    ensures ReadString(pool, i) == Ok(s) <==> HasString(pool, i, s)
  {
    hide FromLe, ValidUtf8;
    if i + 2 <= |pool| { FromLeTwo(pool[i..i + 2]); }
  }

  lemma ReadTripleIff(b: seq<Byte>, pool: seq<Byte>, i: nat, t: Triple)
    ensures ReadTriple(b, pool, i) == Ok(t) <==> HasTriple(b, pool, i, t)
  {
    hide FromLe, ReadString, HasString, U32At;
    if i + 12 <= |b| {
      Word32Is(b, i);
      Word32Is(b, i + 4);
      Word32Is(b, i + 8);
      ReadStringIff(pool, U32At(b, i), t.0);
      ReadStringIff(pool, U32At(b, i + 4), t.1);
      ReadStringIff(pool, U32At(b, i + 8), t.2);
    }
  }

  lemma ReadCommandIff(b: seq<Byte>, pool: seq<Byte>, i: nat, c: Command)
    ensures ReadCommand(b, pool, i) == Ok(c) <==> HasCommand(b, pool, i, c)
  {
    hide ReadWord16, ReadWord32, ReadString, HasString, U32At, U16At;
    if i + 18 <= |b| {
      Word32Is(b, i + 1);
      Word16Is(b, i + 5);
      Word16Is(b, i + 7);
      Word16Is(b, i + 9);
      Word16Is(b, i + 11);
      Word32Is(b, i + 13);
      ReadStringIff(pool, U32At(b, i + 13), c.content);
    }
  }

  ghost predicate HasTriples(b: seq<Byte>, pool: seq<Byte>, off: nat, ts: seq<Triple>) {
    forall i :: 0 <= i < |ts| ==> HasTriple(b, pool, off + 12 * i, ts[i])
  }

  ghost predicate HasCommands(b: seq<Byte>, pool: seq<Byte>, off: nat, cs: seq<Command>) {
    forall j :: 0 <= j < |cs| ==> HasCommand(b, pool, off + 18 * j, cs[j])
  }

  lemma HasTriplesCons(b: seq<Byte>, pool: seq<Byte>, off: nat, ts: seq<Triple>)
    requires ts != []
    ensures HasTriples(b, pool, off, ts) <==> HasTriple(b, pool, off, ts[0]) && HasTriples(b, pool, off + 12, ts[1..])
  {
    hide HasTriple;
    forall i | 1 <= i < |ts|
      ensures HasTriple(b, pool, off + 12 * i, ts[i]) <==> HasTriple(b, pool, off + 12 + 12 * (i - 1), ts[1..][i - 1])
    {
      assert off + 12 * i == off + 12 + 12 * (i - 1);
    }
    if HasTriple(b, pool, off, ts[0]) && HasTriples(b, pool, off + 12, ts[1..]) {
      forall i | 0 <= i < |ts| ensures HasTriple(b, pool, off + 12 * i, ts[i]) {
        if i > 0 { assert HasTriple(b, pool, off + 12 + 12 * (i - 1), ts[1..][i - 1]); }
      }
    }
    if HasTriples(b, pool, off, ts) {
      assert HasTriple(b, pool, off + 12 * 0, ts[0]);
      forall i | 0 <= i < |ts[1..]| ensures HasTriple(b, pool, off + 12 + 12 * i, ts[1..][i]) {
        assert HasTriple(b, pool, off + 12 * (i + 1), ts[i + 1]);
      }
    }
  }

  lemma HasCommandsCons(b: seq<Byte>, pool: seq<Byte>, off: nat, cs: seq<Command>)
    requires cs != []
    ensures HasCommands(b, pool, off, cs) <==> HasCommand(b, pool, off, cs[0]) && HasCommands(b, pool, off + 18, cs[1..])
  {
    hide HasCommand;
    if HasCommand(b, pool, off, cs[0]) && HasCommands(b, pool, off + 18, cs[1..]) {
      forall i | 0 <= i < |cs| ensures HasCommand(b, pool, off + 18 * i, cs[i]) {
        if i > 0 { assert HasCommand(b, pool, off + 18 + 18 * (i - 1), cs[1..][i - 1]); }
      }
    }
    if HasCommands(b, pool, off, cs) {
      assert HasCommand(b, pool, off + 18 * 0, cs[0]);
      forall i | 0 <= i < |cs[1..]| ensures HasCommand(b, pool, off + 18 + 18 * i, cs[1..][i]) {
        assert HasCommand(b, pool, off + 18 * (i + 1), cs[i + 1]);
      }
    }
  }

  lemma {:induction false} ReadTriplesIff(b: seq<Byte>, pool: seq<Byte>, off: nat, n: nat, ts: seq<Triple>)
    ensures ReadTriples(b, pool, off, n) == Ok(ts) <==> |ts| == n && HasTriples(b, pool, off, ts)
    decreases n
  {
    hide ReadTriple, HasTriple, HasTriples;
    if n == 0 {
      assert HasTriples(b, pool, off, []) by { NoTriples(b, pool, off); }
    } else if ts == [] {
    } else {
      HasTriplesCons(b, pool, off, ts);
      ReadTripleIff(b, pool, off, ts[0]);
      ReadTriplesIff(b, pool, off + 12, n - 1, ts[1..]);
      assert ts == [ts[0]] + ts[1..];
    }
  }

  lemma NoTriples(b: seq<Byte>, pool: seq<Byte>, off: nat)
    ensures HasTriples(b, pool, off, []) && HasCommands(b, pool, off, [])
  {
  }

  lemma {:induction false} ReadCommandsIff(b: seq<Byte>, pool: seq<Byte>, off: nat, n: nat, cs: seq<Command>)
    ensures ReadCommands(b, pool, off, n) == Ok(cs) <==> |cs| == n && HasCommands(b, pool, off, cs)
    decreases n
  {
    hide ReadCommand, HasCommand, HasCommands;
    if n == 0 {
      assert HasCommands(b, pool, off, []) by { NoTriples(b, pool, off); }
    } else if cs == [] {
    } else {
      HasCommandsCons(b, pool, off, cs);
      ReadCommandIff(b, pool, off, cs[0]);
      ReadCommandsIff(b, pool, off + 18, n - 1, cs[1..]);
      assert cs == [cs[0]] + cs[1..];
    }
  }

  // ----- the decoder reads exactly the buffers that spell a document

  lemma HeaderIs(b: seq<Byte>)
    requires |b| >= 48
    ensures ReadWord32(b, 0) == 0x3141_444E <==> b[..4] == [0x4E, 0x44, 0x41, 0x31]
    ensures ReadWord32(b, 4) == 0 <==> b[4..8] == [0, 0, 0, 0]
    ensures ReadWord32(b, 40) == U32At(b, 40) && ReadWord16(b, 44) == U16At(b, 44) && ReadWord16(b, 46) == U16At(b, 46)
  {
    hide ReadWord16, ReadWord32;
    Word32Is(b, 0);
    Word32Is(b, 4);
    Word32Is(b, 40);
    Word16Is(b, 44);
    Word16Is(b, 46);
    assert b[..4] == [b[0], b[1], b[2], b[3]] && b[4..8] == [b[4], b[5], b[6], b[7]];
  }

  /** `from_portable_bytes` accepts a buffer as a document if and only if the buffer spells it. */
  lemma DecodeIff(h: Hash, b: seq<Byte>, d: Doc)
    ensures Decode(h, b) == Ok(d) <==> Spells(h, b, d)
  {
    hide ReadWord16, ReadWord32, ReadTriples, ReadCommands, HasTriple, HasCommand, TriplesRoot, U16At, U32At;
    if |b| >= 48 {
      HeaderIs(b);
      var start: nat, count: nat, n: nat := ReadWord16(b, 46), ReadWord32(b, 40), ReadWord16(b, 44);
      if start <= |b| {
        ReadTriplesIff(b, b[start..], 48, count, d.triples);
        ReadCommandsIff(b, b[start..], 48 + 12 * count, n, d.commands);
      }
    }
  }

  /** Which error a malformed header reports, and that a root mismatch is the last one. */
  lemma HeaderErrors(h: Hash, b: seq<Byte>)
    ensures Decode(h, b) == Err(SmallerThanHeader) <==> |b| < 48
    ensures Decode(h, b) == Err(BadMagic) <==> |b| >= 48 && !HasMagic(b)
    ensures Decode(h, b) == Err(NotPortable) <==> HasMagic(b) && b[4..8] != [0, 0, 0, 0]
    ensures Decode(h, b) == Err(PoolOutOfBounds) <==> HasMagic(b) && b[4..8] == [0, 0, 0, 0] && U16At(b, 46) > |b|
  {
    hide ReadWord16, ReadWord32, TriplesRoot, U16At, ReadTriples, ReadCommands;
    if |b| >= 48 {
      HeaderIs(b);
      if HasHeader(b) { BodyErrors(h, b); }
    }
  }

  /** Past a good header only a block error or a root mismatch is left. */
  lemma BodyErrors(h: Hash, b: seq<Byte>)
    requires HasHeader(b)
    ensures Decode(h, b).Err? ==> Decode(h, b).error == MerkleMismatch || BlockError(Decode(h, b).error)
  {
    hide ReadWord16, ReadWord32, TriplesRoot, U16At, ReadTriples, ReadCommands, FirstBadTriple, FirstBadCommand, BlockError;
    HeaderIs(b);
    var start: nat, count: nat := ReadWord16(b, 46), ReadWord32(b, 40);
    BlockErrors(b, b[start..], 48, count);
    CommandErrors(b, b[start..], 48 + 12 * count, ReadWord16(b, 44));
  }

  /** The errors the two blocks can report. */
  predicate BlockError(e: DecodeError) {
    || e == StringOffsetOutOfBounds || e == StringLengthOutOfBounds || e == InvalidUtf8
    || e == TriplesTruncated || e == CommandsTruncated
  }

  lemma {:induction false} BlockErrors(b: seq<Byte>, pool: seq<Byte>, off: nat, n: nat)
    ensures var r := ReadTriples(b, pool, off, n);
            r.Err? ==> BlockError(r.error) && (r.error == TriplesTruncated <==> FirstBadTriple(b, pool, off, n))
    decreases n
  {
    hide ReadString;
    if n > 0 {
      BlockErrors(b, pool, off + 12, n - 1);
      TripleErrors(b, pool, off);
    }
  }

  /** The first triple that cannot be read is one past the end of the buffer. */
  predicate FirstBadTriple(b: seq<Byte>, pool: seq<Byte>, off: nat, n: nat)
    decreases n
  {
    n > 0 && (off + 12 > |b| || (ReadTriple(b, pool, off).Ok? && FirstBadTriple(b, pool, off + 12, n - 1)))
  }

  lemma StringErrors(pool: seq<Byte>, i: nat)
    ensures ReadString(pool, i) == Err(StringOffsetOutOfBounds) <==> i + 2 > |pool|
    ensures ReadString(pool, i) == Err(StringLengthOutOfBounds) <==> i + 2 <= |pool| < i + 2 + U16At(pool, i)
    ensures ReadString(pool, i) == Err(InvalidUtf8)
            <==> i + 2 <= |pool| && i + 2 + U16At(pool, i) <= |pool| && !ValidUtf8(pool[i + 2..i + 2 + U16At(pool, i)])
    ensures ReadString(pool, i).Err? ==>
      ReadString(pool, i).error in {StringOffsetOutOfBounds, StringLengthOutOfBounds, InvalidUtf8}
  {
    hide FromLe, ValidUtf8;
    if i + 2 <= |pool| { FromLeTwo(pool[i..i + 2]); }
  }

  lemma TripleErrors(b: seq<Byte>, pool: seq<Byte>, i: nat)
    ensures var r := ReadTriple(b, pool, i);
            r.Err? ==> BlockError(r.error) && (r.error == TriplesTruncated <==> i + 12 > |b|)
  {
    hide ReadString, FromLe;
    if i + 12 <= |b| {
      StringErrors(pool, FromLe(b[i..i + 4]));
      StringErrors(pool, FromLe(b[i + 4..i + 8]));
      StringErrors(pool, FromLe(b[i + 8..i + 12]));
    }
  }

  /** The first command that cannot be read is one past the end of the buffer. */
  predicate FirstBadCommand(b: seq<Byte>, pool: seq<Byte>, off: nat, n: nat)
    decreases n
  {
    n > 0 && (off + 18 > |b| || (ReadCommand(b, pool, off).Ok? && FirstBadCommand(b, pool, off + 18, n - 1)))
  }

  lemma {:induction false} CommandErrors(b: seq<Byte>, pool: seq<Byte>, off: nat, n: nat)
    ensures var r := ReadCommands(b, pool, off, n);
            r.Err? ==> BlockError(r.error) && r.error != TriplesTruncated
                       && (r.error == CommandsTruncated <==> FirstBadCommand(b, pool, off, n))
    decreases n
  {
    hide ReadString, ReadWord16, ReadWord32;
    if n > 0 {
      CommandErrors(b, pool, off + 18, n - 1);
      if off + 18 <= |b| { StringErrors(pool, ReadWord32(b, off + 13)); }
    }
  }

  /** A buffer that spells a document but for its root reports the mismatch. */
  lemma MismatchReported(h: Hash, b: seq<Byte>, d: Doc)
    requires HasHeader(b) && U32At(b, 40) == |d.triples| && U16At(b, 44) == |d.commands|
    requires HasTriples(b, b[U16At(b, 46)..], 48, d.triples)
    requires HasCommands(b, b[U16At(b, 46)..], 48 + 12 * |d.triples|, d.commands)
    requires b[8..40] != TriplesRoot(h, d.triples)
    ensures Decode(h, b) == Err(MerkleMismatch)
  {
    hide ReadWord16, ReadWord32, ReadTriples, ReadCommands, HasTriples, HasCommands, TriplesRoot, U16At, U32At;
    HeaderIs(b);
    ReadTriplesIff(b, b[U16At(b, 46)..], 48, |d.triples|, d.triples);
    ReadCommandsIff(b, b[U16At(b, 46)..], 48 + 12 * |d.triples|, |d.commands|, d.commands);
  }

  // ----- what the encoder writes

  /**
    Everything the checked encoder writes: a buffer that spells the document, with the pool right behind the
    two blocks.
   */
  lemma EncodingSpells(h: Hash, d: Doc)
    requires WellFormed(d) && Encode(h, d, true).Ok?
    ensures var b := Encode(h, d, true).value;
            Spells(h, b, d) && U16At(b, 46) == 48 + 12 * |d.triples| + 18 * |d.commands|
  {
    hide Encode, Decode, Spells, WellFormed, U16At, ReadWord16;
    RoundTrip(h, d);
    DecodeIff(h, Encode(h, d, true).value, d);
    PoolBehindBlocks(h, d);
  }

  lemma PoolBehindBlocks(h: Hash, d: Doc)
    requires Encode(h, d, true).Ok?
    ensures var b := Encode(h, d, true).value; |b| >= 48 && U16At(b, 46) == 48 + 12 * |d.triples| + 18 * |d.commands|
  {
    hide TriplesRoot, Header, BuildPool, TriplesBlock, CommandsBlock, ReadWord16, ReadWord32, U16At;
    AcceptedIffFits(h, d);
    var b := Layout(h, d);
    AtWhole(Header(h, d));
    AtExtend(Header(h, d), b[48..], 0, Header(h, d));
    assert b == Header(h, d) + b[48..];
    HeaderFields(h, d, b);
    Word16Is(b, 46);
  }

  /** What the checked encoder reports otherwise, in this order. */
  lemma EncodeErrors(h: Hash, d: Doc, i: nat)
    ensures |d.commands| > 65535 ==> Encode(h, d, true) == Err(TooManyCommands(|d.commands|))
    ensures |d.commands| <= 65535 && i < |Strings(d)| && |Strings(d)[i]| > 65535
            && (forall j :: 0 <= j < i ==> |Strings(d)[j]| <= 65535) ==>
      Encode(h, d, true) == Err(StringTooLong(|Strings(d)[i]|))
    ensures |d.commands| <= 65535 && (forall j :: 0 <= j < |Strings(d)| ==> |Strings(d)[j]| <= 65535)
            && 48 + 12 * |d.triples| + 18 * |d.commands| > 65535 ==>
      Encode(h, d, true) == Err(PoolOffsetTooLarge(48 + 12 * |d.triples| + 18 * |d.commands|))
  {
    hide Layout, Strings;
    FirstTooLongNone(Strings(d));
    if i < |Strings(d)| { FirstTooLongIs(Strings(d), i); }
  }

  lemma {:induction false} FirstTooLongIs(ss: seq<Str>, i: nat)
    requires i < |ss|
    ensures |ss[i]| > 65535 && (forall j :: 0 <= j < i ==> |ss[j]| <= 65535) ==> FirstTooLong(ss) == Some(|ss[i]|)
  {
    if i > 0 { FirstTooLongIs(ss[1..], i - 1); }
  }

  // ----- the pool holds each string once

  function Entries(ss: seq<Str>): seq<Byte> {
    if ss == [] then [] else Entries(ss[..|ss| - 1]) + Entry(ss[|ss| - 1])
  }

  ghost predicate OnceEach(ss: seq<Str>) {
    forall i, j :: 0 <= i < j < |ss| ==> ss[i] != ss[j]
  }

  /** One entry more for a string not held, none for one that is. */
  lemma AddLast(p: Pool, init: seq<Str>, last: Str)
    ensures AddAll(p, init + [last]) == Add(AddAll(p, init), last)
  {
    hide Add;
    AddAllAppend(p, init, [last]);
    AddOne(AddAll(p, init), last);
  }

  lemma EntriesSnoc(bytes: seq<Byte>, us: seq<Str>, s: Str)
    ensures bytes + Entries(us) + Entry(s) == bytes + Entries(us + [s])
  {
    hide Entry;
    assert (us + [s])[..|us|] == us;
  }

  lemma OnceEachSnoc(us: seq<Str>, s: Str)
    requires OnceEach(us) && s !in us
    ensures OnceEach(us + [s])
  {
  }

  lemma {:induction false} AddAllKeys(p: Pool, ss: seq<Str>)
    ensures forall s :: s in AddAll(p, ss).offsets <==> s in p.offsets || s in ss
    decreases |ss|
  {
    hide Entry;
    if ss != [] {
      AddAllKeys(Add(p, ss[0]), ss[1..]);
      assert ss == [ss[0]] + ss[1..];
    }
  }

  /** Adding strings to a pool appends one entry per string it did not hold. */
  lemma {:induction false} AddAllEntries(p: Pool, ss: seq<Str>) returns (us: seq<Str>)
    ensures AddAll(p, ss).bytes == p.bytes + Entries(us) && OnceEach(us)
    ensures forall s :: s in us <==> s in ss && s !in p.offsets
    decreases |ss|
  {
    hide Entry, Entries, OnceEach, AddAll;
    if ss == [] {
      us := [];
      NoEntries(p);
    } else {
      var init, last := ss[..|ss| - 1], ss[|ss| - 1];
      assert ss == init + [last];
      us := AddAllEntries(p, init);
      AddLast(p, init, last);
      AddAllKeys(p, init);
      if last !in AddAll(p, init).offsets {
        EntriesSnoc(p.bytes, us, last);
        OnceEachSnoc(us, last);
        us := us + [last];
      }
    }
  }

  lemma NoEntries(p: Pool)
    ensures AddAll(p, []) == p && p.bytes + Entries([]) == p.bytes && OnceEach([])
  {
  }

  lemma AddOne(p: Pool, s: Str)
    ensures AddAll(p, [s]) == Add(p, s)
  {
    hide Add;
    assert [s][1..] == [];
  }

  /** The pool of a document: the empty string first, then every other string exactly once. */
  lemma PoolHoldsEachOnce(d: Doc) returns (us: seq<Str>)
    ensures BuildPool(d).bytes == [0, 0] + Entries(us) && OnceEach(us)
    ensures forall s :: s in us <==> s in Strings(d) && s != []
  {
    hide AddAll, Strings;
    us := AddAllEntries(EMPTY_POOL, Strings(d));
    assert EMPTY_POOL.offsets.Keys == {[]};
    assert EMPTY_POOL.bytes == [0, 0] by { EmptyEntry(); }
  }

  lemma EmptyEntry()
    ensures EMPTY_POOL.bytes == [0, 0]
  {
    assert LeBytes(0, 2) == [0] + LeBytes(0, 1);
    assert LeBytes(0, 1) == [0] + LeBytes(0, 0);
  }
}
