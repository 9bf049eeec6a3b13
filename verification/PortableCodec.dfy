/** The portable NDA1 layout: header, triples block, commands block and deduplicating string pool. */
module PortableCodec {
  import opened Bytes
  import opened Slices
  import opened Merkle

  datatype Command =
    Command(kind: Byte, color: Word32, x: Word16, y: Word16, w: Word16, h: Word16, content: Str)

  datatype Doc = Doc(triples: seq<Triple>, commands: seq<Command>)

  const NDA_MAGIC := 0x3141_444E
  const PORTABLE_HEADER_LEN := 48
  const MAX_U16 := 0xFFFF

  datatype EncodeError =
    | TooManyCommands(n: nat)
    | PoolOffsetTooLarge(n: nat)
    | StringTooLong(n: nat)

  datatype DecodeError =
    | SmallerThanHeader
    | BadMagic
    | NotPortable
    | PoolOutOfBounds
    | StringOffsetOutOfBounds
    | StringLengthOutOfBounds
    | InvalidUtf8
    | TriplesTruncated
    | CommandsTruncated
    | MerkleMismatch

  // ----- the strings of a document, in interning order

  function TripleStrings(ts: seq<Triple>): seq<Str> {
    if ts == [] then [] else [ts[0].0, ts[0].1, ts[0].2] + TripleStrings(ts[1..])
  }

  function Contents(cs: seq<Command>): (ss: seq<Str>)
    ensures |ss| == |cs|
  {
    seq(|cs|, i requires 0 <= i < |cs| => cs[i].content)
  }

  function Strings(d: Doc): seq<Str> {
    TripleStrings(d.triples) + Contents(d.commands)
  }

  /** What Rust's `String` type guarantees of every string in the document. */
  ghost predicate WellFormed(d: Doc) {
    forall i :: 0 <= i < |Strings(d)| ==> ValidUtf8(Strings(d)[i])
  }

  // ----- the string pool

  datatype Pool = Pool(bytes: seq<Byte>, offsets: map<Str, nat>)

  /** One pool entry: u16 length, then the bytes. */
  function Entry(s: Str): seq<Byte> {
    LeBytes(|s|, 2) + s
  }

  /** `add_string` without its length check; the offset is cast with `as u32`. */
  function Add(p: Pool, s: Str): Pool {
    if s in p.offsets then p else Pool(p.bytes + Entry(s), p.offsets[s := |p.bytes| % U32])
  }

  function AddAll(p: Pool, ss: seq<Str>): Pool
    decreases |ss|
  {
    if ss == [] then p else AddAll(Add(p, ss[0]), ss[1..])
  }

  const EMPTY_POOL := Add(Pool([], map[]), [])

  function BuildPool(d: Doc): Pool {
    AddAll(EMPTY_POOL, Strings(d))
  }

  /** Interning keeps every offset already handed out and covers the new strings. */
  lemma {:induction false} AddAllOffsets(p: Pool, ss: seq<Str>)
    ensures p.offsets.Keys <= AddAll(p, ss).offsets.Keys
    ensures forall s :: s in p.offsets ==> AddAll(p, ss).offsets[s] == p.offsets[s]
    ensures forall i :: 0 <= i < |ss| ==> ss[i] in AddAll(p, ss).offsets
    decreases |ss|
  {
    if ss != [] {
      AddAllOffsets(Add(p, ss[0]), ss[1..]);
      assert forall i :: 1 <= i < |ss| ==> ss[i] == ss[1..][i - 1];
    }
  }

  lemma {:induction false} AddAllAppend(p: Pool, a: seq<Str>, b: seq<Str>)
    ensures AddAll(p, a + b) == AddAll(AddAll(p, a), b)
    decreases |a|
  {
    if a == [] {
      assert a + b == b;
    } else {
      assert (a + b)[1..] == a[1..] + b;
      AddAllAppend(Add(p, a[0]), a[1..], b);
    }
  }

  /** Every offset names its string's entry. */
  ghost predicate PoolOk(p: Pool) {
    forall s :: s in p.offsets ==> At(p.bytes, p.offsets[s], Entry(s)) && p.offsets[s] < U32
  }

  lemma AddOk(p: Pool, s: Str)
    requires PoolOk(p) && |p.bytes| < U32
    ensures PoolOk(Add(p, s))
  {
    hide LeBytes;
    if s !in p.offsets {
      var q := Add(p, s);
      forall t | t in q.offsets
        ensures At(q.bytes, q.offsets[t], Entry(t)) && q.offsets[t] < U32
      {
        if t != s {
          AtExtend(p.bytes, Entry(s), p.offsets[t], Entry(t));
        }
      }
    }
  }

  /** While the worst case stays below 2^32 no offset wraps, whatever the strings are. */
  lemma {:induction false} AddAllOk(p: Pool, ss: seq<Str>)
    requires PoolOk(p) && |p.bytes| + 0x1_0001 * |ss| < U32
    requires forall i :: 0 <= i < |ss| ==> |ss[i]| <= MAX_U16
    ensures PoolOk(AddAll(p, ss)) && |AddAll(p, ss).bytes| < U32
    decreases |ss|
  {
    if ss != [] {
      AddOk(p, ss[0]);
      AddAllOk(Add(p, ss[0]), ss[1..]);
    }
  }

  // ----- encoding

  function PoolStart(d: Doc): nat {
    PORTABLE_HEADER_LEN + 12 * |d.triples| + 18 * |d.commands|
  }

  function Header(h: Hash, d: Doc): (b: seq<Byte>)
    ensures |b| == PORTABLE_HEADER_LEN
  {
    LeBytes(NDA_MAGIC, 4) + LeBytes(0, 4) + TriplesRoot(h, d.triples)
    + LeBytes(|d.triples|, 4) + LeBytes(|d.commands|, 2) + LeBytes(PoolStart(d), 2)
  }

  function Offset(offsets: map<Str, nat>, s: Str): nat {
    if s in offsets then offsets[s] else 0
  }

  function TripleBytes(offsets: map<Str, nat>, t: Triple): (b: seq<Byte>)
    ensures |b| == 12
  {
    LeBytes(Offset(offsets, t.0), 4) + LeBytes(Offset(offsets, t.1), 4) + LeBytes(Offset(offsets, t.2), 4)
  }

  function TriplesBlock(offsets: map<Str, nat>, ts: seq<Triple>): (b: seq<Byte>)
    ensures |b| == 12 * |ts|
  {
    if ts == [] then [] else TripleBytes(offsets, ts[0]) + TriplesBlock(offsets, ts[1..])
  }

  /** One 18-byte display command, with its padding byte. */
  function CommandBytes(offsets: map<Str, nat>, c: Command): (b: seq<Byte>)
    ensures |b| == 18
  {
    [c.kind] + LeBytes(c.color, 4) + LeBytes(c.x, 2) + LeBytes(c.y, 2) + LeBytes(c.w, 2) + LeBytes(c.h, 2)
    + LeBytes(Offset(offsets, c.content), 4) + [0]
  }

  function CommandsBlock(offsets: map<Str, nat>, cs: seq<Command>): (b: seq<Byte>)
    ensures |b| == 18 * |cs|
  {
    if cs == [] then [] else CommandBytes(offsets, cs[0]) + CommandsBlock(offsets, cs[1..])
  }

  function Layout(h: Hash, d: Doc): seq<Byte> {
    var p := BuildPool(d);
    Header(h, d) + TriplesBlock(p.offsets, d.triples) + CommandsBlock(p.offsets, d.commands) + p.bytes
  }

  /** The first string the length prefix cannot hold. */
  function FirstTooLong(ss: seq<Str>): Option<nat> {
    if ss == [] then None else if |ss[0]| > MAX_U16 then Some(|ss[0]|) else FirstTooLong(ss[1..])
  }

  /** `encode_portable`: with `validate` off nothing is checked and the casts truncate. */
  function Encode(h: Hash, d: Doc, validate: bool): Result<seq<Byte>, EncodeError> {
    if validate && |d.commands| > MAX_U16 then Err(TooManyCommands(|d.commands|))
    else if validate && FirstTooLong(Strings(d)).Some? then Err(StringTooLong(FirstTooLong(Strings(d)).value))
    else if validate && PoolStart(d) > MAX_U16 then Err(PoolOffsetTooLarge(PoolStart(d)))
    else Ok(Layout(h, d))
  }

  // ----- decoding

  function ReadString(pool: seq<Byte>, start: nat): Result<Str, DecodeError> {
    if start + 2 > |pool| then Err(StringOffsetOutOfBounds)
    else
      var len := FromLe(pool[start..start + 2]);
      if start + 2 + len > |pool| then Err(StringLengthOutOfBounds)
      else
        var s := pool[start + 2..start + 2 + len];
        if ValidUtf8(s) then Ok(s) else Err(InvalidUtf8)
  }

  function ReadTriple(bytes: seq<Byte>, pool: seq<Byte>, off: nat): Result<Triple, DecodeError> {
    if off + 12 > |bytes| then Err(TriplesTruncated)
    else
      var s :- ReadString(pool, FromLe(bytes[off..off + 4]));
      var p :- ReadString(pool, FromLe(bytes[off + 4..off + 8]));
      var o :- ReadString(pool, FromLe(bytes[off + 8..off + 12]));
      Ok((s, p, o))
  }

  function ReadTriples(bytes: seq<Byte>, pool: seq<Byte>, off: nat, n: nat): Result<seq<Triple>, DecodeError>
    decreases n
  {
    if n == 0 then Ok([])
    else
      var t :- ReadTriple(bytes, pool, off);
      var rest :- ReadTriples(bytes, pool, off + 12, n - 1);
      Ok([t] + rest)
  }

  function ReadWord16(bytes: seq<Byte>, off: nat): Word16
    requires off + 2 <= |bytes|
  {
    FromLeBound(bytes[off..off + 2]);
    Widths();
    FromLe(bytes[off..off + 2])
  }

  function ReadWord32(bytes: seq<Byte>, off: nat): Word32
    requires off + 4 <= |bytes|
  {
    FromLeBound(bytes[off..off + 4]);
    Widths();
    FromLe(bytes[off..off + 4])
  }

  function ReadCommand(bytes: seq<Byte>, pool: seq<Byte>, off: nat): Result<Command, DecodeError> {
    if off + 18 > |bytes| then Err(CommandsTruncated)
    else
      var content :- ReadString(pool, ReadWord32(bytes, off + 13));
      Ok(Command(bytes[off], ReadWord32(bytes, off + 1), ReadWord16(bytes, off + 5), ReadWord16(bytes, off + 7),
                 ReadWord16(bytes, off + 9), ReadWord16(bytes, off + 11), content))
  }

  function ReadCommands(bytes: seq<Byte>, pool: seq<Byte>, off: nat, n: nat): Result<seq<Command>, DecodeError>
    decreases n
  {
    if n == 0 then Ok([])
    else
      var c :- ReadCommand(bytes, pool, off);
      var rest :- ReadCommands(bytes, pool, off + 18, n - 1);
      Ok([c] + rest)
  }

  /** `from_portable_bytes`. */
  function Decode(h: Hash, bytes: seq<Byte>): Result<Doc, DecodeError> {
    if |bytes| < PORTABLE_HEADER_LEN then Err(SmallerThanHeader)
    else if ReadWord32(bytes, 0) != NDA_MAGIC then Err(BadMagic)
    else if ReadWord32(bytes, 4) != 0 then Err(NotPortable)
    else
      var start := ReadWord16(bytes, 46);
      if start > |bytes| then Err(PoolOutOfBounds)
      else
        var count := ReadWord32(bytes, 40);
        var triples :- ReadTriples(bytes, bytes[start..], PORTABLE_HEADER_LEN, count);
        var commands :- ReadCommands(bytes, bytes[start..], PORTABLE_HEADER_LEN + 12 * count, ReadWord16(bytes, 44));
        if TriplesRoot(h, triples) != bytes[8..40] then Err(MerkleMismatch) else Ok(Doc(triples, commands))
  }

  // ----- the round trip

  lemma ReadWord16At(bytes: seq<Byte>, off: nat, n: nat)
    requires n < U16 && At(bytes, off, LeBytes(n, 2))
    ensures ReadWord16(bytes, off) == n
  {
    hide LeBytes, FromLe;
    Widths();
    LeRoundTrip(n, 2);
  }

  lemma ReadWord32At(bytes: seq<Byte>, off: nat, n: nat)
    requires n < U32 && At(bytes, off, LeBytes(n, 4))
    ensures ReadWord32(bytes, off) == n && FromLe(bytes[off..off + 4]) == n
  {
    hide LeBytes, FromLe;
    Widths();
    LeRoundTrip(n, 4);
  }

  lemma ReadLength(len: seq<Byte>, n: nat)
    requires len == LeBytes(n, 2) && n <= MAX_U16
    ensures FromLe(len) == n
  {
    hide LeBytes, FromLe, Pow256;
    Widths();
    LeRoundTrip(n, 2);
  }

  lemma ReadStringAt(pool: seq<Byte>, off: nat, s: Str)
    requires At(pool, off, Entry(s)) && |s| <= MAX_U16 && ValidUtf8(s)
    ensures ReadString(pool, off) == Ok(s)
  {
    hide LeBytes, FromLe, ValidUtf8, At;
    var len := LeBytes(|s|, 2);
    assert At(pool, off, len) && At(pool, off + 2, s) by { AtSplit(pool, off, len, s); }
    AtSlice(pool, off, len);
    AtSlice(pool, off + 2, s);
    ReadLength(len, |s|);
  }

  /** A string the pool holds properly: what the encoder leaves behind for each string of the document. */
  ghost predicate Pooled(p: Pool, s: Str) {
    && s in p.offsets
    && p.offsets[s] < U32
    && At(p.bytes, p.offsets[s], Entry(s))
    && |s| <= MAX_U16
    && ValidUtf8(s)
  }

  lemma PooledReads(p: Pool, s: Str, bytes: seq<Byte>, off: nat)
    requires Pooled(p, s) && At(bytes, off, LeBytes(Offset(p.offsets, s), 4))
    ensures ReadString(p.bytes, FromLe(bytes[off..off + 4])) == Ok(s)
    ensures ReadString(p.bytes, ReadWord32(bytes, off)) == Ok(s)
  {
    hide LeBytes, FromLe, ValidUtf8, ReadString, Entry, ReadWord32;
    ReadWord32At(bytes, off, Offset(p.offsets, s));
    ReadStringAt(p.bytes, p.offsets[s], s);
  }

  lemma ReadTripleAt(p: Pool, bytes: seq<Byte>, off: nat, t: Triple)
    requires At(bytes, off, TripleBytes(p.offsets, t))
    requires Pooled(p, t.0) && Pooled(p, t.1) && Pooled(p, t.2)
    ensures ReadTriple(bytes, p.bytes, off) == Ok(t)
  {
    hide LeBytes, FromLe, ReadString, Pooled, Offset;
    var s0, s1, s2 := LeBytes(Offset(p.offsets, t.0), 4), LeBytes(Offset(p.offsets, t.1), 4), LeBytes(Offset(p.offsets, t.2), 4);
    AtSplit(bytes, off, s0 + s1, s2);
    AtSplit(bytes, off, s0, s1);
    PooledReads(p, t.0, bytes, off);
    PooledReads(p, t.1, bytes, off + 4);
    PooledReads(p, t.2, bytes, off + 8);
  }

  lemma {:induction false} ReadTriplesAt(p: Pool, bytes: seq<Byte>, off: nat, ts: seq<Triple>)
    requires At(bytes, off, TriplesBlock(p.offsets, ts))
    requires forall i :: 0 <= i < |ts| ==> Pooled(p, ts[i].0) && Pooled(p, ts[i].1) && Pooled(p, ts[i].2)
    ensures ReadTriples(bytes, p.bytes, off, |ts|) == Ok(ts)
    decreases |ts|
  {
    hide ReadTriple, TripleBytes, Pooled;
    if ts != [] {
      AtSplit(bytes, off, TripleBytes(p.offsets, ts[0]), TriplesBlock(p.offsets, ts[1..]));
      ReadTripleAt(p, bytes, off, ts[0]);
      ReadTriplesAt(p, bytes, off + 12, ts[1..]);
      assert ts == [ts[0]] + ts[1..];
    }
  }

  lemma ReadCommandAt(p: Pool, bytes: seq<Byte>, off: nat, c: Command)
    requires At(bytes, off, CommandBytes(p.offsets, c)) && Pooled(p, c.content)
    ensures ReadCommand(bytes, p.bytes, off) == Ok(c)
  {
    hide LeBytes, FromLe, ReadString, Pooled, Offset, ReadWord16, ReadWord32;
    CommandFields(p, bytes, off, c);
    ReadWord32At(bytes, off + 1, c.color);
    ReadWord16At(bytes, off + 5, c.x);
    ReadWord16At(bytes, off + 7, c.y);
    ReadWord16At(bytes, off + 9, c.w);
    ReadWord16At(bytes, off + 11, c.h);
    PooledReads(p, c.content, bytes, off + 13);
  }

  lemma CommandFields(p: Pool, bytes: seq<Byte>, off: nat, c: Command)
    requires At(bytes, off, CommandBytes(p.offsets, c))
    ensures bytes[off] == c.kind && At(bytes, off + 1, LeBytes(c.color, 4))
    ensures At(bytes, off + 5, LeBytes(c.x, 2)) && At(bytes, off + 7, LeBytes(c.y, 2))
    ensures At(bytes, off + 9, LeBytes(c.w, 2)) && At(bytes, off + 11, LeBytes(c.h, 2))
    ensures At(bytes, off + 13, LeBytes(Offset(p.offsets, c.content), 4))
  {
    hide LeBytes, Offset;
    var k, co, x, y := [c.kind], LeBytes(c.color, 4), LeBytes(c.x, 2), LeBytes(c.y, 2);
    var w, h, o := LeBytes(c.w, 2), LeBytes(c.h, 2), LeBytes(Offset(p.offsets, c.content), 4);
    AtSplit(bytes, off, k + co + x + y + w + h + o, [0]);
    AtSplit(bytes, off, k + co + x + y + w + h, o);
    AtSplit(bytes, off, k + co + x + y + w, h);
    AtSplit(bytes, off, k + co + x + y, w);
    AtSplit(bytes, off, k + co + x, y);
    AtSplit(bytes, off, k + co, x);
    AtSplit(bytes, off, k, co);
    assert bytes[off..off + 1][0] == bytes[off];
  }

  lemma {:induction false} ReadCommandsAt(p: Pool, bytes: seq<Byte>, off: nat, cs: seq<Command>)
    requires At(bytes, off, CommandsBlock(p.offsets, cs))
    requires forall i :: 0 <= i < |cs| ==> Pooled(p, cs[i].content)
    ensures ReadCommands(bytes, p.bytes, off, |cs|) == Ok(cs)
    decreases |cs|
  {
    hide ReadCommand, CommandBytes, Pooled;
    if cs != [] {
      AtSplit(bytes, off, CommandBytes(p.offsets, cs[0]), CommandsBlock(p.offsets, cs[1..]));
      ReadCommandAt(p, bytes, off, cs[0]);
      ReadCommandsAt(p, bytes, off + 18, cs[1..]);
      assert cs == [cs[0]] + cs[1..];
    }
  }

  /** Which documents `try_to_portable_bytes` accepts. */
  ghost predicate Fits(d: Doc) {
    && |d.commands| <= MAX_U16
    && (forall i :: 0 <= i < |Strings(d)| ==> |Strings(d)[i]| <= MAX_U16)
    && PoolStart(d) <= MAX_U16
  }

  lemma {:induction false} FirstTooLongNone(ss: seq<Str>)
    ensures FirstTooLong(ss).None? <==> forall i :: 0 <= i < |ss| ==> |ss[i]| <= MAX_U16
  {
    if ss != [] {
      FirstTooLongNone(ss[1..]);
      assert forall i :: 1 <= i < |ss| ==> ss[i] == ss[1..][i - 1];
    }
  }

  lemma AcceptedIffFits(h: Hash, d: Doc)
    ensures Encode(h, d, true).Ok? <==> Fits(d)
  {
    FirstTooLongNone(Strings(d));
  }

  lemma {:induction false} TripleStringsAt(ts: seq<Triple>)
    ensures |TripleStrings(ts)| == 3 * |ts|
    ensures forall i :: 0 <= i < |ts| ==>
      && TripleStrings(ts)[3 * i] == ts[i].0
      && TripleStrings(ts)[3 * i + 1] == ts[i].1
      && TripleStrings(ts)[3 * i + 2] == ts[i].2
  {
    if ts != [] {
      TripleStringsAt(ts[1..]);
      assert forall i :: 1 <= i < |ts| ==> ts[i] == ts[1..][i - 1];
    }
  }

  /**
    In an accepted document the u16 bound on the pool start caps the number of strings, and with it the
    pool: every `as u32` offset is exact, and every string of the document is where its offset says.
   */
  lemma NoOffsetWraps(d: Doc)
    requires Fits(d)
    ensures |BuildPool(d).bytes| < U32 && PoolOk(BuildPool(d))
    ensures forall i :: 0 <= i < |Strings(d)| ==> Strings(d)[i] in BuildPool(d).offsets
  {
    TripleStringsAt(d.triples);
    assert |Strings(d)| == 3 * |d.triples| + |d.commands|;
    assert |EMPTY_POOL.bytes| == 2;
    AddOk(Pool([], map[]), []);
    AddAllOk(EMPTY_POOL, Strings(d));
    AddAllOffsets(EMPTY_POOL, Strings(d));
  }

  lemma AllPooled(d: Doc)
    requires Fits(d) && WellFormed(d)
    ensures var p := BuildPool(d);
            && (forall i :: 0 <= i < |d.triples| ==>
                  Pooled(p, d.triples[i].0) && Pooled(p, d.triples[i].1) && Pooled(p, d.triples[i].2))
            && (forall i :: 0 <= i < |d.commands| ==> Pooled(p, d.commands[i].content))
  {
    hide BuildPool, ValidUtf8, Entry;
    NoOffsetWraps(d);
    TripleStringsAt(d.triples);
    var p, ss := BuildPool(d), Strings(d);
    assert forall i :: 0 <= i < |ss| ==> Pooled(p, ss[i]);
    forall i | 0 <= i < |d.triples|
      ensures Pooled(p, d.triples[i].0) && Pooled(p, d.triples[i].1) && Pooled(p, d.triples[i].2)
    {
      assert ss[3 * i] == d.triples[i].0 && ss[3 * i + 1] == d.triples[i].1 && ss[3 * i + 2] == d.triples[i].2;
    }
    forall i | 0 <= i < |d.commands|
      ensures Pooled(p, d.commands[i].content)
    {
      assert ss[3 * |d.triples| + i] == d.commands[i].content;
    }
  }

  lemma HeaderFields(h: Hash, d: Doc, bytes: seq<Byte>)
    requires Fits(d) && At(bytes, 0, Header(h, d))
    ensures ReadWord32(bytes, 0) == NDA_MAGIC && ReadWord32(bytes, 4) == 0
    ensures bytes[8..40] == TriplesRoot(h, d.triples)
    ensures ReadWord32(bytes, 40) == |d.triples|
    ensures ReadWord16(bytes, 44) == |d.commands|
    ensures ReadWord16(bytes, 46) == PoolStart(d)
  {
    hide LeBytes, TriplesRoot, ReadWord16, ReadWord32;
    var m, f, r: seq<Byte> := LeBytes(NDA_MAGIC, 4), LeBytes(0, 4), TriplesRoot(h, d.triples);
    var t, c, s := LeBytes(|d.triples|, 4), LeBytes(|d.commands|, 2), LeBytes(PoolStart(d), 2);
    AtSplit(bytes, 0, m + f + r + t + c, s);
    AtSplit(bytes, 0, m + f + r + t, c);
    AtSplit(bytes, 0, m + f + r, t);
    AtSplit(bytes, 0, m + f, r);
    AtSplit(bytes, 0, m, f);
    ReadWord32At(bytes, 0, NDA_MAGIC);
    ReadWord32At(bytes, 4, 0);
    ReadWord32At(bytes, 40, |d.triples|);
    ReadWord16At(bytes, 44, |d.commands|);
    ReadWord16At(bytes, 46, PoolStart(d));
  }

  /** Whatever the checked encoder accepts, the decoder returns exactly. */
  lemma RoundTrip(h: Hash, d: Doc)
    requires WellFormed(d) && Encode(h, d, true).Ok?
    ensures Decode(h, Encode(h, d, true).value) == Ok(d)
  {
    hide Header, BuildPool, ReadTriples, ReadCommands, ReadWord16, ReadWord32, TriplesRoot, Pooled;
    AcceptedIffFits(h, d);
    var bytes, p := Layout(h, d), BuildPool(d);
    var a, b, c := Header(h, d), TriplesBlock(p.offsets, d.triples), CommandsBlock(p.offsets, d.commands);
    assert bytes == a + b + c + p.bytes;
    AtWhole(bytes);
    AtSplit(bytes, 0, a + b + c, p.bytes);
    AtSplit(bytes, 0, a + b, c);
    AtSplit(bytes, 0, a, b);
    HeaderFields(h, d, bytes);
    assert bytes[PoolStart(d)..] == p.bytes;
    AllPooled(d);
    ReadTriplesAt(p, bytes, PORTABLE_HEADER_LEN, d.triples);
    ReadCommandsAt(p, bytes, PORTABLE_HEADER_LEN + 12 * |d.triples|, d.commands);
  }

  // ----- which documents the format can carry at all

  lemma ReadStringBounded(pool: seq<Byte>, start: nat)
    ensures var r := ReadString(pool, start); r.Ok? ==> |r.value| <= MAX_U16 && ValidUtf8(r.value)
  {
    hide FromLe, ValidUtf8, Pow256;
    if start + 2 <= |pool| {
      FromLeBound(pool[start..start + 2]);
      Widths();
    }
  }

  ghost predicate Short(s: Str) {
    |s| <= MAX_U16 && ValidUtf8(s)
  }

  ghost predicate AllShort(ss: seq<Str>) {
    forall i :: 0 <= i < |ss| ==> Short(ss[i])
  }

  lemma {:induction false} ReadTriplesBounded(bytes: seq<Byte>, pool: seq<Byte>, off: nat, n: nat)
    ensures var r := ReadTriples(bytes, pool, off, n);
            r.Ok? ==> AllShort(TripleStrings(r.value))
    decreases n
  {
    hide ReadString, FromLe, Short;
    if n > 0 && ReadTriples(bytes, pool, off, n).Ok? {
      var t, ts := ReadTriple(bytes, pool, off).value, ReadTriples(bytes, pool, off, n).value;
      ReadTriplesBounded(bytes, pool, off + 12, n - 1);
      assert ts[1..] == ReadTriples(bytes, pool, off + 12, n - 1).value;
      assert Short(t.0) && Short(t.1) && Short(t.2) by { ReadTripleShort(bytes, pool, off); }
    }
  }

  lemma ReadTripleShort(bytes: seq<Byte>, pool: seq<Byte>, off: nat)
    ensures var r := ReadTriple(bytes, pool, off); r.Ok? ==> Short(r.value.0) && Short(r.value.1) && Short(r.value.2)
  {
    hide ReadString, FromLe;
    if off + 12 <= |bytes| {
      ReadStringBounded(pool, FromLe(bytes[off..off + 4]));
      ReadStringBounded(pool, FromLe(bytes[off + 4..off + 8]));
      ReadStringBounded(pool, FromLe(bytes[off + 8..off + 12]));
    }
  }

  lemma {:induction false} ReadCommandsBounded(bytes: seq<Byte>, pool: seq<Byte>, off: nat, n: nat)
    ensures var r := ReadCommands(bytes, pool, off, n);
            r.Ok? ==> |r.value| == n && forall i :: 0 <= i < n ==> Short(r.value[i].content)
    decreases n
  {
    hide ReadString, ReadWord16, ReadWord32;
    if n > 0 && ReadCommands(bytes, pool, off, n).Ok? {
      ReadStringBounded(pool, ReadWord32(bytes, off + 13));
      ReadCommandsBounded(bytes, pool, off + 18, n - 1);
    }
  }

  /** Nothing the decoder returns exceeds the limits the encoder checks on counts and string lengths. */
  lemma DecodedIsBounded(h: Hash, bytes: seq<Byte>)
    requires Decode(h, bytes).Ok?
    ensures var d := Decode(h, bytes).value;
            && WellFormed(d) && |d.commands| <= MAX_U16
            && forall i :: 0 <= i < |Strings(d)| ==> |Strings(d)[i]| <= MAX_U16
  {
    hide ReadTriples, ReadCommands, ReadWord16, ReadWord32, TriplesRoot, TripleStrings, ValidUtf8;
    var start: nat, count: nat, n: nat := ReadWord16(bytes, 46), ReadWord32(bytes, 40), ReadWord16(bytes, 44);
    var d := Decode(h, bytes).value;
    var k := |TripleStrings(d.triples)|;
    assert ReadTriples(bytes, bytes[start..], PORTABLE_HEADER_LEN, count) == Ok(d.triples);
    ReadTriplesBounded(bytes, bytes[start..], PORTABLE_HEADER_LEN, count);
    ReadCommandsBounded(bytes, bytes[start..], PORTABLE_HEADER_LEN + 12 * count, n);
    assert AllShort(TripleStrings(d.triples));
    assert forall i :: 0 <= i < |d.commands| ==> Short(d.commands[i].content);
    forall i | 0 <= i < |Strings(d)| ensures Short(Strings(d)[i]) {
      if i < k {
        assert Strings(d)[i] == TripleStrings(d.triples)[i];
      } else {
        assert Strings(d)[i] == d.commands[i - k].content;
      }
    }
  }

  /** Within the pool-start bound, the checked encoder accepts exactly the documents some buffer decodes to. */
  lemma AcceptedIffRepresentable(h: Hash, d: Doc)
    requires WellFormed(d) && PoolStart(d) <= MAX_U16
    ensures Encode(h, d, true).Ok? <==> exists bytes :: Decode(h, bytes) == Ok(d)
  {
    hide Decode, Layout, Strings, WellFormed;
    AcceptedIffFits(h, d);
    if Encode(h, d, true).Ok? {
      RoundTrip(h, d);
    } else if bytes :| Decode(h, bytes) == Ok(d) {
      DecodedIsBounded(h, bytes);
    }
  }

  /**
    The unchecked encoder: what fits comes back; a document with an over-long string or too many commands
    comes back from no bytes at all, so not from those it writes.
   */
  lemma UncheckedRoundTrip(h: Hash, d: Doc)
    requires WellFormed(d)
    ensures Encode(h, d, false).Ok?
    ensures Fits(d) ==> Decode(h, Encode(h, d, false).value) == Ok(d)
    ensures |d.commands| > MAX_U16 || FirstTooLong(Strings(d)).Some? ==>
      forall bytes :: Decode(h, bytes) != Ok(d)
  {
    hide Decode, Layout, Strings, WellFormed;
    AcceptedIffFits(h, d);
    FirstTooLongNone(Strings(d));
    if Fits(d) { RoundTrip(h, d); }
    forall bytes | Decode(h, bytes) == Ok(d)
      ensures |d.commands| <= MAX_U16 && FirstTooLong(Strings(d)).None?
    {
      DecodedIsBounded(h, bytes);
    }
  }

  /** The root does not cover commands: whatever fits with two lists of commands is accepted with both under one root. */
  lemma CommandsUnbound(h: Hash, ts: seq<Triple>, cs: seq<Command>, es: seq<Command>)
    requires var d, e := Doc(ts, cs), Doc(ts, es); WellFormed(d) && WellFormed(e) && Fits(d) && Fits(e)
    ensures var a, b := Encode(h, Doc(ts, cs), true), Encode(h, Doc(ts, es), true);
            && a.Ok? && b.Ok? && |a.value| >= 40 && |b.value| >= 40 && a.value[8..40] == b.value[8..40]
            && Decode(h, a.value) == Ok(Doc(ts, cs)) && Decode(h, b.value) == Ok(Doc(ts, es))
  {
    hide Decode, Fits, WellFormed, Strings, TriplesRoot;
    var d, e := Doc(ts, cs), Doc(ts, es);
    AcceptedIffFits(h, d);
    AcceptedIffFits(h, e);
    RoundTrip(h, d);
    RoundTrip(h, e);
    RootInHeader(h, d);
    RootInHeader(h, e);
  }

  lemma RootInHeader(h: Hash, d: Doc)
    requires Fits(d)
    ensures |Layout(h, d)| >= 40 && Layout(h, d)[8..40] == TriplesRoot(h, d.triples)
  {
    hide TriplesRoot, Header, BuildPool, TriplesBlock, CommandsBlock;
    AtWhole(Header(h, d));
    AtExtend(Header(h, d), Layout(h, d)[PORTABLE_HEADER_LEN..], 0, Header(h, d));
    assert Layout(h, d) == Header(h, d) + Layout(h, d)[PORTABLE_HEADER_LEN..];
    HeaderFields(h, d, Layout(h, d));
  }
}
