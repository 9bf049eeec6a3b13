/** The encoder and decoder loops of the portable format, proved equal to the layout functions. */
module PortableIO {
  import opened Bytes
  import opened Merkle
  import opened PortableCodec

  /** The captured state of the encoder's `add_string` closure: pool bytes and the offset of each string. */
  class StringPool {
    var bytes: seq<Byte>
    var offsets: map<Str, nat>

    ghost function Model(): Pool
      reads this
    {
      Pool(bytes, offsets)
    }

    /** What interning under validation keeps: nothing in the pool overflows the length prefix. */
    ghost predicate Short(validate: bool)
      reads this
    {
      validate ==> forall s :: s in offsets ==> |s| <= MAX_U16
    }

    constructor ()
      ensures Model() == EMPTY_POOL && Short(true)
    {
      bytes, offsets := [0, 0], map[[] := 0];
    }

    method AddString(s: Str, validate: bool) returns (r: Result<nat, EncodeError>)
      requires Short(validate)
      modifies this
      ensures Short(validate)
      ensures r.Err? <==> validate && |s| > MAX_U16
      ensures r.Err? ==> r.error == StringTooLong(|s|) && Model() == old(Model())
      ensures r.Ok? ==> Model() == Add(old(Model()), s) && s in offsets && r.value == offsets[s]
    {
      if s in offsets {
        return Ok(offsets[s]);
      }
      if validate && |s| > MAX_U16 {
        return Err(StringTooLong(|s|));
      }
      var off := |bytes| % U32;
      bytes := bytes + LeBytes(|s|, 2);
      bytes := bytes + s;
      offsets := offsets[s := off];
      r := Ok(off);
    }
  }

  // ----- how the loops grow what they have interned and written

  lemma {:induction false} FirstTooLongAppend(a: seq<Str>, b: seq<Str>)
    ensures FirstTooLong(a + b) == if FirstTooLong(a).Some? then FirstTooLong(a) else FirstTooLong(b)
  {
    if a == [] {
      assert a + b == b;
    } else {
      assert (a + b)[1..] == a[1..] + b;
      FirstTooLongAppend(a[1..], b);
    }
  }

  lemma {:induction false} TripleStringsAppend(a: seq<Triple>, b: seq<Triple>)
    ensures TripleStrings(a + b) == TripleStrings(a) + TripleStrings(b)
  {
    if a == [] {
      assert a + b == b;
    } else {
      assert (a + b)[1..] == a[1..] + b;
      TripleStringsAppend(a[1..], b);
    }
  }

  lemma {:induction false} TriplesBlockAppend(m: map<Str, nat>, a: seq<Triple>, b: seq<Triple>)
    ensures TriplesBlock(m, a + b) == TriplesBlock(m, a) + TriplesBlock(m, b)
  {
    hide TripleBytes;
    if a == [] {
      assert a + b == b;
    } else {
      assert (a + b)[1..] == a[1..] + b;
      TriplesBlockAppend(m, a[1..], b);
    }
  }

  lemma {:induction false} CommandsBlockAppend(m: map<Str, nat>, a: seq<Command>, b: seq<Command>)
    ensures CommandsBlock(m, a + b) == CommandsBlock(m, a) + CommandsBlock(m, b)
  {
    hide CommandBytes;
    if a == [] {
      assert a + b == b;
    } else {
      assert (a + b)[1..] == a[1..] + b;
      CommandsBlockAppend(m, a[1..], b);
    }
  }

  /** State of the interning loops after the strings `done`. */
  ghost predicate Interned(p: Pool, done: seq<Str>, validate: bool) {
    && p == AddAll(EMPTY_POOL, done)
    && (validate ==> FirstTooLong(done).None?)
  }

  lemma InternStep(p: Pool, done: seq<Str>, s: Str, validate: bool)
    requires Interned(p, done, validate) && (validate ==> |s| <= MAX_U16)
    ensures Interned(Add(p, s), done + [s], validate)
  {
    hide Add;
    AddAllAppend(EMPTY_POOL, done, [s]);
    assert AddAll(p, [s]) == AddAll(Add(p, s), [s][1..]);
    FirstTooLongAppend(done, [s]);
  }

  /** Interning one more string after `done`. */
  method Intern(pool: StringPool, ghost done: seq<Str>, s: Str, validate: bool) returns (r: Result<nat, EncodeError>)
    requires pool.Short(validate) && Interned(pool.Model(), done, validate)
    modifies pool
    ensures pool.Short(validate) && Kept(old(pool.offsets), pool.offsets)
    ensures r.Ok? ==> Interned(pool.Model(), done + [s], validate) && s in pool.offsets && r.value == pool.offsets[s]
    ensures r.Err? ==> validate && FirstTooLong(done + [s]) == Some(|s|) && r.error == StringTooLong(|s|)
  {
    hide FirstTooLong, AddAll;
    r := pool.AddString(s, validate);
    if r.Ok? {
      InternStep(old(pool.Model()), done, s, validate);
    } else {
      FirstTooLongAppend(done, [s]);
      assert FirstTooLong([s]) == Some(|s|) by { SingleTooLong(s); }
    }
  }

  lemma SingleTooLong(s: Str)
    requires |s| > MAX_U16
    ensures FirstTooLong([s]) == Some(|s|)
  {
  }

  /** Offsets already handed out stay valid. */
  ghost predicate Kept(before: map<Str, nat>, after: map<Str, nat>) {
    forall s :: s in before ==> s in after && after[s] == before[s]
  }

  method InternTriple(pool: StringPool, ghost done: seq<Str>, t: Triple, validate: bool)
    returns (r: Result<(nat, nat, nat), EncodeError>)
    requires pool.Short(validate) && Interned(pool.Model(), done, validate)
    modifies pool
    ensures pool.Short(validate) && Kept(old(pool.offsets), pool.offsets)
    ensures r.Ok? ==>
      && Interned(pool.Model(), done + [t.0, t.1, t.2], validate)
      && TripleOffsets(pool.offsets, t, r.value)
    ensures r.Err? ==> validate && FirstTooLong(done + [t.0, t.1, t.2]).Some?
    ensures r.Err? ==> r.error == StringTooLong(FirstTooLong(done + [t.0, t.1, t.2]).value)
  {
    hide FirstTooLong, Interned;
    assert done + [t.0] + [t.1] + [t.2] == done + [t.0, t.1, t.2];
    FirstTooLongAppend(done + [t.0] + [t.1], [t.2]);
    FirstTooLongAppend(done + [t.0], [t.1]);
    var s := Intern(pool, done, t.0, validate);
    if s.Err? { return Err(s.error); }
    var p := Intern(pool, done + [t.0], t.1, validate);
    if p.Err? { return Err(p.error); }
    var o := Intern(pool, done + [t.0] + [t.1], t.2, validate);
    if o.Err? { return Err(o.error); }
    r := Ok((s.value, p.value, o.value));
  }

  ghost predicate TripleOffsets(m: map<Str, nat>, t: Triple, offs: (nat, nat, nat)) {
    && t.0 in m && t.1 in m && t.2 in m
    && offs == (m[t.0], m[t.1], m[t.2])
  }

  /** The recorded offsets of a prefix of the triples or commands. */
  ghost predicate TriplesRecorded(m: map<Str, nat>, ts: seq<Triple>, offs: seq<(nat, nat, nat)>) {
    |offs| <= |ts| && forall k :: 0 <= k < |offs| ==> TripleOffsets(m, ts[k], offs[k])
  }

  ghost predicate ContentsRecorded(m: map<Str, nat>, cs: seq<Command>, offs: seq<nat>) {
    |offs| <= |cs| && forall k :: 0 <= k < |offs| ==> cs[k].content in m && offs[k] == m[cs[k].content]
  }

  /** The first too-long string of a document is met at the first failing prefix. */
  lemma FailsEarly(d: Doc, prefix: seq<Str>, rest: seq<Str>)
    requires Strings(d) == prefix + rest && FirstTooLong(prefix).Some?
    ensures FirstTooLong(Strings(d)) == FirstTooLong(prefix)
  {
    FirstTooLongAppend(prefix, rest);
  }

  lemma TriplePrefix(d: Doc, i: nat)
    requires i < |d.triples|
    ensures var t := d.triples[i];
            && TripleStrings(d.triples[..i + 1]) == TripleStrings(d.triples[..i]) + [t.0, t.1, t.2]
            && Strings(d) == TripleStrings(d.triples[..i + 1])
                             + (TripleStrings(d.triples[i + 1..]) + Contents(d.commands))
  {
    hide Contents;
    var ts := d.triples;
    assert ts[..i + 1] == ts[..i] + [ts[i]] && ts == ts[..i + 1] + ts[i + 1..];
    TripleStringsAppend(ts[..i], [ts[i]]);
    TripleStringsAppend(ts[..i + 1], ts[i + 1..]);
    assert TripleStrings([ts[i]]) == [ts[i].0, ts[i].1, ts[i].2] + TripleStrings([ts[i]][1..]);
  }

  lemma ContentPrefix(d: Doc, j: nat)
    requires j < |d.commands|
    ensures Contents(d.commands[..j + 1]) == Contents(d.commands[..j]) + [d.commands[j].content]
    ensures Strings(d) == TripleStrings(d.triples) + Contents(d.commands[..j + 1]) + Contents(d.commands[j + 1..])
  {
    hide TripleStrings;
    assert Contents(d.commands) == Contents(d.commands[..j + 1]) + Contents(d.commands[j + 1..]);
  }

  /** The two interning loops: all strings of the document in order, or the first that is too long. */
  method InternAll(d: Doc, validate: bool)
    returns (r: Result<(seq<(nat, nat, nat)>, seq<nat>), EncodeError>, pool: StringPool)
    ensures r.Ok? ==>
      && Interned(pool.Model(), Strings(d), validate)
      && TriplesRecorded(pool.offsets, d.triples, r.value.0) && |r.value.0| == |d.triples|
      && ContentsRecorded(pool.offsets, d.commands, r.value.1) && |r.value.1| == |d.commands|
    ensures r.Err? ==> validate && FirstTooLong(Strings(d)).Some?
    ensures r.Err? ==> r.error == StringTooLong(FirstTooLong(Strings(d)).value)
  {
    hide FirstTooLong, Interned, Strings, TripleStrings, Contents, TripleOffsets;
    pool := new StringPool();
    StartInterning(d, validate);
    var tripleOffsets: seq<(nat, nat, nat)> := [];
    for i := 0 to |d.triples|
      invariant pool.Short(validate) && Interned(pool.Model(), TripleStrings(d.triples[..i]), validate)
      invariant |tripleOffsets| == i && TriplesRecorded(pool.offsets, d.triples, tripleOffsets)
      invariant fresh(pool)
    {
      TriplePrefix(d, i);
      label before:
      var offs := InternTriple(pool, TripleStrings(d.triples[..i]), d.triples[i], validate);
      if offs.Err? {
        FailsEarly(d, TripleStrings(d.triples[..i + 1]), TripleStrings(d.triples[i + 1..]) + Contents(d.commands));
        return Err(offs.error), pool;
      }
      KeptTriples(old@before(pool.offsets), pool.offsets, d.triples, tripleOffsets);
      tripleOffsets := tripleOffsets + [offs.value];
    }
    assert d.triples[..|d.triples|] == d.triples;
    var commandOffsets: seq<nat> := [];
    StartContents(d);
    for j := 0 to |d.commands|
      invariant pool.Short(validate)
      invariant Interned(pool.Model(), TripleStrings(d.triples) + Contents(d.commands[..j]), validate)
      invariant TriplesRecorded(pool.offsets, d.triples, tripleOffsets)
      invariant |commandOffsets| == j && ContentsRecorded(pool.offsets, d.commands, commandOffsets)
      invariant fresh(pool)
    {
      ContentPrefix(d, j);
      ghost var done := TripleStrings(d.triples) + Contents(d.commands[..j]);
      assert done + [d.commands[j].content] == TripleStrings(d.triples) + Contents(d.commands[..j + 1]);
      label before2:
      var off := Intern(pool, done, d.commands[j].content, validate);
      if off.Err? {
        FailsEarly(d, done + [d.commands[j].content], Contents(d.commands[j + 1..]));
        return Err(off.error), pool;
      }
      KeptTriples(old@before2(pool.offsets), pool.offsets, d.triples, tripleOffsets);
      commandOffsets := commandOffsets + [off.value];
    }
    AllContents(d);
    r := Ok((tripleOffsets, commandOffsets));
  }

  lemma StartInterning(d: Doc, validate: bool)
    ensures Interned(EMPTY_POOL, TripleStrings(d.triples[..0]), validate)
  {
  }

  lemma StartContents(d: Doc)
    ensures TripleStrings(d.triples) + Contents(d.commands[..0]) == TripleStrings(d.triples)
  {
  }

  lemma AllContents(d: Doc)
    ensures TripleStrings(d.triples) + Contents(d.commands[..|d.commands|]) == Strings(d)
  {
    assert d.commands[..|d.commands|] == d.commands;
  }

  lemma KeptTriples(before: map<Str, nat>, after: map<Str, nat>, ts: seq<Triple>, offs: seq<(nat, nat, nat)>)
    requires Kept(before, after) && TriplesRecorded(before, ts, offs)
    ensures TriplesRecorded(after, ts, offs)
  {
  }

  // ----- writing

  /** The triples and commands blocks, written entry by entry from the recorded offsets. */
  method WriteBlocks(d: Doc, m: map<Str, nat>, tripleOffsets: seq<(nat, nat, nat)>, contentOffsets: seq<nat>)
    returns (buf: seq<Byte>)
    requires TriplesRecorded(m, d.triples, tripleOffsets) && |tripleOffsets| == |d.triples|
    requires ContentsRecorded(m, d.commands, contentOffsets) && |contentOffsets| == |d.commands|
    ensures buf == TriplesBlock(m, d.triples) + CommandsBlock(m, d.commands)
  {
    hide LeBytes, TriplesBlock, CommandsBlock;
    buf := [];
    BlocksStart(m);
    for i := 0 to |d.triples|
      invariant buf == TriplesBlock(m, d.triples[..i])
    {
      var (s, p, o) := tripleOffsets[i];
      TripleWritten(m, d.triples, i);
      buf := buf + (LeBytes(s, 4) + LeBytes(p, 4) + LeBytes(o, 4));
    }
    assert d.triples[..|d.triples|] == d.triples;
    ghost var triples := buf;
    assert buf == triples + CommandsBlock(m, d.commands[..0]);
    for j := 0 to |d.commands|
      invariant buf == triples + CommandsBlock(m, d.commands[..j])
    {
      var c := d.commands[j];
      CommandWritten(m, d.commands, j);
      buf := buf + ([c.kind] + LeBytes(c.color, 4) + LeBytes(c.x, 2) + LeBytes(c.y, 2) + LeBytes(c.w, 2)
                    + LeBytes(c.h, 2) + LeBytes(contentOffsets[j], 4) + [0]);
    }
    assert d.commands[..|d.commands|] == d.commands;
  }

  lemma BlocksStart(m: map<Str, nat>)
    ensures TriplesBlock(m, []) == [] && CommandsBlock(m, []) == []
  {
  }

  lemma TripleWritten(m: map<Str, nat>, ts: seq<Triple>, i: nat)
    requires i < |ts|
    ensures TriplesBlock(m, ts[..i + 1]) == TriplesBlock(m, ts[..i]) + TripleBytes(m, ts[i])
  {
    hide TripleBytes;
    assert ts[..i + 1] == ts[..i] + [ts[i]];
    TriplesBlockAppend(m, ts[..i], [ts[i]]);
    assert TriplesBlock(m, [ts[i]]) == TripleBytes(m, ts[i]) + TriplesBlock(m, [ts[i]][1..]);
  }

  lemma CommandWritten(m: map<Str, nat>, cs: seq<Command>, j: nat)
    requires j < |cs|
    ensures CommandsBlock(m, cs[..j + 1]) == CommandsBlock(m, cs[..j]) + CommandBytes(m, cs[j])
  {
    hide CommandBytes;
    assert cs[..j + 1] == cs[..j] + [cs[j]];
    CommandsBlockAppend(m, cs[..j], [cs[j]]);
    assert CommandsBlock(m, [cs[j]]) == CommandBytes(m, cs[j]) + CommandsBlock(m, [cs[j]][1..]);
  }

  /** `encode_portable`, as the source runs it. */
  method EncodePortable(h: Hash, d: Doc, validate: bool) returns (r: Result<seq<Byte>, EncodeError>)
    ensures r == Encode(h, d, validate)
  {
    hide LeBytes, Strings, TriplesBlock, CommandsBlock, FirstTooLong, AddAll, Root;
    if validate && |d.commands| > MAX_U16 {
      return Err(TooManyCommands(|d.commands|));
    }
    var offs, pool := InternAll(d, validate);
    if offs.Err? {
      return Err(offs.error);
    }
    var start := PORTABLE_HEADER_LEN + 12 * |d.triples| + 18 * |d.commands|;
    if validate && start > MAX_U16 {
      return Err(PoolOffsetTooLarge(start));
    }
    var root := MerkleRoot(h, Digests(h, Leaves(d.triples)));
    var header := LeBytes(NDA_MAGIC, 4) + LeBytes(0, 4) + root
                  + LeBytes(|d.triples|, 4) + LeBytes(|d.commands|, 2) + LeBytes(start, 2);
    var blocks := WriteBlocks(d, pool.offsets, offs.value.0, offs.value.1);
    r := Ok(header + blocks + pool.bytes);
    LayoutParts(h, d, header, blocks);
  }

  lemma LayoutParts(h: Hash, d: Doc, header: seq<Byte>, blocks: seq<Byte>)
    requires header == Header(h, d)
    requires blocks == TriplesBlock(BuildPool(d).offsets, d.triples) + CommandsBlock(BuildPool(d).offsets, d.commands)
    ensures header + blocks + BuildPool(d).bytes == Layout(h, d)
  {
    hide Header, BuildPool, TriplesBlock, CommandsBlock;
  }

  // ----- reading

  function Prepend<T, E>(xs: seq<T>, r: Result<seq<T>, E>): Result<seq<T>, E> {
    if r.Err? then r else Ok(xs + r.value)
  }

  method DecodeTriples(bytes: seq<Byte>, pool: seq<Byte>, count: nat) returns (r: Result<seq<Triple>, DecodeError>)
    ensures r == ReadTriples(bytes, pool, PORTABLE_HEADER_LEN, count)
  {
    hide ReadTriple;
    var triples: seq<Triple> := [];
    ghost var all := ReadTriples(bytes, pool, PORTABLE_HEADER_LEN, count);
    var off := PORTABLE_HEADER_LEN;
    assert all.Ok? ==> [] + all.value == all.value;
    for i := 0 to count
      invariant off == PORTABLE_HEADER_LEN + 12 * i
      invariant all == Prepend(triples, ReadTriples(bytes, pool, off, count - i))
    {
      var t := ReadTriple(bytes, pool, off);
      if t.Err? {
        return Err(t.error);
      }
      ghost var rest := ReadTriples(bytes, pool, off + 12, count - i - 1);
      assert rest.Ok? ==> triples + ([t.value] + rest.value) == triples + [t.value] + rest.value;
      triples := triples + [t.value];
      off := off + 12;
    }
    assert triples + [] == triples;
    r := Ok(triples);
  }

  method DecodeCommands(bytes: seq<Byte>, pool: seq<Byte>, start: nat, count: nat)
    returns (r: Result<seq<Command>, DecodeError>)
    ensures r == ReadCommands(bytes, pool, start, count)
  {
    hide ReadCommand;
    var commands: seq<Command> := [];
    ghost var all := ReadCommands(bytes, pool, start, count);
    var off := start;
    assert all.Ok? ==> [] + all.value == all.value;
    for i := 0 to count
      invariant off == start + 18 * i
      invariant all == Prepend(commands, ReadCommands(bytes, pool, off, count - i))
    {
      var c := ReadCommand(bytes, pool, off);
      if c.Err? {
        return Err(c.error);
      }
      ghost var rest := ReadCommands(bytes, pool, off + 18, count - i - 1);
      assert rest.Ok? ==> commands + ([c.value] + rest.value) == commands + [c.value] + rest.value;
      commands := commands + [c.value];
      off := off + 18;
    }
    assert commands + [] == commands;
    r := Ok(commands);
  }

  /** `from_portable_bytes`, as the source runs it. */
  method DecodePortable(h: Hash, bytes: seq<Byte>) returns (r: Result<Doc, DecodeError>)
    ensures r == Decode(h, bytes)
  {
    hide ReadTriples, ReadCommands, ReadWord16, ReadWord32, Root;
    if |bytes| < PORTABLE_HEADER_LEN {
      return Err(SmallerThanHeader);
    }
    if ReadWord32(bytes, 0) != NDA_MAGIC {
      return Err(BadMagic);
    }
    if ReadWord32(bytes, 4) != 0 {
      return Err(NotPortable);
    }
    var count: nat, commandCount: nat, start: nat := ReadWord32(bytes, 40), ReadWord16(bytes, 44), ReadWord16(bytes, 46);
    if start > |bytes| {
      return Err(PoolOutOfBounds);
    }
    var triples := DecodeTriples(bytes, bytes[start..], count);
    if triples.Err? {
      return Err(triples.error);
    }
    var commands := DecodeCommands(bytes, bytes[start..], PORTABLE_HEADER_LEN + 12 * count, commandCount);
    if commands.Err? {
      return Err(commands.error);
    }
    var root := MerkleRoot(h, Digests(h, Leaves(triples.value)));
    if root != bytes[8..40] {
      return Err(MerkleMismatch);
    }
    r := Ok(Doc(triples.value, commands.value));
  }

  /** Encoding and decoding in sequence: the checked encoder never loses or alters anything it accepts. */
  method Transport(h: Hash, d: Doc) returns (r: Result<Doc, EncodeError>)
    requires WellFormed(d)
    ensures if Fits(d) then r == Ok(d) else r.Err?
  {
    AcceptedIffFits(h, d);
    var bytes := EncodePortable(h, d, true);
    if bytes.Err? {
      return Err(bytes.error);
    }
    RoundTrip(h, d);
    var back := DecodePortable(h, bytes.value);
    r := Ok(back.value);
  }

  /** A buffer that decodes carries its document's root, so another document under it is a collision. */
  lemma AcceptedBindsTriples(h: Hash, a: seq<Byte>, b: seq<Byte>)
    requires Decode(h, a).Ok? && Decode(h, b).Ok? && a[8..44] == b[8..44]
    requires var ts := Decode(h, a).value.triples; forall i :: 0 <= i < |ts| ==> Separable(ts[i])
    requires var us := Decode(h, b).value.triples; forall i :: 0 <= i < |us| ==> Separable(us[i])
    ensures var ts, us := Decode(h, a).value.triples, Decode(h, b).value.triples;
            ts == us || TreesCollide(h, ts, us)
  {
    hide ReadTriple, ReadCommands, TriplesRoot, ReadWord16, TreesCollide;
    var ts, us := Decode(h, a).value.triples, Decode(h, b).value.triples;
    ReadCount(a, a[ReadWord16(a, 46)..], PORTABLE_HEADER_LEN, ReadWord32(a, 40));
    ReadCount(b, b[ReadWord16(b, 46)..], PORTABLE_HEADER_LEN, ReadWord32(b, 40));
    assert a[40..44] == a[8..44][32..] && b[40..44] == b[8..44][32..];
    assert a[8..40] == a[8..44][..32] && b[8..40] == b[8..44][..32];
    RootBindsTriples(h, ts, us);
  }

  lemma {:induction false} ReadCount(bytes: seq<Byte>, pool: seq<Byte>, off: nat, n: nat)
    ensures var r := ReadTriples(bytes, pool, off, n); r.Ok? ==> |r.value| == n
    decreases n
  {
    hide ReadTriple;
    if n > 0 {
      ReadCount(bytes, pool, off + 12, n - 1);
    }
  }
}
