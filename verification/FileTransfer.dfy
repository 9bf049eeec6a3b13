/** Chunked file transfer: completeness by counting, and reassembly. */
module FileTransfer {
  import opened Bytes

  type Chunk = seq<Byte>

  datatype Missing = Missing(index: nat)

  /** Chunks are only ever accepted below the announced total. */
  ghost predicate InRange(chunks: map<Word32, Chunk>, total: nat) {
    forall i :: i in chunks ==> i < total
  }

  /** `receive_chunk`, as a map: a repeated index keeps the last data. */
  function Receive(chunks: map<Word32, Chunk>, total: nat, index: Word32, data: Chunk): map<Word32, Chunk> {
    if index < total then chunks[index := data] else chunks
  }

  /** The missing indices below `n`. */
  function MissingBelow(chunks: map<Word32, Chunk>, n: Word32): seq<Word32> {
    if n == 0 then [] else MissingBelow(chunks, n - 1) + if n - 1 in chunks then [] else [n - 1]
  }

  function Assembled(chunks: map<Word32, Chunk>, n: Word32): Result<seq<Byte>, Missing> {
    if n == 0 then Ok([])
    else
      match Assembled(chunks, n - 1)
      case Err(e) => Err(e)
      case Ok(front) => if n - 1 in chunks then Ok(front + chunks[n - 1]) else Err(Missing(n - 1))
  }

  // ----- counting is enough

  lemma {:induction false} Below(n: nat) returns (s: set<nat>)
    ensures |s| == n && forall i: nat :: i in s <==> i < n
  {
    if n == 0 {
      s := {};
    } else {
      var t := Below(n - 1);
      s := t + {n - 1};
    }
  }

  lemma SubsetSize(a: set<nat>, b: set<nat>)
    requires a <= b
    ensures |a| <= |b| && (|a| == |b| ==> a == b)
  {
    assert b == a + (b - a) && |b| == |a| + |b - a|;
  }

  function KeySet(chunks: map<Word32, Chunk>): set<nat> {
    set i | i in chunks :: i as nat
  }

  lemma KeySetSize(chunks: map<Word32, Chunk>)
    ensures |KeySet(chunks)| == |chunks|
    decreases |chunks|
  {
    if chunks == map[] {
      assert KeySet(chunks) == {};
    } else {
      var i :| i in chunks;
      var rest := chunks - {i};
      assert chunks.Keys == rest.Keys + {i};
      assert KeySet(chunks) == KeySet(rest) + {i as nat};
      KeySetSize(rest);
    }
  }

  lemma AllPresentFills(chunks: map<Word32, Chunk>, total: Word32, all: set<nat>)
    requires (forall n: nat :: n in all <==> n < total) && forall i: Word32 :: i < total ==> i in chunks
    ensures all <= KeySet(chunks)
  {
    forall n | n in all ensures n in KeySet(chunks) {
      var i: Word32 := n;
      assert i in chunks;
    }
  }

  lemma FilledHasAll(chunks: map<Word32, Chunk>, total: Word32, all: set<nat>)
    requires (forall n: nat :: n in all <==> n < total) && all <= KeySet(chunks)
    ensures forall i: Word32 :: i < total ==> i in chunks
  {
    forall i: Word32 | i < total ensures i in chunks { assert i as nat in all; }
  }

  /** As many chunks as announced, all in range, can only be all of them. */
  lemma CountIsComplete(chunks: map<Word32, Chunk>, total: Word32)
    requires InRange(chunks, total)
    ensures |chunks| <= total
    ensures |chunks| >= total <==> forall i: Word32 :: i < total ==> i in chunks
  {
    KeySetSize(chunks);
    var all := Below(total);
    assert KeySet(chunks) <= all;
    hide KeySet;
    SubsetSize(KeySet(chunks), all);
    if |chunks| >= total {
      FilledHasAll(chunks, total, all);
    } else if forall i: Word32 :: i < total ==> i in chunks {
      AllPresentFills(chunks, total, all);
      SubsetSize(all, KeySet(chunks));
    }
  }

  lemma {:induction false} NoneMissing(chunks: map<Word32, Chunk>, n: Word32)
    ensures MissingBelow(chunks, n) == [] <==> forall i: Word32 :: i < n ==> i in chunks
    ensures Assembled(chunks, n).Ok? <==> forall i: Word32 :: i < n ==> i in chunks
  {
    if n > 0 {
      NoneMissing(chunks, n - 1);
    }
  }

  /** The missing indices, each once and ascending. */
  lemma {:induction false} MissingIs(chunks: map<Word32, Chunk>, n: Word32)
    ensures forall i: Word32 :: i in MissingBelow(chunks, n) <==> i < n && i !in chunks
    ensures forall j, k :: 0 <= j < k < |MissingBelow(chunks, n)| ==> MissingBelow(chunks, n)[j] < MissingBelow(chunks, n)[k]
  {
    if n > 0 {
      MissingIs(chunks, n - 1);
      var front := MissingBelow(chunks, n - 1);
      forall k | 0 <= k < |front| ensures front[k] < n - 1 {
        var i := front[k];
        assert i in front;
      }
    }
  }

  /** The failure `assemble` reports is the first missing index. */
  lemma {:induction false} FirstMissing(chunks: map<Word32, Chunk>, n: Word32)
    ensures match Assembled(chunks, n)
            case Ok(_) => MissingBelow(chunks, n) == []
            case Err(e) => MissingBelow(chunks, n) != [] && MissingBelow(chunks, n)[0] == e.index
  {
    if n > 0 {
      FirstMissing(chunks, n - 1);
    }
  }

  // ----- whole transfers

  /** Deliver calls in order, as (index, data). */
  function ReceiveAll(chunks: map<Word32, Chunk>, total: nat, calls: seq<(Word32, Chunk)>): map<Word32, Chunk>
    decreases |calls|
  {
    if calls == [] then chunks
    else ReceiveAll(Receive(chunks, total, calls[0].0, calls[0].1), total, calls[1..])
  }

  /** The data of the last call for an index. */
  function LastData(calls: seq<(Word32, Chunk)>, i: Word32): Option<Chunk> {
    if calls == [] then None
    else if calls[|calls| - 1].0 == i then Some(calls[|calls| - 1].1)
    else LastData(calls[..|calls| - 1], i)
  }

  lemma {:induction false} ReceiveAllSnoc(chunks: map<Word32, Chunk>, total: nat, calls: seq<(Word32, Chunk)>)
    requires calls != []
    ensures var last := calls[|calls| - 1];
            ReceiveAll(chunks, total, calls)
            == Receive(ReceiveAll(chunks, total, calls[..|calls| - 1]), total, last.0, last.1)
    decreases |calls|
  {
    if |calls| == 1 {
      assert calls[..0] == [] && calls[1..] == [];
    } else {
      var next := Receive(chunks, total, calls[0].0, calls[0].1);
      ReceiveAllSnoc(next, total, calls[1..]);
      assert calls[1..][..|calls| - 2] == calls[..|calls| - 1][1..];
    }
  }

  /** After any calls, each index in range holds the data last sent for it. */
  lemma {:induction false} HoldsLastData(total: nat, calls: seq<(Word32, Chunk)>)
    ensures InRange(ReceiveAll(map[], total, calls), total)
    ensures forall i: Word32 :: i < total ==>
      LastData(calls, i) == (var m := ReceiveAll(map[], total, calls); if i in m then Some(m[i]) else None)
  {
    if calls != [] {
      ReceiveAllSnoc(map[], total, calls);
      HoldsLastData(total, calls[..|calls| - 1]);
    }
  }

  /** After any calls: complete, nothing missing, and assemblable are one and the same. */
  lemma CompleteIffAssembles(total: Word32, calls: seq<(Word32, Chunk)>)
    ensures var m := ReceiveAll(map[], total, calls);
            && (|m| >= total <==> MissingBelow(m, total) == [])
            && (|m| >= total <==> Assembled(m, total).Ok?)
  {
    hide MissingBelow, Assembled, ReceiveAll;
    var m := ReceiveAll(map[], total, calls);
    HoldsLastData(total, calls);
    CountIsComplete(m, total);
    NoneMissing(m, total);
  }

  function Concat(parts: seq<Chunk>): seq<Byte> {
    if parts == [] then [] else Concat(parts[..|parts| - 1]) + parts[|parts| - 1]
  }

  lemma {:induction false} AssemblesParts(m: map<Word32, Chunk>, parts: seq<Chunk>, n: Word32)
    requires n <= |parts| && forall i: Word32 :: i < n ==> i in m && m[i] == parts[i]
    ensures Assembled(m, n) == Ok(Concat(parts[..n]))
  {
    if n > 0 {
      AssemblesParts(m, parts, n - 1);
      assert parts[..n][..n - 1] == parts[..n - 1];
    }
  }

  ghost predicate Sent(calls: seq<(Word32, Chunk)>, i: Word32) {
    exists k :: 0 <= k < |calls| && calls[k].0 == i
  }

  /** Every call in range carries the right part, and every part is sent at least once. */
  ghost predicate Delivers(calls: seq<(Word32, Chunk)>, parts: seq<Chunk>) {
    && (forall k :: 0 <= k < |calls| && calls[k].0 < |parts| ==> calls[k].1 == parts[calls[k].0])
    && (forall i: Word32 :: i < |parts| ==> Sent(calls, i))
  }

  lemma {:induction false} LastDataIsPart(calls: seq<(Word32, Chunk)>, i: Word32, part: Chunk)
    requires forall k :: 0 <= k < |calls| && calls[k].0 == i ==> calls[k].1 == part
    ensures LastData(calls, i) == None || LastData(calls, i) == Some(part)
    ensures Sent(calls, i) ==> LastData(calls, i) == Some(part)
  {
    if calls != [] && calls[|calls| - 1].0 != i {
      LastDataIsPart(calls[..|calls| - 1], i, part);
      if k :| 0 <= k < |calls| && calls[k].0 == i {
        assert calls[..|calls| - 1][k].0 == i;
      }
    }
  }

  /** Any split of a file, delivered in any order with any repeats, reassembles to the file. */
  lemma AnyDeliveryReassembles(parts: seq<Chunk>, calls: seq<(Word32, Chunk)>)
    requires |parts| < U32 && Delivers(calls, parts)
    ensures Assembled(ReceiveAll(map[], |parts|, calls), |parts|) == Ok(Concat(parts))
  {
    hide Assembled, ReceiveAll, LastData, Concat;
    var m := ReceiveAll(map[], |parts|, calls);
    HoldsLastData(|parts|, calls);
    forall i: Word32 | i < |parts| ensures i in m && m[i] == parts[i] {
      LastDataIsPart(calls, i, parts[i]);
      assert Sent(calls, i);
      assert LastData(calls, i) == Some(parts[i]);
    }
    AssemblesParts(m, parts, |parts|);
    assert parts[..|parts|] == parts;
  }

  // ----- the object

  class Transfer {
    const totalChunks: Word32
    var chunks: map<Word32, Chunk>

    constructor (total: Word32)
      ensures totalChunks == total && chunks == map[] && InRange(chunks, totalChunks)
    {
      totalChunks := total;
      chunks := map[];
    }

    method ReceiveChunk(index: Word32, data: Chunk) returns (accepted: bool)
      requires InRange(chunks, totalChunks)
      modifies this
      ensures chunks == Receive(old(chunks), totalChunks, index, data) && InRange(chunks, totalChunks)
      ensures accepted <==> index < totalChunks
    {
      if index < totalChunks {
        chunks := chunks[index := data];
        accepted := true;
      } else {
        accepted := false;
      }
    }

    /** `chunks.len() as u32 >= total_chunks`: in range the cast never truncates. */
    method IsComplete() returns (complete: bool)
      requires InRange(chunks, totalChunks)
      ensures complete <==> MissingBelow(chunks, totalChunks) == []
    {
      hide MissingBelow;
      CountIsComplete(chunks, totalChunks);
      NoneMissing(chunks, totalChunks);
      complete := |chunks| % U32 >= totalChunks;
    }

    method MissingChunks() returns (missing: seq<Word32>)
      ensures missing == MissingBelow(chunks, totalChunks)
      ensures forall i: Word32 :: i in missing <==> i < totalChunks && i !in chunks
    {
      missing := [];
      var i: Word32 := 0;
      while i < totalChunks
        invariant i <= totalChunks && missing == MissingBelow(chunks, i)
      {
        if i !in chunks {
          missing := missing + [i];
        }
        i := i + 1;
      }
      MissingIs(chunks, totalChunks);
    }

    method Assemble() returns (r: Result<seq<Byte>, Missing>)
      ensures r == Assembled(chunks, totalChunks)
    {
      var parts: seq<Byte> := [];
      var i: Word32 := 0;
      while i < totalChunks
        invariant i <= totalChunks && Assembled(chunks, i) == Ok(parts)
      {
        if i !in chunks {
          StaysMissing(chunks, i, totalChunks);
          return Err(Missing(i));
        }
        parts := parts + chunks[i];
        i := i + 1;
      }
      r := Ok(parts);
    }
  }

  lemma {:induction false} StaysMissing(chunks: map<Word32, Chunk>, i: Word32, n: Word32)
    requires i < n && i !in chunks && Assembled(chunks, i).Ok?
    ensures Assembled(chunks, n) == Err(Missing(i))
  {
    if i + 1 < n {
      StaysMissing(chunks, i, n - 1);
    }
  }
}
