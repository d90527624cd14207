/**
 Whole attachments: any split of the bytes into writes yields the same chunks, as many as the manifest
 announces, and decrypting them in order gives the bytes back.
 */
module StreamingRuns {
  import opened Arithmetic
  import opened LittleEndian
  import opened Outcomes
  import opened Streaming

  // ----- The size relation of a manifest -----

  const U64_MODULUS := 0x1_0000_0000_0000_0000

  function CeilDiv(n: nat, size: nat): nat
    requires size > 0
  {
    n / size + if n % size == 0 then 0 else 1
  }

  function CheckSizes(total: nat, size: nat, count: nat): Result<()> {
    if total == 0 then Err(InvalidInput("Attachment total_size must be > 0"))
    else if size == 0 || size > MAX_ATTACHMENT_CHUNK_SIZE then Err(InvalidInput("Attachment chunk_size is out of range"))
    else if count == 0 || count > MAX_ATTACHMENT_CHUNK_COUNT then Err(InvalidInput("chunk_count is out of range"))
    else if (count - 1) * size >= U64_MODULUS || count * size >= U64_MODULUS then Err(InvalidInput("Attachment size overflow"))
    else if total <= (count - 1) * size || total > count * size then
      Err(InvalidInput("Attachment total_size does not match chunk_size/chunk_count"))
    else Ok(())
  }

  lemma CeilUnique(total: nat, size: nat, count: nat)
    requires size > 0 && count > 0
    ensures (count - 1) * size < total <= count * size <==> total > 0 && CeilDiv(total, size) == count
  {
    var q, r := total / size, total % size;
    assert total == size * q + r;
    assert count * size == (count - 1) * size + size;
    if q + 1 < count {
      ProductGap(size, q + 1, count);
    }
    if count < q {
      ProductGap(size, count, q);
    }
    if q < count - 1 {
      ProductGap(size, q, count - 1);
    }
  }

  lemma NoOverflow(size: nat, count: nat)
    requires size <= MAX_ATTACHMENT_CHUNK_SIZE && count <= MAX_ATTACHMENT_CHUNK_COUNT
    ensures count * size < U64_MODULUS
  {
    if size < MAX_ATTACHMENT_CHUNK_SIZE {
      ProductGap(count, size, MAX_ATTACHMENT_CHUNK_SIZE);
    }
    assert count * size <= count * MAX_ATTACHMENT_CHUNK_SIZE;
    assert count * MAX_ATTACHMENT_CHUNK_SIZE < U64_MODULUS;
  }

  /** A manifest's sizes are accepted exactly when they are in range and the count is the ceiling. */
  lemma AcceptedSizes(total: nat, size: nat, count: nat)
    ensures CheckSizes(total, size, count).Ok? <==>
            && total > 0 && 0 < size <= MAX_ATTACHMENT_CHUNK_SIZE && 0 < count <= MAX_ATTACHMENT_CHUNK_COUNT
            && count == CeilDiv(total, size)
  {
    if 0 < size <= MAX_ATTACHMENT_CHUNK_SIZE && 0 < count <= MAX_ATTACHMENT_CHUNK_COUNT {
      CeilUnique(total, size, count);
      NoOverflow(size, count);
      assert count * size == (count - 1) * size + size;
    }
  }

  // ----- The chunks of a byte string -----

  /** The reference: cut off full chunks from the front until at most one chunk is left. */
  ghost function Cut(file: File, data: Bytes, start: nat): seq<Chunk>
    requires file.chunkSize > 0
    decreases |data|
  {
    if data == [] then []
    else if |data| <= file.chunkSize then [Sealed(file, start, data)]
    else [Sealed(file, start, data[..file.chunkSize])] + Cut(file, data[file.chunkSize..], start + 1)
  }

  ghost function Last(file: File, index: nat, rest: Bytes): seq<Chunk> {
    if rest == [] then [] else [Sealed(file, index, rest)]
  }

  lemma {:induction false} PlainConcat(a: seq<Chunk>, b: seq<Chunk>)
    ensures Plain(a + b) == Plain(a) + Plain(b)
  {
    if b == [] {
      assert a + b == a;
    } else {
      assert (a + b)[..|a + b| - 1] == a + b[..|b| - 1];
      PlainConcat(a, b[..|b| - 1]);
    }
  }

  lemma PlainFirst(chunks: seq<Chunk>)
    requires chunks != []
    ensures Plain(chunks) == chunks[0].ciphertext.plaintext + Plain(chunks[1..])
  {
    assert chunks == [chunks[0]] + chunks[1..];
    PlainConcat([chunks[0]], chunks[1..]);
    assert [chunks[0]][..0] == [];
  }

  /** Full chunks followed by a shorter rest are the reference cut of what they carry. */
  lemma {:induction false} CutOfFullChunks(file: File, start: nat, chunks: seq<Chunk>, rest: Bytes)
    requires FullChunks(file, start, chunks) && |rest| < file.chunkSize
    ensures Cut(file, Plain(chunks) + rest, start) == chunks + Last(file, start + |chunks|, rest)
    decreases |chunks|
  {
    var data := Plain(chunks) + rest;
    if chunks == [] {
      assert data == rest;
    } else {
      var first := chunks[0].ciphertext.plaintext;
      PlainFirst(chunks);
      var left := Plain(chunks[1..]) + rest;
      assert data == first + left;
      assert FullChunks(file, start + 1, chunks[1..]);
      CutOfFullChunks(file, start + 1, chunks[1..], rest);
      assert chunks == [chunks[0]] + chunks[1..];
      assert data[..file.chunkSize] == first && data[file.chunkSize..] == left;
      if left == [] {
        assert data == first;
      }
    }
  }

  /** What a cut carries is what was cut. */
  lemma {:induction false} PlainOfCut(file: File, data: Bytes, start: nat)
    requires file.chunkSize > 0
    ensures Plain(Cut(file, data, start)) == data
    decreases |data|
  {
    if data != [] {
      var cut := Cut(file, data, start);
      PlainFirst(cut);
      if |data| <= file.chunkSize {
        assert cut[1..] == [];
      } else {
        assert cut[1..] == Cut(file, data[file.chunkSize..], start + 1);
        PlainOfCut(file, data[file.chunkSize..], start + 1);
        assert data == data[..file.chunkSize] + data[file.chunkSize..];
      }
    }
  }

  /** Consecutive nonempty chunks from `start` on. */
  ghost predicate Indexed(file: File, start: nat, chunks: seq<Chunk>) {
    forall j | 0 <= j < |chunks| ::
      && chunks[j] == Sealed(file, start + j, chunks[j].ciphertext.plaintext)
      && 0 < |chunks[j].ciphertext.plaintext| <= file.chunkSize
  }

  lemma IndexedPrepend(file: File, start: nat, first: Chunk, rest: seq<Chunk>)
    requires Indexed(file, start + 1, rest)
    requires first == Sealed(file, start, first.ciphertext.plaintext) && 0 < |first.ciphertext.plaintext| <= file.chunkSize
    ensures Indexed(file, start, [first] + rest)
  {
    var all := [first] + rest;
    forall j | 0 <= j < |all|
      ensures all[j] == Sealed(file, start + j, all[j].ciphertext.plaintext) && 0 < |all[j].ciphertext.plaintext| <= file.chunkSize
    {
      if j > 0 {
        assert all[j] == rest[j - 1];
      }
    }
  }

  lemma {:induction false} CutIsIndexed(file: File, data: Bytes, start: nat)
    requires file.chunkSize > 0
    ensures Indexed(file, start, Cut(file, data, start))
    decreases |data|
  {
    if |data| > file.chunkSize {
      var rest := Cut(file, data[file.chunkSize..], start + 1);
      CutIsIndexed(file, data[file.chunkSize..], start + 1);
      IndexedPrepend(file, start, Sealed(file, start, data[..file.chunkSize]), rest);
    }
  }

  // ----- Encrypting in any split -----

  function Concat(writes: seq<Bytes>): Bytes {
    if writes == [] then [] else Concat(writes[..|writes| - 1]) + writes[|writes| - 1]
  }

  lemma {:induction false} ConcatGrows(writes: seq<Bytes>, i: nat)
    requires i <= |writes|
    ensures |Concat(writes[..i])| <= |Concat(writes)|
    decreases |writes|
  {
    if i < |writes| {
      ConcatGrows(writes[..|writes| - 1], i);
      assert writes[..|writes| - 1][..i] == writes[..i];
    } else {
      assert writes[..i] == writes;
    }
  }

  const START := EncState(0, [])

  lemma MovesCompose(file: File, s: EncState, data: Bytes, chunks: seq<Chunk>, t: EncState, more: Bytes, next: seq<Chunk>, u: EncState)
    requires Moves(file, s, data, chunks, t) && Moves(file, t, more, next, u)
    ensures Moves(file, s, data + more, chunks + next, u)
  {
    PlainConcat(chunks, next);
    FullConcat(file, s.index, chunks, next);
    Reassociate(Plain(chunks), Plain(next), u.buffer);
    Reassociate(Plain(chunks), t.buffer, more);
    Reassociate(s.buffer, data, more);
  }

  lemma Reassociate(a: Bytes, b: Bytes, c: Bytes)
    ensures a + (b + c) == (a + b) + c
  {
  }

  lemma FullConcat(file: File, start: nat, a: seq<Chunk>, b: seq<Chunk>)
    requires FullChunks(file, start, a) && FullChunks(file, start + |a|, b)
    ensures FullChunks(file, start, a + b)
  {
    var c := a + b;
    forall j | 0 <= j < |c|
      ensures c[j] == Sealed(file, start + j, c[j].ciphertext.plaintext) && |c[j].ciphertext.plaintext| == file.chunkSize
    {
      assert c[j] == if j < |a| then a[j] else b[j - |a|];
    }
  }

  /** How far a state reached by `data` is along the budget. */
  lemma StateSizes(file: File, data: Bytes, chunks: seq<Chunk>, t: EncState)
    requires file.chunkSize > 0 && Moves(file, START, data, chunks, t) && |t.buffer| < file.chunkSize
    ensures t.index == |data| / file.chunkSize && |t.buffer| == |data| % file.chunkSize
    ensures CeilDiv(|data|, file.chunkSize) == t.index + if t.buffer == [] then 0 else 1
  {
    PlainLength(file, 0, chunks);
    assert |Plain(chunks) + t.buffer| == |[] + data| == |data|;
    ModulusUnique(|data|, file.chunkSize, |chunks|, |t.buffer|);
  }

  lemma FailedWriteIsTooLong(file: File, data: Bytes, chunks: seq<Chunk>, t: EncState, more: Bytes, total: nat)
    requires file.chunkSize > 0 && Moves(file, START, data, chunks, t) && |t.buffer| < file.chunkSize
    requires !WriteFits(file, t, more) && |data| + |more| <= total
    ensures CeilDiv(total, file.chunkSize) > file.chunkCount
  {
    StateSizes(file, data, chunks, t);
    var size, q := file.chunkSize, (|t.buffer| + |more|) / file.chunkSize;
    assert |t.buffer| + |more| == size * q + (|t.buffer| + |more|) % size;
    assert |data| == size * t.index + |t.buffer|;
    assert (t.index + q) * size == t.index * size + q * size;
    QuotientAtLeast(total, size, t.index + q);
  }

  /**
   A fresh encryptor over any list of writes: it succeeds exactly when the bytes make the announced
   number of chunks, and its chunks are the reference cut of the bytes, however they were split.
   */
  method EncryptAll(file: File, writes: seq<Bytes>) returns (r: Result<seq<Chunk>>)
    ensures r.Ok? <==>
            && GoodParameters(file) && file.totalSize > 0
            && CeilDiv(|Concat(writes)|, file.chunkSize) == file.chunkCount
    ensures r.Ok? ==> r.value == Cut(file, Concat(writes), 0)
  {
    var created := StreamingEncryptor.New(file);
    if created.Err? {
      return Err(created.error);
    }
    var encryptor := created.value;
    var chunks: seq<Chunk> := [];
    for i := 0 to |writes|
      invariant fresh(encryptor) && encryptor.Valid() && encryptor.file == file
      invariant Moves(file, START, Concat(writes[..i]), chunks, encryptor.State())
      invariant |encryptor.buffer| < file.chunkSize
    {
      ghost var before := encryptor.State();
      assert writes[..i + 1][..i] == writes[..i];
      ConcatGrows(writes, i + 1);
      var out, _, _ := encryptor.Write(writes[i]);
      if out.Err? {
        FailedWriteIsTooLong(file, Concat(writes[..i]), chunks, before, writes[i], |Concat(writes)|);
        return Err(out.error);
      }
      MovesCompose(file, START, Concat(writes[..i]), chunks, before, writes[i], out.value, encryptor.State());
      chunks := chunks + out.value;
    }
    assert writes[..|writes|] == writes;
    ghost var end := encryptor.State();
    StateSizes(file, Concat(writes), chunks, end);
    CutOfFullChunks(file, 0, chunks, end.buffer);
    assert Plain(chunks) + end.buffer == Concat(writes);
    var last := encryptor.Finish();
    if last.Err? {
      return Err(last.error);
    }
    return Ok(match last.value { case None => chunks case Some(chunk) => chunks + [chunk] });
  }

  // ----- Decrypting in order -----

  lemma {:induction false} CutCount(file: File, data: Bytes, start: nat)
    requires file.chunkSize > 0
    ensures |Cut(file, data, start)| == CeilDiv(|data|, file.chunkSize)
    decreases |data|
  {
    var size := file.chunkSize;
    if |data| > size {
      CutCount(file, data[size..], start + 1);
      SubtractModulus(|data|, size);
    } else if |data| == size {
      ModulusUnique(|data|, size, 1, 0);
    }
  }

  lemma PlainPrefix(chunks: seq<Chunk>, i: nat)
    requires i < |chunks|
    ensures Plain(chunks[..i + 1]) == Plain(chunks[..i]) + chunks[i].ciphertext.plaintext
  {
    assert chunks[..i + 1][..i] == chunks[..i];
  }

  /**
   A fresh decryptor over the chunks of `data`: every chunk is accepted, the plaintexts make up the
   data, and completion is reported at the last chunk and not before.
   */
  method DecryptAll(file: File, chunks: seq<Chunk>, ghost data: Bytes) returns (plain: Bytes, complete: seq<bool>)
    requires GoodParameters(file) && chunks == Cut(file, data, 0) && |chunks| == file.chunkCount
    ensures plain == data
    ensures |complete| == |chunks| && forall i | 0 <= i < |chunks| :: complete[i] <==> i == |chunks| - 1
  {
    var decryptor := new StreamingDecryptor(file);
    plain, complete := [], [];
    CutIsIndexed(file, data, 0);
    for i := 0 to |chunks|
      invariant decryptor.file == file && decryptor.next == i && fresh(decryptor)
      invariant plain == Plain(chunks[..i])
      invariant |complete| == i && forall j | 0 <= j < i :: complete[j] <==> j == |chunks| - 1
    {
      var text := decryptor.DecryptNext(chunks[i]);
      PlainPrefix(chunks, i);
      plain := plain + text.value;
      complete := complete + [decryptor.IsComplete()];
    }
    assert chunks[..|chunks|] == chunks;
    PlainOfCut(file, data, 0);
  }

  /**
   For every accepted size triple and every split of that many bytes into writes: encryption succeeds
   with exactly the announced chunks, the same for every split, and decryption returns the bytes.
   */
  method RoundTrip(file: File, writes: seq<Bytes>) returns (chunks: seq<Chunk>, plain: Bytes, complete: seq<bool>)
    requires GoodParameters(file) && CheckSizes(file.totalSize, file.chunkSize, file.chunkCount).Ok?
    requires |Concat(writes)| == file.totalSize
    ensures chunks == Cut(file, Concat(writes), 0) && |chunks| == file.chunkCount
    ensures forall j | 0 <= j < |chunks| :: chunks[j].index == j
    ensures plain == Concat(writes)
    ensures |complete| == |chunks| && forall i | 0 <= i < |chunks| :: complete[i] <==> i == |chunks| - 1
  {
    AcceptedSizes(file.totalSize, file.chunkSize, file.chunkCount);
    var encrypted := EncryptAll(file, writes);
    chunks := encrypted.value;
    CutCount(file, Concat(writes), 0);
    CutIsIndexed(file, Concat(writes), 0);
    plain, complete := DecryptAll(file, chunks, Concat(writes));
  }
}
