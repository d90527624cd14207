/**
 Attachment streaming: a buffering encryptor that cuts the written bytes into chunks of a fixed size,
 and a decryptor that takes the chunks back in order. Encryption is symbolic: a ciphertext holds the
 key, nonce and associated data it was made with, and opens only under the same ones.
 */
module Streaming {
  import opened Arithmetic
  import opened LittleEndian
  import opened Outcomes

  const ATTACHMENT_FILE_KEY_BYTES := 32
  const ATTACHMENT_ID_BYTES := 32
  const MAX_ATTACHMENT_CHUNK_SIZE := 1024 * 1024
  const MAX_ATTACHMENT_CHUNK_COUNT := 10 * 1024 * 1024 / 4
  const TAG_BYTES := 16

  /** The parameters both ends share; `mimeOk` is the verdict on the MIME type. */
  datatype File = File(key: Bytes, id: Bytes, mime: Bytes, mimeOk: bool, totalSize: nat, chunkSize: nat, chunkCount: nat)

  datatype Nonce = Nonce(key: Bytes, id: Bytes, index: nat)
  datatype Aad = Aad(id: Bytes, mime: Bytes, totalSize: nat, chunkSize: nat, index: nat, chunkCount: nat)
  datatype Ciphertext = Ciphertext(key: Bytes, nonce: Nonce, aad: Aad, plaintext: Bytes)
  datatype Chunk = Chunk(index: nat, nonce: Nonce, ciphertext: Ciphertext)

  ghost predicate GoodParameters(file: File) {
    && |file.key| == ATTACHMENT_FILE_KEY_BYTES && |file.id| == ATTACHMENT_ID_BYTES
    && 0 < file.chunkSize <= MAX_ATTACHMENT_CHUNK_SIZE && 0 < file.chunkCount && file.mimeOk
  }

  /** The checks that both constructors make. */
  method CheckParameters(file: File) returns (r: Result<()>)
    ensures r.Ok? <==> GoodParameters(file)
  {
    if |file.key| != ATTACHMENT_FILE_KEY_BYTES {
      return Err(InvalidInput("Attachment file key must be 32 bytes"));
    }
    if |file.id| != ATTACHMENT_ID_BYTES {
      return Err(InvalidInput("Attachment ID must be 32 bytes"));
    }
    if file.chunkSize == 0 || file.chunkSize > MAX_ATTACHMENT_CHUNK_SIZE {
      return Err(InvalidInput("Attachment chunk_size is out of range"));
    }
    if file.chunkCount == 0 {
      return Err(InvalidInput("Attachment chunk_count must be > 0"));
    }
    if !file.mimeOk {
      return Err(InvalidInput("Invalid MIME type"));
    }
    return Ok(());
  }

  function AadOf(file: File, index: nat): Aad {
    Aad(file.id, file.mime, file.totalSize, file.chunkSize, index, file.chunkCount)
  }

  /** The chunk that carries `plaintext` at `index`. */
  function Sealed(file: File, index: nat, plaintext: Bytes): Chunk {
    var nonce := Nonce(file.key, file.id, index);
    Chunk(index, nonce, Ciphertext(file.key, nonce, AadOf(file, index), plaintext))
  }

  function EncryptChunk(file: File, index: nat, plaintext: Bytes): (r: Result<Chunk>)
    ensures r.Ok? <==> 0 < |plaintext| <= file.chunkSize && |plaintext| <= MAX_ATTACHMENT_CHUNK_SIZE && index < file.chunkCount && file.mimeOk
    ensures r.Ok? ==> r.value == Sealed(file, index, plaintext)
  {
    if plaintext == [] then Err(InvalidInput("Attachment chunk plaintext is empty"))
    else if |plaintext| > file.chunkSize || |plaintext| > MAX_ATTACHMENT_CHUNK_SIZE then
      Err(InvalidInput("Attachment chunk plaintext is too large"))
    else if index >= file.chunkCount then Err(InvalidInput("Attachment chunk_index must be < chunk_count"))
    else if !file.mimeOk then Err(InvalidInput("Invalid MIME type"))
    else Ok(Sealed(file, index, plaintext))
  }

  function DecryptChunk(file: File, index: nat, nonce: Nonce, c: Ciphertext): Result<Bytes> {
    if index >= file.chunkCount then Err(InvalidInput("Attachment chunk_index must be < chunk_count"))
    else if |c.plaintext| + TAG_BYTES > file.chunkSize + TAG_BYTES then Err(InvalidInput("Attachment chunk ciphertext is too large"))
    else if !file.mimeOk then Err(InvalidInput("Invalid MIME type"))
    else if nonce != Nonce(file.key, file.id, index) then Err(InvalidInput("Attachment chunk nonce mismatch"))
    else if c.key != file.key || c.nonce != nonce || c.aad != AadOf(file, index) then Err(ProtocolError.Decode("Authentication failed"))
    else Ok(c.plaintext)
  }

  /**
   Of all triples of index, nonce and ciphertext, exactly the chunks sealed for this very file at this
   index open, and they open to what was sealed.
   */
  lemma OpensExactlyItsChunks(file: File, index: nat, nonce: Nonce, c: Ciphertext)
    ensures DecryptChunk(file, index, nonce, c).Ok? <==>
            && Chunk(index, nonce, c) == Sealed(file, index, c.plaintext)
            && index < file.chunkCount && |c.plaintext| <= file.chunkSize && file.mimeOk
    ensures DecryptChunk(file, index, nonce, c).Ok? ==> DecryptChunk(file, index, nonce, c).value == c.plaintext
  {
  }

  /** A chunk sealed for one file opens at no other index, and under no other file unless all parameters agree. */
  lemma OpensOnlyUnderItsFile(file: File, sealedAt: nat, plaintext: Bytes, file': File, index: nat)
    requires var chunk := Sealed(file, sealedAt, plaintext); DecryptChunk(file', index, chunk.nonce, chunk.ciphertext).Ok?
    ensures file'.key == file.key && file'.id == file.id && file'.mime == file.mime && index == sealedAt
    ensures file'.totalSize == file.totalSize && file'.chunkSize == file.chunkSize && file'.chunkCount == file.chunkCount
  {
  }

  /** Decryption under the same parameters opens exactly the chunk sealed at the index asked for. */
  lemma DecryptUndoesEncrypt(file: File, index: nat, sealedAt: nat, plaintext: Bytes)
    requires EncryptChunk(file, sealedAt, plaintext).Ok?
    ensures var chunk := EncryptChunk(file, sealedAt, plaintext).value;
            DecryptChunk(file, index, chunk.nonce, chunk.ciphertext).Ok? <==> index == sealedAt
    ensures var chunk := EncryptChunk(file, sealedAt, plaintext).value;
            DecryptChunk(file, sealedAt, chunk.nonce, chunk.ciphertext) == Ok(plaintext)
  {
  }

  // ----- The associated data as bytes -----

  /** The layout of the associated data after its fixed label. */
  function AadBytes(a: Aad): Bytes {
    a.id + Encode(a.totalSize, 8) + Encode(a.chunkSize, 4) + Encode(a.index, 4) + Encode(a.chunkCount, 4) + a.mime
  }

  /** An identifier of 32 bytes and numbers of the widths they are written with. */
  ghost predicate InRange(a: Aad) {
    && |a.id| == 32 && a.totalSize < 0x1_0000_0000_0000_0000
    && a.chunkSize < 0x1_0000_0000 && a.index < 0x1_0000_0000 && a.chunkCount < 0x1_0000_0000
  }

  lemma AadFields(a: Aad)
    requires InRange(a)
    ensures var bytes := AadBytes(a);
            && |bytes| >= 52 && bytes[..32] == a.id && LittleEndian.Decode(bytes[32..40]) == a.totalSize
            && LittleEndian.Decode(bytes[40..44]) == a.chunkSize && LittleEndian.Decode(bytes[44..48]) == a.index
            && LittleEndian.Decode(bytes[48..52]) == a.chunkCount && bytes[52..] == a.mime
  {
    var bytes := AadBytes(a);
    var total, size, index, count := Encode(a.totalSize, 8), Encode(a.chunkSize, 4), Encode(a.index, 4), Encode(a.chunkCount, 4);
    FieldsAt(a.id, total, size, index, count, a.mime);
    RoundTrip64(a.totalSize);
    RoundTrip32(a.chunkSize);
    RoundTrip32(a.index);
    RoundTrip32(a.chunkCount);
  }

  lemma FieldsAt(id: Bytes, total: Bytes, size: Bytes, index: Bytes, count: Bytes, mime: Bytes)
    requires |id| == 32 && |total| == 8 && |size| == |index| == |count| == 4
    ensures var bytes := id + total + size + index + count + mime;
            && |bytes| >= 52 && bytes[..32] == id && bytes[32..40] == total && bytes[40..44] == size
            && bytes[44..48] == index && bytes[48..52] == count && bytes[52..] == mime
  {
  }

  /** The bytes determine every field, although the MIME type is written without its length. */
  lemma AadBytesAreUnique(a: Aad, b: Aad)
    requires InRange(a) && InRange(b) && AadBytes(a) == AadBytes(b)
    ensures a == b
  {
    AadFields(a);
    AadFields(b);
  }

  // ----- The encryptor -----

  datatype EncState = EncState(index: nat, buffer: Bytes)

  /** At most one chunk is buffered, and a full buffer means the chunk budget is spent. */
  predicate Reachable(file: File, s: EncState) {
    && s.index <= file.chunkCount && |s.buffer| <= file.chunkSize
    && (|s.buffer| == file.chunkSize ==> s.index == file.chunkCount)
  }

  /** The plaintext that a list of chunks carries. */
  function Plain(chunks: seq<Chunk>): Bytes {
    if chunks == [] then [] else Plain(chunks[..|chunks| - 1]) + chunks[|chunks| - 1].ciphertext.plaintext
  }

  /** Consecutive full chunks from `start` on. */
  ghost predicate FullChunks(file: File, start: nat, chunks: seq<Chunk>) {
    forall j | 0 <= j < |chunks| ::
      && chunks[j] == Sealed(file, start + j, chunks[j].ciphertext.plaintext)
      && |chunks[j].ciphertext.plaintext| == file.chunkSize
  }

  lemma {:induction false} PlainLength(file: File, start: nat, chunks: seq<Chunk>)
    requires FullChunks(file, start, chunks)
    ensures |Plain(chunks)| == |chunks| * file.chunkSize
  {
    if chunks != [] {
      PlainLength(file, start, chunks[..|chunks| - 1]);
      assert |chunks| * file.chunkSize == (|chunks| - 1) * file.chunkSize + file.chunkSize;
    }
  }

  ghost predicate WriteFits(file: File, s: EncState, data: Bytes)
    requires file.chunkSize > 0
  {
    data == [] || s.index + (|s.buffer| + |data|) / file.chunkSize <= file.chunkCount
  }

  /** From `s` to `t`: what was buffered and written is what was given out and is buffered now. */
  ghost predicate Moves(file: File, s: EncState, data: Bytes, chunks: seq<Chunk>, t: EncState) {
    && FullChunks(file, s.index, chunks)
    && t.index == s.index + |chunks|
    && Plain(chunks) + t.buffer == s.buffer + data
  }

  class StreamingEncryptor {
    const file: File
    var index: nat
    var buffer: Bytes

    ghost function State(): EncState
      reads this
    {
      EncState(index, buffer)
    }

    ghost predicate Valid()
      reads this
    {
      GoodParameters(file) && Reachable(file, State())
    }

    constructor (file: File)
      requires GoodParameters(file)
      ensures Valid() && this.file == file && State() == EncState(0, [])
    {
      this.file, index, buffer := file, 0, [];
    }

    static method New(file: File) returns (r: Result<StreamingEncryptor>)
      ensures r.Ok? <==>
              && |file.key| == 32 && |file.id| == 32 && 0 < file.chunkSize <= 1048576
              && file.chunkCount > 0 && file.totalSize > 0 && file.mimeOk
      ensures r.Ok? ==> fresh(r.value) && r.value.Valid() && r.value.file == file && r.value.State() == EncState(0, [])
    {
      var checked := CheckParameters(file);
      if checked.Err? {
        return Err(checked.error);
      }
      if file.totalSize == 0 {
        return Err(InvalidInput("Attachment total_size must be > 0"));
      }
      var e := new StreamingEncryptor(file);
      return Ok(e);
    }

    method FlushBuffer() returns (r: Result<Chunk>)
      requires GoodParameters(file) && 0 < |buffer| <= file.chunkSize && index <= file.chunkCount
      modifies this
      ensures r.Ok? <==> old(index) < file.chunkCount
      ensures r.Ok? ==> r.value == Sealed(file, old(index), old(buffer)) && State() == EncState(old(index) + 1, [])
      ensures r.Err? ==> State() == old(State())
    {
      if index >= file.chunkCount {
        return Err(InvalidState("StreamingEncryptor: chunk_count exceeded"));
      }
      r := EncryptChunk(file, index, buffer);
      if r.Ok? {
        index := index + 1;
        buffer := [];
      }
    }

    /**
     Always returns. A failed write has taken in `taken` bytes and made the chunks `lost`, which it does
     not give out, and leaves a full buffer with the budget spent.
     */
    method Write(data: Bytes) returns (r: Result<seq<Chunk>>, ghost lost: seq<Chunk>, ghost taken: nat)
      requires Valid()
      modifies this
      ensures Valid()
      ensures r.Ok? <==> WriteFits(file, old(State()), data)
      ensures r.Ok? ==> Moves(file, old(State()), data, r.value, State())
      ensures r.Ok? && data != [] ==> |buffer| < file.chunkSize
      ensures r.Err? ==> index == file.chunkCount && |buffer| == file.chunkSize
      ensures r.Err? ==> taken <= |data| && Moves(file, old(State()), data[..taken], lost, State())
      // Chunks are lost exactly when the write does not fit and there was budget left to make some.
      ensures |lost| == if WriteFits(file, old(State()), data) then 0 else file.chunkCount - old(index)
    {
      lost, taken := [], 0;
      var result: seq<Chunk>, offset := [], 0;
      while offset < |data|
        invariant 0 <= offset <= |data| && Valid()
        invariant Moves(file, old(State()), data[..offset], result, State())
        invariant |buffer| < file.chunkSize || offset == 0
      {
        var toCopy := Least(file.chunkSize - |buffer|, |data| - offset);
        MovesCopied(file, old(State()), data, offset, toCopy, result, State());
        buffer := buffer + data[offset..offset + toCopy];
        offset := offset + toCopy;
        if |buffer| == file.chunkSize {
          ghost var filled := State();
          var chunk := FlushBuffer();
          if chunk.Err? {
            OverBudget(file, old(State()), data, offset, result, filled);
            return Err(chunk.error), result, offset;
          }
          MovesFlushed(file, old(State()), data[..offset], result, filled, chunk.value);
          result := result + [chunk.value];
        }
      }
      assert data[..offset] == data;
      WithinBudget(file, old(State()), data, result, State());
      return Ok(result), lost, taken;
    }

    /** Takes the rest of the buffer; succeeds exactly when that completes the announced chunks. */
    method Finish() returns (r: Result<Option<Chunk>>)
      requires Valid()
      modifies this
      ensures r.Ok? <==> old(index) + (if old(buffer) == [] then 0 else 1) == file.chunkCount
      ensures r.Ok? ==> r.value == if old(buffer) == [] then None else Some(Sealed(file, old(index), old(buffer)))
    {
      if buffer == [] {
        if index != file.chunkCount {
          return Err(InvalidState("StreamingEncryptor: not all chunks emitted"));
        }
        return Ok(None);
      }
      var chunk := FlushBuffer();
      if chunk.Err? {
        return Err(chunk.error);
      }
      if index != file.chunkCount {
        return Err(InvalidState("StreamingEncryptor: not all chunks emitted"));
      }
      return Ok(Some(chunk.value));
    }
  }

  // ----- The loop of a write, step by step -----

  lemma MovesCopied(file: File, s: EncState, data: Bytes, offset: nat, more: nat, chunks: seq<Chunk>, t: EncState)
    requires offset + more <= |data| && Moves(file, s, data[..offset], chunks, t)
    ensures Moves(file, s, data[..offset + more], chunks, t.(buffer := t.buffer + data[offset..offset + more]))
  {
    var copied := data[offset..offset + more];
    assert data[..offset + more] == data[..offset] + copied;
    assert Plain(chunks) + (t.buffer + copied) == (Plain(chunks) + t.buffer) + copied;
    assert s.buffer + (data[..offset] + copied) == (s.buffer + data[..offset]) + copied;
  }

  lemma MovesFlushed(file: File, s: EncState, data: Bytes, chunks: seq<Chunk>, t: EncState, chunk: Chunk)
    requires Moves(file, s, data, chunks, t)
    requires |t.buffer| == file.chunkSize && chunk == Sealed(file, t.index, t.buffer)
    ensures Moves(file, s, data, chunks + [chunk], EncState(t.index + 1, []))
  {
    assert (chunks + [chunk])[..|chunks|] == chunks;
  }

  lemma OverBudget(file: File, s: EncState, data: Bytes, offset: nat, chunks: seq<Chunk>, t: EncState)
    requires file.chunkSize > 0 && offset <= |data| && data != [] && Moves(file, s, data[..offset], chunks, t)
    requires |t.buffer| == file.chunkSize && t.index == file.chunkCount
    ensures !WriteFits(file, s, data)
  {
    PlainLength(file, s.index, chunks);
    var total, m := |s.buffer| + |data|, |chunks|;
    assert |Plain(chunks) + t.buffer| == |s.buffer + data[..offset]|;
    assert (m + 1) * file.chunkSize == m * file.chunkSize + file.chunkSize;
    QuotientAtLeast(total, file.chunkSize, m + 1);
  }

  /** With a full buffer every further nonempty write fails. */
  lemma FullBufferRefuses(file: File, s: EncState, data: Bytes)
    requires file.chunkSize > 0 && Reachable(file, s) && |s.buffer| == file.chunkSize && data != []
    ensures !WriteFits(file, s, data)
  {
    QuotientAtLeast(|s.buffer| + |data|, file.chunkSize, 1);
  }

  lemma QuotientAtLeast(n: nat, size: nat, q: nat)
    requires size > 0 && q * size <= n
    ensures n / size >= q
  {
    var r := n / size;
    assert n == size * r + n % size;
    if r < q {
      ProductGap(size, r, q);
    }
  }

  lemma WithinBudget(file: File, s: EncState, data: Bytes, chunks: seq<Chunk>, t: EncState)
    requires file.chunkSize > 0 && Moves(file, s, data, chunks, t) && t.index <= file.chunkCount
    requires |t.buffer| < file.chunkSize || data == []
    ensures WriteFits(file, s, data)
  {
    if data != [] {
      PlainLength(file, s.index, chunks);
      assert |Plain(chunks) + t.buffer| == |s.buffer + data|;
      ModulusUnique(|s.buffer| + |data|, file.chunkSize, |chunks|, |t.buffer|);
    }
  }

  /** Two bytes for one chunk of one byte: the first chunk is made, and neither returned nor kept. */
  method SecondByteLosesFirstChunk(file: File) returns (r: Result<seq<Chunk>>, ghost lost: seq<Chunk>, encryptor: StreamingEncryptor)
    requires GoodParameters(file) && file.chunkSize == 1 && file.chunkCount == 1
    ensures r.Err? && lost == [Sealed(file, 0, [7])]
    ensures fresh(encryptor) && encryptor.State() == EncState(1, [8])
  {
    encryptor := new StreamingEncryptor(file);
    ghost var taken;
    r, lost, taken := encryptor.Write([7, 8]);
    assert !WriteFits(file, EncState(0, []), [7, 8]);
    ghost var first := lost[0].ciphertext.plaintext;
    assert lost[..0] == [] && Plain(lost) == [] + first == first;
    assert |first + encryptor.buffer| == |[] + [7, 8][..taken]| == taken;
    assert first + encryptor.buffer == [7, 8];
    assert first == (first + encryptor.buffer)[..1] == [7] && encryptor.buffer == (first + encryptor.buffer)[1..] == [8];
    assert lost == [lost[0]];
  }

  // ----- The decryptor -----

  class StreamingDecryptor {
    const file: File
    var next: nat

    constructor (file: File)
      ensures this.file == file && next == 0
    {
      this.file, next := file, 0;
    }

    static method New(file: File) returns (r: Result<StreamingDecryptor>)
      ensures r.Ok? <==>
              && |file.key| == 32 && |file.id| == 32 && 0 < file.chunkSize <= 1048576 && file.chunkCount > 0 && file.mimeOk
      ensures r.Ok? ==> fresh(r.value) && r.value.file == file && r.value.next == 0
    {
      var checked := CheckParameters(file);
      if checked.Err? {
        return Err(checked.error);
      }
      var d := new StreamingDecryptor(file);
      return Ok(d);
    }

    method DecryptNext(chunk: Chunk) returns (r: Result<Bytes>)
      modifies this
      ensures r.Ok? <==>
              && chunk == Sealed(file, old(next), chunk.ciphertext.plaintext)
              && old(next) < file.chunkCount && |chunk.ciphertext.plaintext| <= file.chunkSize && file.mimeOk
      ensures r.Ok? ==> r.value == chunk.ciphertext.plaintext
      ensures next == old(next) + if r.Ok? then 1 else 0
    {
      if chunk.index != next {
        return Err(InvalidInput("StreamingDecryptor: out-of-order chunk"));
      }
      OpensExactlyItsChunks(file, chunk.index, chunk.nonce, chunk.ciphertext);
      r := DecryptChunk(file, chunk.index, chunk.nonce, chunk.ciphertext);
      if r.Ok? {
        next := next + 1;
      }
    }

    predicate IsComplete()
      reads this
    {
      next >= file.chunkCount
    }
  }
}
