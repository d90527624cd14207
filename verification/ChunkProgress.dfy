/**
 Resumable transfers: a bitmap with one bit per chunk, refining the set of completed chunk indices.
 Completion is decided by counting set bits.
 */
module ChunkProgress {
  import opened Arithmetic
  import opened LittleEndian
  import opened Octets
  import opened Outcomes
  import opened Streaming

  const U64_MAX := 0xFFFF_FFFF_FFFF_FFFF

  // ----- Bits of a byte -----

  /** The byte 1 shifted left by `k`. */
  function Unit(k: nat): Octet
    requires k < 8
  {
    match k
    case 0 => 1 case 1 => 2 case 2 => 4 case 3 => 8
    case 4 => 16 case 5 => 32 case 6 => 64 case _ => 128
  }

  predicate Bit(b: Octet, k: nat)
    requires k < 8
  {
    b & Unit(k) != 0
  }

  lemma OrThenAnd(b: Octet, u: Octet, v: Octet)
    requires u & v == 0
    ensures (b | u) & v == b & v
  {
  }

  lemma OrThenSame(b: Octet, u: Octet)
    ensures (b | u) & u == u
  {
  }

  lemma UnitsDiffer(j: nat, k: nat)
    requires j < 8 && k < 8
    ensures Unit(j) != 0
    ensures j != k ==> Unit(j) & Unit(k) == 0
  {
  }

  lemma SetBit(b: Octet, k: nat, j: nat)
    requires j < 8 && k < 8
    ensures Bit(b | Unit(k), j) <==> Bit(b, j) || j == k
  {
    if j == k {
      SetSame(b, k);
    } else {
      SetOther(b, k, j);
    }
  }

  lemma SetSame(b: Octet, k: nat)
    requires k < 8
    ensures Bit(b | Unit(k), k)
  {
    UnitsDiffer(k, k);
    OrThenSame(b, Unit(k));
  }

  lemma SetOther(b: Octet, k: nat, j: nat)
    requires j < 8 && k < 8 && j != k
    ensures Bit(b | Unit(k), j) <==> Bit(b, j)
  {
    UnitsDiffer(k, j);
    OrThenAnd(b, Unit(k), Unit(j));
  }

  /** The complement of the `t` low bits. */
  function HighMask(t: nat): Octet
    requires 0 < t < 8
  {
    !(Unit(t) - 1)
  }

  lemma MaskTables(b: Octet)
    ensures b & 0xFE == 0 <==> b & 2 == 0 && b & 4 == 0 && b & 8 == 0 && b & 16 == 0 && b & 32 == 0 && b & 64 == 0 && b & 128 == 0
    ensures b & 0xFC == 0 <==> b & 4 == 0 && b & 8 == 0 && b & 16 == 0 && b & 32 == 0 && b & 64 == 0 && b & 128 == 0
    ensures b & 0xF8 == 0 <==> b & 8 == 0 && b & 16 == 0 && b & 32 == 0 && b & 64 == 0 && b & 128 == 0
    ensures b & 0xF0 == 0 <==> b & 16 == 0 && b & 32 == 0 && b & 64 == 0 && b & 128 == 0
    ensures b & 0xE0 == 0 <==> b & 32 == 0 && b & 64 == 0 && b & 128 == 0
    ensures b & 0xC0 == 0 <==> b & 64 == 0 && b & 128 == 0
    ensures b & 0x80 == 0 <==> b & 128 == 0
  {
  }

  lemma MaskValues()
    ensures HighMask(1) == 0xFE && HighMask(2) == 0xFC && HighMask(3) == 0xF8 && HighMask(4) == 0xF0
    ensures HighMask(5) == 0xE0 && HighMask(6) == 0xC0 && HighMask(7) == 0x80
  {
  }

  /** All bits from `t` on are clear. */
  predicate ClearFrom(b: Octet, t: nat)
    requires t <= 8
    decreases 8 - t
  {
    t == 8 || (!Bit(b, t) && ClearFrom(b, t + 1))
  }

  lemma ClearBits(b: Octet, t: nat)
    requires t <= 8
    ensures ClearFrom(b, t) <==> forall k | t <= k < 8 :: !Bit(b, k)
    decreases 8 - t
  {
  }

  lemma ClearChain(b: Octet)
    ensures ClearFrom(b, 7) <==> b & 128 == 0
    ensures ClearFrom(b, 6) <==> b & 64 == 0 && ClearFrom(b, 7)
    ensures ClearFrom(b, 5) <==> b & 32 == 0 && ClearFrom(b, 6)
    ensures ClearFrom(b, 4) <==> b & 16 == 0 && ClearFrom(b, 5)
    ensures ClearFrom(b, 3) <==> b & 8 == 0 && ClearFrom(b, 4)
    ensures ClearFrom(b, 2) <==> b & 4 == 0 && ClearFrom(b, 3)
    ensures ClearFrom(b, 1) <==> b & 2 == 0 && ClearFrom(b, 2)
  {
  }

  lemma MaskMeansClear(b: Octet, t: nat)
    requires 0 < t < 8
    ensures b & HighMask(t) == 0 <==> ClearFrom(b, t)
  {
    MaskValues();
    ClearChain(b);
    MaskTables(b);
  }

  /** The number of set bits among the `k` lowest. */
  function Ones(b: Octet, k: nat): nat
    requires k <= 8
  {
    if k == 0 then 0 else Ones(b, k - 1) + if Bit(b, k - 1) then 1 else 0
  }

  // ----- The bitmap and the set it stands for -----

  predicate Has(bitmap: seq<Octet>, i: nat) {
    i / 8 < |bitmap| && Bit(bitmap[i / 8], i % 8)
  }

  /** The indices below `n` whose bit is set. */
  ghost function Marked(bitmap: seq<Octet>, n: nat): set<nat> {
    set i: nat | i < n && Has(bitmap, i)
  }

  function TotalOnes(bitmap: seq<Octet>): nat {
    if bitmap == [] then 0 else TotalOnes(bitmap[..|bitmap| - 1]) + Ones(bitmap[|bitmap| - 1], 8)
  }

  lemma MarkedStep(bitmap: seq<Octet>, n: nat)
    ensures |Marked(bitmap, n + 1)| == |Marked(bitmap, n)| + if Has(bitmap, n) then 1 else 0
  {
    var less, more := Marked(bitmap, n), Marked(bitmap, n + 1);
    assert more == if Has(bitmap, n) then less + {n} else less;
  }

  lemma {:induction false} OnesOfLastByte(bitmap: seq<Octet>, k: nat)
    requires bitmap != [] && k <= 8
    ensures |Marked(bitmap, 8 * (|bitmap| - 1) + k)| == |Marked(bitmap, 8 * (|bitmap| - 1))| + Ones(bitmap[|bitmap| - 1], k)
  {
    if k > 0 {
      OnesOfLastByte(bitmap, k - 1);
      var n := 8 * (|bitmap| - 1) + (k - 1);
      assert n / 8 == |bitmap| - 1 && n % 8 == k - 1;
      MarkedStep(bitmap, n);
    }
  }

  /** The bits counted are the indices marked. */
  lemma {:induction false} OnesCountMarks(bitmap: seq<Octet>)
    ensures TotalOnes(bitmap) == |Marked(bitmap, 8 * |bitmap|)|
  {
    if bitmap == [] {
      assert Marked(bitmap, 0) == {};
    } else {
      var front := bitmap[..|bitmap| - 1];
      OnesCountMarks(front);
      assert Marked(bitmap, 8 * |front|) == Marked(front, 8 * |front|);
      OnesOfLastByte(bitmap, 8);
    }
  }

  /** No bit from `n` on is set. */
  ghost predicate NothingPast(bitmap: seq<Octet>, n: nat) {
    forall i: nat | i >= n :: !Has(bitmap, i)
  }

  function WithBit(bitmap: seq<Octet>, i: nat): (r: seq<Octet>)
    requires i / 8 < |bitmap|
    ensures |r| == |bitmap|
  {
    bitmap[i / 8 := bitmap[i / 8] | Unit(i % 8)]
  }

  lemma SetHas(bitmap: seq<Octet>, i: nat, j: nat)
    requires i / 8 < |bitmap|
    ensures Has(WithBit(bitmap, i), j) <==> Has(bitmap, j) || j == i
  {
    if j / 8 == i / 8 {
      SetBit(bitmap[i / 8], i % 8, j % 8);
      assert j == 8 * (j / 8) + j % 8 && i == 8 * (i / 8) + i % 8;
    }
  }

  lemma SetMarks(bitmap: seq<Octet>, i: nat, n: nat)
    requires i < n && i / 8 < |bitmap|
    ensures Marked(WithBit(bitmap, i), n) == Marked(bitmap, n) + {i}
    ensures NothingPast(bitmap, n) ==> NothingPast(WithBit(bitmap, i), n)
  {
    forall j: nat ensures Has(WithBit(bitmap, i), j) <==> Has(bitmap, j) || j == i {
      SetHas(bitmap, i, j);
    }
  }

  // ----- Progress records -----

  function BitmapLength(chunkCount: nat): nat {
    (chunkCount + 7) / 8
  }

  datatype Record = Record(attachmentId: Bytes, chunkCount: nat, bitmap: seq<Octet>, totalBytes: nat, lastUpdated: nat)

  predicate GoodCount(chunkCount: nat) {
    0 < chunkCount <= MAX_ATTACHMENT_CHUNK_COUNT
  }

  function Validate(p: Record): Result<()> {
    if |p.attachmentId| != ATTACHMENT_ID_BYTES then Err(InvalidInput("Attachment ID must be 32 bytes"))
    else if !GoodCount(p.chunkCount) then Err(InvalidInput("chunk_count is out of range"))
    else if |p.bitmap| != BitmapLength(p.chunkCount) then Err(InvalidInput("completed_bitmap has the wrong length"))
    else if p.chunkCount % 8 != 0 && p.bitmap[|p.bitmap| - 1] & HighMask(p.chunkCount % 8) != 0 then
      Err(InvalidInput("completed_bitmap has bits set past chunk_count"))
    else Ok(())
  }

  predicate WellSized(p: Record) {
    |p.attachmentId| == ATTACHMENT_ID_BYTES && GoodCount(p.chunkCount) && |p.bitmap| == BitmapLength(p.chunkCount)
  }

  lemma LastByte(bitmap: seq<Octet>, n: nat, last: nat)
    requires n % 8 != 0 && last + 1 == |bitmap| == BitmapLength(n)
    ensures NothingPast(bitmap, n) <==> ClearFrom(bitmap[last], n % 8)
  {
    var b, t := bitmap[last], n % 8;
    assert n == 8 * last + t;
    ClearBits(b, t);
    if NothingPast(bitmap, n) {
      forall k | t <= k < 8 ensures !Bit(b, k) {
        var i := 8 * last + k;
        assert i / 8 == last && i % 8 == k;
        assert !Has(bitmap, i);
      }
    }
  }

  /** A well-sized record is accepted exactly when no bit past the chunk count is set. */
  lemma ValidMeansNothingPast(p: Record)
    requires WellSized(p)
    ensures Validate(p).Ok? <==> NothingPast(p.bitmap, p.chunkCount)
  {
    var t := p.chunkCount % 8;
    if t != 0 {
      LastByte(p.bitmap, p.chunkCount, |p.bitmap| - 1);
      MaskMeansClear(p.bitmap[|p.bitmap| - 1], t);
    }
  }

  /** Exactly the records that pass: identifier and count in range, just enough bytes, and nothing set past the count. */
  lemma ValidExactlyWhen(p: Record)
    ensures Validate(p).Ok? <==>
            && |p.attachmentId| == 32 && 0 < p.chunkCount <= 2621440
            && 8 * (|p.bitmap| - 1) < p.chunkCount <= 8 * |p.bitmap|
            && NothingPast(p.bitmap, p.chunkCount)
  {
    if WellSized(p) {
      ValidMeansNothingPast(p);
    }
  }

  ghost function Completed(p: Record): set<nat> {
    Marked(p.bitmap, p.chunkCount)
  }

  lemma OnesCountCompleted(p: Record)
    requires Validate(p).Ok?
    ensures TotalOnes(p.bitmap) == |Completed(p)|
  {
    ValidMeansNothingPast(p);
    OnesCountMarks(p.bitmap);
    assert Marked(p.bitmap, 8 * |p.bitmap|) == Completed(p);
  }

  predicate TransferComplete(p: Record) {
    Validate(p).Ok? && TotalOnes(p.bitmap) >= p.chunkCount
  }

  /** The indices below `n` that are not marked, in increasing order. */
  function Unmarked(bitmap: seq<Octet>, n: nat): (r: seq<nat>)
    ensures forall i | 0 <= i < |r| :: r[i] < n && !Has(bitmap, r[i])
    ensures forall i, j | 0 <= i < j < |r| :: r[i] < r[j]
    ensures forall x: nat | x < n && !Has(bitmap, x) :: x in r
    ensures |r| + |Marked(bitmap, n)| == n
  {
    if n == 0 then assert Marked(bitmap, 0) == {}; []
    else
      MarkedStep(bitmap, n - 1);
      var rest := Unmarked(bitmap, n - 1);
      if Has(bitmap, n - 1) then rest else rest + [n - 1]
  }

  function RemainingChunks(p: Record): (r: Result<seq<nat>>)
    ensures r.Ok? <==> Validate(p).Ok?
  {
    if Validate(p).Err? then Err(InvalidInput("Invalid chunk progress")) else Ok(Unmarked(p.bitmap, p.chunkCount))
  }

  /** The count of set bits decides completion: it holds exactly when no chunk remains. */
  lemma CompleteIffNoneRemains(p: Record)
    ensures TransferComplete(p) <==> RemainingChunks(p) == Ok([])
    ensures TransferComplete(p) <==> Validate(p).Ok? && forall i: nat | i < p.chunkCount :: i in Completed(p)
  {
    if Validate(p).Ok? {
      OnesCountCompleted(p);
      var left := Unmarked(p.bitmap, p.chunkCount);
      if left != [] {
        assert left[0] !in Completed(p);
      }
    }
  }

  class Progress {
    var record: Record

    constructor (record: Record)
      ensures this.record == record
    {
      this.record := record;
    }

    static method Create(attachmentId: Bytes, chunkCount: nat) returns (r: Result<Progress>)
      ensures r.Ok? <==> |attachmentId| == 32 && 0 < chunkCount <= 2621440
      ensures r.Ok? ==>
              && fresh(r.value) && Validate(r.value.record).Ok? && Completed(r.value.record) == {}
              && r.value.record.attachmentId == attachmentId && r.value.record.chunkCount == chunkCount
    {
      if |attachmentId| != ATTACHMENT_ID_BYTES || !GoodCount(chunkCount) {
        return Err(InvalidInput("Invalid chunk progress"));
      }
      var bitmap := Blank(BitmapLength(chunkCount));
      var record := Record(attachmentId, chunkCount, bitmap, 0, 0);
      ValidMeansNothingPast(record);
      var p := new Progress(record);
      return Ok(p);
    }

    method MarkCompleted(chunkIndex: nat, bytesTransferred: nat, now: nat) returns (r: Result<()>)
      modifies this
      ensures r.Ok? <==> Validate(old(record)).Ok? && chunkIndex < old(record).chunkCount
      ensures r.Ok? ==>
              && Validate(record).Ok? && Completed(record) == Completed(old(record)) + {chunkIndex}
              && record == old(record).(bitmap := record.bitmap, lastUpdated := now,
                                        totalBytes := Least(U64_MAX, old(record).totalBytes + bytesTransferred))
      ensures r.Err? ==> record == old(record)
    {
      if Validate(record).Err? {
        return Validate(record);
      }
      if chunkIndex >= record.chunkCount {
        return Err(InvalidInput("chunk_index must be < chunk_count"));
      }
      var byte, bit := chunkIndex / 8, Unit(chunkIndex % 8);
      var total := Least(U64_MAX, record.totalBytes + bytesTransferred);
      MarkKeepsValid(record, chunkIndex, total, now);
      if record.bitmap[byte] & bit == 0 {
        record := record.(bitmap := WithBit(record.bitmap, chunkIndex));
      }
      record := record.(totalBytes := total, lastUpdated := now);
      return Ok(());
    }
  }

  lemma MarkKeepsValid(p: Record, i: nat, total: nat, now: nat)
    requires Validate(p).Ok? && i < p.chunkCount
    ensures i / 8 < |p.bitmap|
    ensures var after := p.(bitmap := WithBit(p.bitmap, i), totalBytes := total, lastUpdated := now);
            Validate(after).Ok? && Completed(after) == Completed(p) + {i}
    ensures p.bitmap[i / 8] & Unit(i % 8) != 0 ==>
            var after := p.(totalBytes := total, lastUpdated := now);
            Validate(after).Ok? && Completed(after) == Completed(p) + {i}
  {
    ValidMeansNothingPast(p);
    SetMarks(p.bitmap, i, p.chunkCount);
    ValidMeansNothingPast(p.(bitmap := WithBit(p.bitmap, i), totalBytes := total, lastUpdated := now));
    if p.bitmap[i / 8] & Unit(i % 8) != 0 {
      assert Has(p.bitmap, i);
    }
  }

  function Blank(n: nat): (bitmap: seq<Octet>)
    ensures |bitmap| == n && forall i: nat :: !Has(bitmap, i)
  {
    seq(n, _ => 0)
  }
}
