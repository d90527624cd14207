/**
 One size class of the locked-memory pool, as a value: a byte region cut into equal slots, a free list
 and the lengths of the live handles, with the operations that keep them apart.
 */
module SecureRegion {
  import opened Arithmetic
  import opened LittleEndian
  import opened Sequences

  datatype Region = Region(size: nat, count: nat, mem: Bytes, free: seq<nat>, live: map<nat, nat>)

  /** The bytes of slot `i`. */
  function Slot(mem: Bytes, size: nat, i: nat): Bytes {
    if i * size + size <= |mem| then mem[i * size..i * size + size] else []
  }

  /** `data` written at `offset`. */
  function Overwrite(mem: Bytes, offset: nat, data: Bytes): (r: Bytes)
    requires offset + |data| <= |mem|
    ensures |r| == |mem|
    ensures forall k | 0 <= k < |mem| :: r[k] == if offset <= k < offset + |data| then data[k - offset] else mem[k]
  {
    mem[..offset] + data + mem[offset + |data|..]
  }

  // ----- Slots do not overlap -----

  lemma SlotFits(size: nat, count: nat, i: nat)
    requires i < count
    ensures i * size + size <= count * size
  {
    ProductGap(size, i, count);
  }

  lemma SlotsApart(size: nat, i: nat, j: nat)
    requires i != j
    ensures i * size + size <= j * size || j * size + size <= i * size
  {
    if i < j {
      ProductGap(size, i, j);
    } else {
      ProductGap(size, j, i);
    }
  }

  lemma OverwriteOther(mem: Bytes, size: nat, count: nat, i: nat, data: Bytes, j: nat)
    requires |mem| == count * size && i < count && j < count && i != j && |data| <= size
    requires i * size + size <= |mem|
    ensures Slot(Overwrite(mem, i * size, data), size, j) == Slot(mem, size, j)
  {
    SlotFits(size, count, j);
    SlotsApart(size, i, j);
  }

  lemma OverwriteSame(mem: Bytes, size: nat, count: nat, i: nat, data: Bytes)
    requires |mem| == count * size && i < count && |data| <= size
    ensures i * size + size <= |mem| && |Slot(mem, size, i)| == size
    ensures Slot(Overwrite(mem, i * size, data), size, i) == data + Slot(mem, size, i)[|data|..]
  {
    SlotFits(size, count, i);
  }

  // ----- Soundness -----

  /** A slot with a live handle of length `len`: nothing is stored past the handle. */
  ghost predicate Padded(slot: Bytes, size: nat, len: nat) {
    && 0 < len <= size && |slot| == size
    && AllEqual(slot[len..], 0)
  }

  /** Free slots and live slots partition the region; free slots and the ends of live slots are zero. */
  ghost predicate Sound(r: Region) {
    && r.size > 0 && |r.mem| == r.count * r.size
    && NoDuplicates(r.free)
    && (forall i | i in r.free :: i < r.count && i !in r.live && AllEqual(Slot(r.mem, r.size, i), 0))
    && (forall i | i in r.live :: i < r.count && Padded(Slot(r.mem, r.size, i), r.size, r.live[i]))
    && (forall i: nat | i < r.count :: i in r.free || i in r.live)
  }

  // ----- Operations -----

  function Popped(r: Region, len: nat): Region
    requires r.free != []
  {
    var i := r.free[|r.free| - 1];
    r.(free := r.free[..|r.free| - 1], live := r.live[i := len])
  }

  function Stored(r: Region, i: nat, data: Bytes): Region
    requires i * r.size + |data| <= |r.mem|
  {
    r.(mem := Overwrite(r.mem, i * r.size, data))
  }

  function Pushed(r: Region, i: nat): Region
    requires i * r.size + r.size <= |r.mem|
  {
    r.(mem := Overwrite(r.mem, i * r.size, Zeros(r.size)), free := r.free + [i], live := r.live - {i})
  }

  predicate CanClone(r: Region, i: nat) {
    && i in r.live && r.live[i] <= r.size && r.live[i] <= |Slot(r.mem, r.size, i)|
    && r.free != [] && r.free[|r.free| - 1] * r.size + r.size <= |r.mem|
  }

  /** A copy of the handle on slot `i`, written into the slot last freed. */
  function Cloned(r: Region, i: nat): Region
    requires CanClone(r, i)
  {
    Stored(Popped(r, r.live[i]), r.free[|r.free| - 1], Slot(r.mem, r.size, i)[..r.live[i]])
  }

  /** What the handle on slot `i` reads. */
  ghost function Reads(r: Region, i: nat): Bytes
    requires i in r.live && r.live[i] <= |Slot(r.mem, r.size, i)|
  {
    Slot(r.mem, r.size, i)[..r.live[i]]
  }

  lemma LastOff<T>(s: seq<T>)
    requires s != [] && NoDuplicates(s)
    ensures NoDuplicates(s[..|s| - 1])
    ensures forall x :: x in s[..|s| - 1] <==> x in s && x != s[|s| - 1]
  {
    var front, last := s[..|s| - 1], s[|s| - 1];
    assert s == front + [last];
    AppendDistinct(front, last);
  }

  lemma ZeroSlot(slot: Bytes, size: nat, len: nat)
    requires |slot| == size && AllEqual(slot, 0) && 0 < len <= size
    ensures Padded(slot, size, len) && slot[..len] == Zeros(len)
  {
  }

  lemma PopKeepsSound(r: Region, len: nat)
    requires Sound(r) && r.free != [] && 0 < len <= r.size
    ensures Sound(Popped(r, len))
    ensures var i := r.free[|r.free| - 1];
            i !in r.live && i < r.count && Slot(r.mem, r.size, i)[..len] == Zeros(len)
  {
    var i := r.free[|r.free| - 1];
    assert i in r.free;
    SlotFits(r.size, r.count, i);
    ZeroSlot(Slot(r.mem, r.size, i), r.size, len);
    LastOff(r.free);
  }

  /** Two live handles never share a byte. */
  lemma LiveHandlesApart(r: Region, i: nat, j: nat)
    requires Sound(r) && i in r.live && j in r.live && i != j
    ensures i * r.size + r.live[i] <= j * r.size || j * r.size + r.live[j] <= i * r.size
  {
    SlotsApart(r.size, i, j);
  }

  lemma StoreKeepsSound(r: Region, i: nat, data: Bytes)
    requires Sound(r) && i in r.live && |data| == r.live[i]
    ensures i * r.size + r.size <= |r.mem|
    ensures Sound(Stored(r, i, data)) && Reads(Stored(r, i, data), i) == data
    ensures forall j | j in r.live && j != i :: Slot(Stored(r, i, data).mem, r.size, j) == Slot(r.mem, r.size, j)
  {
    OverwriteSame(r.mem, r.size, r.count, i, data);
    forall j: nat | j < r.count && j != i ensures Slot(Stored(r, i, data).mem, r.size, j) == Slot(r.mem, r.size, j) {
      OverwriteOther(r.mem, r.size, r.count, i, data, j);
    }
  }

  lemma PushKeepsSound(r: Region, i: nat)
    requires Sound(r) && i in r.live
    ensures i * r.size + r.size <= |r.mem|
    ensures Sound(Pushed(r, i))
    ensures forall j | j in r.live && j != i :: Slot(Pushed(r, i).mem, r.size, j) == Slot(r.mem, r.size, j)
  {
    OverwriteSame(r.mem, r.size, r.count, i, Zeros(r.size));
    AppendDistinct(r.free, i);
    forall j: nat | j < r.count && j != i ensures Slot(Pushed(r, i).mem, r.size, j) == Slot(r.mem, r.size, j) {
      OverwriteOther(r.mem, r.size, r.count, i, Zeros(r.size), j);
    }
  }

  lemma HandleFits(r: Region, slot: nat)
    requires Sound(r) && slot in r.live
    ensures r.live[slot] <= r.size && slot * r.size + r.size <= |r.mem| && |Slot(r.mem, r.size, slot)| == r.size
  {
    SlotFits(r.size, r.count, slot);
  }

  /** From `r` to `t`: slot `other` has become a live copy of slot `slot`, and every live slot is as it was. */
  ghost predicate Duplicated(r: Region, slot: nat, t: Region, other: nat) {
    && slot in r.live && other !in r.live && t.live == r.live[other := r.live[slot]]
    && t.size == r.size && r.live[slot] <= |Slot(r.mem, r.size, slot)| && r.live[slot] <= |Slot(t.mem, r.size, other)|
    && Slot(t.mem, r.size, other)[..r.live[slot]] == Slot(r.mem, r.size, slot)[..r.live[slot]]
    && forall j | j in r.live :: Slot(t.mem, r.size, j) == Slot(r.mem, r.size, j)
  }

  lemma CloneKeepsSound(r: Region, slot: nat)
    requires Sound(r) && slot in r.live && r.free != []
    ensures CanClone(r, slot)
    ensures Sound(Cloned(r, slot)) && Duplicated(r, slot, Cloned(r, slot), r.free[|r.free| - 1])
  {
    HandleFits(r, slot);
    var len, other := r.live[slot], r.free[|r.free| - 1];
    PopKeepsSound(r, len);
    StoreKeepsSound(Popped(r, len), other, Slot(r.mem, r.size, slot)[..len]);
    HandleFits(Cloned(r, slot), other);
  }

  // ----- Every run of one class -----

  datatype Op = Allocate(len: nat) | Write(slot: nat, data: Bytes) | Clone(slot: nat) | Drop(slot: nat)

  /** When an operation can happen: on a live handle and within its length, with a free slot where it needs one. */
  ghost predicate Enabled(r: Region, op: Op) {
    match op
    case Allocate(len) => r.free != [] && 0 < len <= r.size
    case Write(i, data) => i in r.live && |data| == r.live[i] && i * r.size + |data| <= |r.mem|
    case Clone(i) => CanClone(r, i)
    case Drop(i) => i in r.live && i * r.size + r.size <= |r.mem|
  }

  ghost function Next(r: Region, op: Op): Region
    requires Enabled(r, op)
  {
    match op
    case Allocate(len) => Popped(r, len)
    case Write(i, data) => Stored(r, i, data)
    case Clone(i) => Cloned(r, i)
    case Drop(i) => Pushed(r, i)
  }

  ghost predicate Run(states: seq<Region>, ops: seq<Op>) {
    && |states| == |ops| + 1
    && forall i | 0 <= i < |ops| :: Enabled(states[i], ops[i]) && states[i + 1] == Next(states[i], ops[i])
  }

  function Descending(n: nat): (s: seq<nat>)
    ensures |s| == n && forall i | 0 <= i < n :: s[i] == n - 1 - i
  {
    seq<nat>(n, i requires 0 <= i < n => n - 1 - i)
  }

  function Initial(size: nat, count: nat): Region {
    Region(size, count, Zeros(count * size), Descending(count), map[])
  }

  lemma InitialIsSound(size: nat, count: nat)
    requires size > 0
    ensures Sound(Initial(size, count))
  {
    var r := Initial(size, count);
    forall i: nat | i < count ensures i in r.free && AllEqual(Slot(r.mem, size, i), 0) {
      SlotFits(size, count, i);
      assert r.free[count - 1 - i] == i;
    }
  }

  lemma StepKeepsSound(r: Region, op: Op)
    requires Sound(r) && Enabled(r, op)
    ensures Sound(Next(r, op))
  {
    match op
    case Allocate(len) => PopKeepsSound(r, len);
    case Write(i, data) => StoreKeepsSound(r, i, data);
    case Clone(i) => CloneKeepsSound(r, i);
    case Drop(i) => PushKeepsSound(r, i);
  }

  /** In every run free and live slots stay a partition and nothing secret is left where it should not be. */
  lemma {:induction false} RunsStaySound(states: seq<Region>, ops: seq<Op>)
    requires Run(states, ops) && Sound(states[0])
    ensures Sound(states[|ops|])
  {
    if ops != [] {
      var n := |ops| - 1;
      RunsStaySound(states[..n + 1], ops[..n]);
      StepKeepsSound(states[n], ops[n]);
    }
  }

  // ----- A handle and the operations on the others -----

  predicate Touches(op: Op, i: nat) {
    (op.Write? || op.Drop?) && op.slot == i
  }

  /** Slot `i` has in `t` the same live handle with the same bytes as in `r`. */
  ghost predicate SameHandle(r: Region, t: Region, i: nat) {
    i in r.live && i in t.live && t.live[i] == r.live[i] && t.size == r.size && Slot(t.mem, t.size, i) == Slot(r.mem, r.size, i)
  }

  lemma StepKeepsOtherHandles(r: Region, op: Op, i: nat)
    requires Sound(r) && Enabled(r, op) && i in r.live && !Touches(op, i)
    ensures SameHandle(r, Next(r, op), i)
  {
    match op
    case Allocate(len) => PopKeepsSound(r, len);
    case Write(j, data) => StoreKeepsSound(r, j, data);
    case Clone(j) => CloneKeepsSound(r, j);
    case Drop(j) => PushKeepsSound(r, j);
  }

  /** What a live handle reads is unchanged by every run that neither writes through it nor drops it. */
  lemma {:induction false} UntouchedHandleKeepsItsBytes(states: seq<Region>, ops: seq<Op>, i: nat)
    requires Run(states, ops) && Sound(states[0]) && i in states[0].live
    requires forall op | op in ops :: !Touches(op, i)
    ensures SameHandle(states[0], states[|ops|], i)
    ensures states[0].live[i] <= |Slot(states[0].mem, states[0].size, i)| && Reads(states[|ops|], i) == Reads(states[0], i)
  {
    HandleFits(states[0], i);
    if ops != [] {
      var n := |ops| - 1;
      UntouchedHandleKeepsItsBytes(states[..n + 1], ops[..n], i);
      RunsStaySound(states[..n + 1], ops[..n]);
      StepKeepsOtherHandles(states[n], ops[n], i);
    }
  }
}
