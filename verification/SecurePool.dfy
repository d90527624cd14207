/**
 The pooled secure-memory allocator: two size classes over one byte region each, and handles that
 name a part of a slot. A handle is a value; `live` records, for the proofs, which slots have one.
 */
module SecurePool {
  import opened Arithmetic
  import opened LittleEndian
  import opened Outcomes
  import opened SecureRegion

  const SMALL_SLOT_BYTES := 64
  const LARGE_SLOT_BYTES := 4096
  const MAX_BUFFER_SIZE := 10 * 1024 * 1024

  /** Where slot `i` begins. */
  function Offset(i: nat, size: nat): nat {
    i * size
  }

  method CopyInto(a: array<Byte>, offset: nat, data: Bytes)
    requires offset + |data| <= a.Length
    modifies a
    ensures a[..] == Overwrite(old(a[..]), offset, data)
  {
    ghost var before := a[..];
    for k := 0 to |data|
      invariant a[..] == Overwrite(before, offset, data[..k])
    {
      a[offset + k] := data[k];
    }
    assert data[..|data|] == data;
  }

  class SizeClass {
    const slotSize: nat
    const count: nat
    const slots: array<Byte>
    var freeList: seq<nat>
    ghost var live: map<nat, nat>

    ghost function View(): Region
      reads this, slots
    {
      Region(slotSize, count, slots[..], freeList, live)
    }

    ghost predicate Valid()
      reads this, slots
    {
      Sound(View())
    }

    constructor (slotSize: nat, count: nat)
      requires slotSize > 0
      ensures Valid() && View() == Initial(slotSize, count) && fresh(slots)
    {
      this.slotSize, this.count := slotSize, count;
      slots := new Byte[count * slotSize](_ => 0);
      freeList := Descending(count);
      live := map[];
      new;
      assert slots[..] == Zeros(count * slotSize);
      InitialIsSound(slotSize, count);
    }

    static method New(slotSize: nat, slotCount: nat, locked: bool) returns (r: Result<SizeClass>)
      requires slotSize > 0
      ensures r.Ok? <==> 0 < slotCount < 0x1_0000_0000 && slotSize * slotCount < 0x1_0000_0000_0000_0000 && locked
      ensures r.Ok? ==> fresh(r.value) && fresh(r.value.slots) && r.value.Valid() && r.value.View() == Initial(slotSize, slotCount)
    {
      if slotCount == 0 || slotCount >= 0x1_0000_0000 || slotSize * slotCount >= 0x1_0000_0000_0000_0000 || !locked {
        return Err(AllocationFailed(slotSize));
      }
      var c := new SizeClass(slotSize, slotCount);
      return Ok(c);
    }

    /** The offset of a free slot, for a handle of length `len`. */
    method Pop(ghost len: nat) returns (offset: Option<nat>)
      requires Valid() && 0 < len <= slotSize
      modifies this
      ensures Valid()
      ensures offset.None? <==> old(freeList) == []
      ensures offset.None? ==> View() == old(View())
      ensures offset.Some? ==>
              && View() == Popped(old(View()), len)
              && offset.value == Offset(old(freeList[|freeList| - 1]), slotSize)
    {
      if freeList == [] {
        return None;
      }
      ghost var before := View();
      PopKeepsSound(before, len);
      var idx := freeList[|freeList| - 1];
      freeList := freeList[..|freeList| - 1];
      live := live[idx := len];
      assert View() == Popped(before, len);
      return Some(Offset(idx, slotSize));
    }

    /** Replace the bytes of a live handle. */
    method Store(offset: nat, data: Bytes, ghost slot: nat)
      requires Valid() && slot in live && offset == Offset(slot, slotSize) && |data| == live[slot]
      modifies slots
      ensures Valid()
      ensures slot * slotSize + slotSize <= |old(View()).mem|
      ensures View() == Stored(old(View()), slot, data)
    {
      StoreKeepsSound(View(), slot, data);
      CopyInto(slots, offset, data);
    }

    method Push(offset: nat, ghost slot: nat)
      requires Valid() && slot in live && offset == Offset(slot, slotSize)
      modifies this, slots
      ensures Valid()
      ensures View() == Pushed(old(View()), slot)
    {
      PushKeepsSound(View(), slot);
      ModulusUnique(offset, slotSize, slot, 0);
      var idx := offset / slotSize;
      CopyInto(slots, offset, Zeros(slotSize));
      freeList := freeList + [idx];
      live := live - {idx};
    }

    method Read(offset: nat, len: nat, ghost slot: nat) returns (bytes: Bytes)
      requires Valid() && slot in live && offset == Offset(slot, slotSize) && len <= live[slot]
      ensures len <= |Slot(slots[..], slotSize, slot)| && bytes == Slot(slots[..], slotSize, slot)[..len]
    {
      HandleFits(View(), slot);
      return slots[offset..offset + len];
    }

    /** Wipe the handle, then the slot, and give the slot back. */
    method Free(offset: nat, len: nat, ghost slot: nat)
      requires Valid() && slot in live && offset == Offset(slot, slotSize) && len == live[slot]
      modifies this, slots
      ensures Valid()
      ensures slot * slotSize + slotSize <= |old(View()).mem|
      ensures View() == Pushed(old(View()), slot)
    {
      WipedThenPushed(View(), slot);
      Store(offset, Zeros(len), slot);
      Push(offset, slot);
    }

    /** A second handle with the same bytes, in a slot of its own. */
    method Copy(offset: nat, len: nat, ghost slot: nat) returns (r: Option<nat>, ghost other: nat)
      requires Valid() && slot in live && offset == Offset(slot, slotSize) && len == live[slot]
      modifies this, slots
      ensures Valid()
      ensures r.None? <==> old(freeList) == []
      ensures r.None? ==> View() == old(View())
      ensures r.Some? ==>
              && CanClone(old(View()), slot) && View() == Cloned(old(View()), slot)
              && r.value == Offset(other, slotSize) && Duplicated(old(View()), slot, View(), other)
    {
      other := 0;
      ghost var before := View();
      var bytes := Read(offset, len, slot);
      r := Pop(len);
      if r.Some? {
        other := before.free[|before.free| - 1];
        CloneKeepsSound(before, slot);
        Store(r.value, bytes, other);
      }
    }
  }

  datatype Handle = Handle(offset: nat, len: nat, slotSize: nat)

  /** The size class a request belongs to. */
  function ClassSize(size: nat): nat {
    if size <= SMALL_SLOT_BYTES then SMALL_SLOT_BYTES else LARGE_SLOT_BYTES
  }

  class Pool {
    const small: SizeClass
    const large: SizeClass

    ghost predicate Valid()
      reads this, small, small.slots, large, large.slots
    {
      && small != large && small.slots != large.slots
      && small.slotSize == SMALL_SLOT_BYTES && large.slotSize == LARGE_SLOT_BYTES
      && small.Valid() && large.Valid()
    }

    constructor (small: SizeClass, large: SizeClass)
      requires small != large && small.slots != large.slots && small.Valid() && large.Valid()
      requires small.slotSize == SMALL_SLOT_BYTES && large.slotSize == LARGE_SLOT_BYTES
      ensures this.small == small && this.large == large && Valid()
    {
      this.small, this.large := small, large;
    }

    static method Build(smallCount: nat, largeCount: nat, locked: bool) returns (r: Result<Pool>)
      ensures r.Ok? <==>
              && 0 < smallCount < 0x1_0000_0000 && 0 < largeCount < 0x1_0000_0000 && locked
              && SMALL_SLOT_BYTES * smallCount < 0x1_0000_0000_0000_0000
              && LARGE_SLOT_BYTES * largeCount < 0x1_0000_0000_0000_0000
      ensures r.Ok? ==>
              && fresh(r.value) && r.value.Valid()
              && r.value.small.View() == Initial(SMALL_SLOT_BYTES, smallCount)
              && r.value.large.View() == Initial(LARGE_SLOT_BYTES, largeCount)
    {
      var small := SizeClass.New(SMALL_SLOT_BYTES, smallCount, locked);
      if small.Err? {
        return Err(small.error);
      }
      var large := SizeClass.New(LARGE_SLOT_BYTES, largeCount, locked);
      if large.Err? {
        return Err(large.error);
      }
      var pool := new Pool(small.value, large.value);
      return Ok(pool);
    }

    function Class(slotSize: nat): SizeClass {
      if slotSize == SMALL_SLOT_BYTES then small else large
    }

    /** `h` is the live handle on slot `slot` of its class. */
    ghost predicate Holds(h: Handle, slot: nat)
      reads this, small, large
    {
      && (h.slotSize == SMALL_SLOT_BYTES || h.slotSize == LARGE_SLOT_BYTES)
      && h.offset == Offset(slot, h.slotSize)
      && slot in Class(h.slotSize).live && Class(h.slotSize).live[slot] == h.len
    }

    /** Fails exactly on an empty or oversized request or when the request's own class has no free slot. */
    method Allocate(size: nat) returns (r: Result<Handle>, ghost slot: nat)
      requires Valid()
      modifies small, large
      ensures Valid()
      ensures r.Err? <==>
              size == 0 || size > 4096 || (size <= 64 && old(small.freeList) == []) || (size > 64 && old(large.freeList) == [])
      ensures r.Err? ==> small.View() == old(small.View()) && large.View() == old(large.View())
      ensures r.Ok? ==> r.value.len == size && Holds(r.value, slot)
      ensures r.Ok? && size <= 64 ==>
              && r.value.slotSize == 64 && old(slot !in small.live) && Slot(small.slots[..], 64, slot)[..size] == Zeros(size)
              && small.View() == Popped(old(small.View()), size) && large.View() == old(large.View())
      ensures r.Ok? && size > 64 ==>
              && r.value.slotSize == 4096 && old(slot !in large.live) && Slot(large.slots[..], 4096, slot)[..size] == Zeros(size)
              && large.View() == Popped(old(large.View()), size) && small.View() == old(small.View())
    {
      slot := 0;
      if size == 0 || size > MAX_BUFFER_SIZE || size > LARGE_SLOT_BYTES {
        return Err(AllocationFailed(size)), slot;
      }
      var class_ := Class(ClassSize(size));
      ghost var before := class_.View();
      var offset := class_.Pop(size);
      if offset.None? {
        return Err(AllocationFailed(size)), slot;
      }
      PopKeepsSound(before, size);
      slot := before.free[|before.free| - 1];
      return Ok(Handle(offset.value, size, ClassSize(size))), slot;
    }

    /** Replaces what the handle holds; a shorter input leaves zeros behind it. */
    method Write(h: Handle, data: Bytes, ghost slot: nat) returns (r: Result<()>)
      requires Valid() && Holds(h, slot)
      modifies Class(h.slotSize).slots
      ensures Valid()
      ensures r.Ok? <==> |data| <= h.len
      ensures slot * h.slotSize + h.slotSize <= |old(Class(h.slotSize).View()).mem|
      ensures Class(h.slotSize).View() ==
              if |data| <= h.len then Stored(old(Class(h.slotSize).View()), slot, data + Zeros(h.len - |data|))
              else old(Class(h.slotSize).View())
    {
      var class_ := Class(h.slotSize);
      SlotFits(class_.slotSize, class_.count, slot);
      if |data| > h.len {
        return Err(BufferTooSmall(h.len, |data|));
      }
      class_.Store(h.offset, data + Zeros(h.len - |data|), slot);
      return Ok(());
    }

    method ReadBytes(h: Handle, len: nat, ghost slot: nat) returns (r: Result<Bytes>)
      requires Valid() && Holds(h, slot)
      ensures r.Ok? <==> len <= h.len
      ensures r.Ok? ==> len <= |Slot(Class(h.slotSize).slots[..], h.slotSize, slot)|
                        && r.value == Slot(Class(h.slotSize).slots[..], h.slotSize, slot)[..len]
    {
      if len > h.len {
        return Err(BufferTooSmall(h.len, len));
      }
      var bytes := Class(h.slotSize).Read(h.offset, len, slot);
      return Ok(bytes);
    }

    /** The copy is a second live handle with the same bytes in another slot of the same class. */
    method TryClone(h: Handle, ghost slot: nat) returns (r: Result<Handle>, ghost other: nat)
      requires Valid() && Holds(h, slot)
      modifies Class(h.slotSize), Class(h.slotSize).slots
      ensures Valid()
      ensures r.Ok? <==> old(Class(h.slotSize).freeList) != []
      ensures r.Err? ==> Class(h.slotSize).View() == old(Class(h.slotSize).View())
      ensures r.Ok? ==>
              && Holds(r.value, other) && r.value.len == h.len && r.value.slotSize == h.slotSize
              && CanClone(old(Class(h.slotSize).View()), slot)
              && Class(h.slotSize).View() == Cloned(old(Class(h.slotSize).View()), slot)
              && Duplicated(old(Class(h.slotSize).View()), slot, Class(h.slotSize).View(), other)
    {
      var offset;
      offset, other := Class(h.slotSize).Copy(h.offset, h.len, slot);
      if offset.None? {
        return Err(AllocationFailed(h.len)), other;
      }
      return Ok(Handle(offset.value, h.len, h.slotSize)), other;
    }

    method Drop(h: Handle, ghost slot: nat)
      requires Valid() && Holds(h, slot)
      modifies Class(h.slotSize), Class(h.slotSize).slots
      ensures Valid()
      ensures slot * h.slotSize + h.slotSize <= |old(Class(h.slotSize).View()).mem|
      ensures Class(h.slotSize).View() == Pushed(old(Class(h.slotSize).View()), slot)
    {
      Class(h.slotSize).Free(h.offset, h.len, slot);
    }
  }

  lemma ZeroTwice(mem: Bytes, offset: nat, len: nat, size: nat)
    requires len <= size && offset + size <= |mem|
    ensures Overwrite(Overwrite(mem, offset, Zeros(len)), offset, Zeros(size)) == Overwrite(mem, offset, Zeros(size))
  {
  }

  /** Wiping the handle before wiping its whole slot changes nothing. */
  lemma WipedThenPushed(r: Region, slot: nat)
    requires Sound(r) && slot in r.live
    ensures slot * r.size + r.size <= |r.mem| && r.live[slot] <= r.size
    ensures Pushed(Stored(r, slot, Zeros(r.live[slot])), slot) == Pushed(r, slot)
  {
    HandleFits(r, slot);
    ZeroTwice(r.mem, slot * r.size, r.live[slot], r.size);
  }
}
