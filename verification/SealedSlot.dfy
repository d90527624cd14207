/**
 The anti-rollback slot: two counters and the newest sealed blob in one persisted record, its byte
 format, and the session wrappers that export into it and restore from it. Sealing a session is a
 parameter: a blob opens to the session and the counter it was made with.
 */
module SealedSlot {
  import opened LittleEndian
  import opened Outcomes

  const TRACKER_VERSION := 1
  const SLOT_VERSION := 1
  const TRACKER_LEN := 4 + 8 * 2
  const HEADER_LEN := 4 + TRACKER_LEN
  const MAX_BUFFER_SIZE := 10 * 1024 * 1024
  const U64_MAX: U64 := 0xFFFF_FFFF_FFFF_FFFF

  datatype Tracker = Tracker(maxRestored: U64, latestIssued: U64)
  datatype Slot = Slot(tracker: Tracker, sealed: Bytes)

  const NEW_SLOT := Slot(Tracker(0, 0), [])

  function MinImport(t: Tracker): (floor: U64)
    ensures floor >= t.maxRestored && floor >= t.latestIssued
    ensures floor == t.maxRestored || floor == t.latestIssued
  {
    if t.latestIssued > t.maxRestored then t.latestIssued else t.maxRestored
  }

  // ----- The byte format -----

  function SerializeTracker(t: Tracker): (data: Bytes)
    ensures |data| == TRACKER_LEN
  {
    Encode(TRACKER_VERSION, 4) + Encode(t.maxRestored, 8) + Encode(t.latestIssued, 8)
  }

  function ReadU64(data: Bytes): U64
    requires |data| == 8
  {
    Widths();
    LittleEndian.Decode(data)
  }

  function DeserializeTracker(data: Bytes): Result<Tracker> {
    if |data| != TRACKER_LEN then Err(ProtocolError.Decode("sealed-state counter tracker has the wrong length"))
    else if LittleEndian.Decode(data[0..4]) != TRACKER_VERSION then Err(InvalidInput("unsupported sealed-state counter tracker version"))
    else
      var t := Tracker(ReadU64(data[4..12]), ReadU64(data[12..20]));
      if t.latestIssued < t.maxRestored then Err(InvalidState("sealed-state tracker invariant violated")) else Ok(t)
  }

  function Serialize(s: Slot): Result<Bytes> {
    if |s.sealed| > MAX_BUFFER_SIZE then Err(InvalidInput("sealed-state slot payload too large"))
    else Ok(Encode(SLOT_VERSION, 4) + SerializeTracker(s.tracker) + Encode(|s.sealed|, 4) + s.sealed)
  }

  function Deserialize(data: Bytes): Result<Slot> {
    if |data| < HEADER_LEN + 4 then Err(ProtocolError.Decode("sealed-state slot is too short"))
    else if LittleEndian.Decode(data[0..4]) != SLOT_VERSION then Err(InvalidInput("unsupported sealed-state slot version"))
    else
      var tracker :- DeserializeTracker(data[4..HEADER_LEN]);
      var length := LittleEndian.Decode(data[HEADER_LEN..HEADER_LEN + 4]);
      if length > MAX_BUFFER_SIZE then Err(InvalidInput("sealed-state slot payload too large"))
      else if |data| != HEADER_LEN + 4 + length then Err(ProtocolError.Decode("sealed-state slot length mismatch"))
      else Ok(Slot(tracker, data[HEADER_LEN + 4..]))
  }

  lemma TrackerRoundTrip(t: Tracker)
    requires t.latestIssued >= t.maxRestored
    ensures DeserializeTracker(SerializeTracker(t)) == Ok(t)
  {
    var data := SerializeTracker(t);
    assert data[0..4] == Encode(TRACKER_VERSION, 4);
    assert data[4..12] == Encode(t.maxRestored, 8);
    assert data[12..20] == Encode(t.latestIssued, 8);
    RoundTrip32(TRACKER_VERSION);
    RoundTrip64(t.maxRestored);
    RoundTrip64(t.latestIssued);
  }

  lemma TrackerBytesRoundTrip(data: Bytes)
    requires DeserializeTracker(data).Ok?
    ensures SerializeTracker(DeserializeTracker(data).value) == data
  {
    EncodeDecode(data[0..4]);
    EncodeDecode(data[4..12]);
    EncodeDecode(data[12..20]);
    assert data == data[0..4] + data[4..12] + data[12..20];
  }

  /** Every slot within the size limit whose counters are in order survives persisting. */
  lemma SlotRoundTrip(s: Slot)
    requires |s.sealed| <= MAX_BUFFER_SIZE && s.tracker.latestIssued >= s.tracker.maxRestored
    ensures Serialize(s).Ok? && Deserialize(Serialize(s).value) == Ok(s)
  {
    var data := Serialize(s).value;
    assert data[0..4] == Encode(SLOT_VERSION, 4);
    assert data[4..HEADER_LEN] == SerializeTracker(s.tracker);
    assert data[HEADER_LEN..HEADER_LEN + 4] == Encode(|s.sealed|, 4);
    assert data[HEADER_LEN + 4..] == s.sealed;
    RoundTrip32(SLOT_VERSION);
    RoundTrip32(|s.sealed|);
    TrackerRoundTrip(s.tracker);
  }

  /** Exactly the slots within the size limit are written, and where each field of the record lies. */
  lemma SlotLayout(s: Slot)
    ensures Serialize(s).Ok? <==> |s.sealed| <= MAX_BUFFER_SIZE
    ensures Serialize(s).Ok? ==>
              var data := Serialize(s).value;
              && |data| == 28 + |s.sealed| && data[..8] == [1, 0, 0, 0, 1, 0, 0, 0]
              && LittleEndian.Decode(data[8..16]) == s.tracker.maxRestored && LittleEndian.Decode(data[16..24]) == s.tracker.latestIssued
              && LittleEndian.Decode(data[24..28]) == |s.sealed| && data[28..] == s.sealed
  {
    if |s.sealed| <= MAX_BUFFER_SIZE {
      var one, restored, issued, length := Encode(1, 4), Encode(s.tracker.maxRestored, 8), Encode(s.tracker.latestIssued, 8), Encode(|s.sealed|, 4);
      OneInFourBytes();
      FieldsAt(one, restored, issued, length, s.sealed);
      RoundTrip64(s.tracker.maxRestored);
      RoundTrip64(s.tracker.latestIssued);
      RoundTrip32(|s.sealed|);
    }
  }

  lemma OneInFourBytes()
    ensures Encode(1, 4) == [1, 0, 0, 0]
  {
    assert Encode(0, 1) == [0] && Encode(0, 2) == [0, 0] && Encode(0, 3) == [0, 0, 0];
  }

  lemma FieldsAt(one: Bytes, restored: Bytes, issued: Bytes, length: Bytes, sealed: Bytes)
    requires |one| == |length| == 4 && |restored| == |issued| == 8
    ensures var data := one + (one + restored + issued) + length + sealed;
            && |data| == 28 + |sealed| && data[..8] == one + one && data[8..16] == restored && data[16..24] == issued
            && data[24..28] == length && data[28..] == sealed
  {
  }

  /** Every record that is accepted is the one its slot is written as. */
  lemma BytesRoundTrip(data: Bytes)
    requires Deserialize(data).Ok?
    ensures Serialize(Deserialize(data).value) == Ok(data)
  {
    EncodeDecode(data[0..4]);
    EncodeDecode(data[HEADER_LEN..HEADER_LEN + 4]);
    TrackerBytesRoundTrip(data[4..HEADER_LEN]);
    assert data == data[0..4] + data[4..HEADER_LEN] + data[HEADER_LEN..HEADER_LEN + 4] + data[HEADER_LEN + 4..];
  }

  /** The bytes read back are exactly the records of the slots whose counters are in order. */
  lemma AcceptsExactlyTheRecords(data: Bytes)
    ensures Deserialize(data).Ok? <==> exists s: Slot :: s.tracker.latestIssued >= s.tracker.maxRestored && Serialize(s) == Ok(data)
  {
    if Deserialize(data).Ok? {
      BytesRoundTrip(data);
    }
    forall s: Slot | s.tracker.latestIssued >= s.tracker.maxRestored && Serialize(s) == Ok(data) ensures Deserialize(data).Ok? {
      SlotRoundTrip(s);
    }
  }

  // ----- Sealing sessions -----

  /** Sessions are named by numbers. */
  datatype Sealer = Sealer(seal: (nat, U64) -> Bytes, open: Bytes -> Option<(nat, U64)>)

  ghost predicate Works(sealer: Sealer) {
    forall session: nat, counter: U64 ::
      && sealer.seal(session, counter) != []
      && sealer.open(sealer.seal(session, counter)) == Some((session, counter))
  }

  /** A blob is imported if it opens and its counter is not below the floor. */
  function Import(sealer: Sealer, blob: Bytes, floor: U64): Result<(nat, U64)> {
    match sealer.open(blob)
    case None => Err(ProtocolError.Decode("Sealed state rejected"))
    case Some((session, counter)) => if counter < floor then Err(ReplayAttack("Sealed state is too old")) else Ok((session, counter))
  }

  // ----- The slot -----

  class SealedStateSlot {
    var maxRestored: U64
    var latestIssued: U64
    var sealed: Bytes

    ghost function View(): Slot
      reads this
    {
      Slot(Tracker(maxRestored, latestIssued), sealed)
    }

    constructor ()
      ensures View() == NEW_SLOT
    {
      maxRestored, latestIssued, sealed := 0, 0, [];
    }

    method NoteExport(counter: U64, blob: Bytes) returns (r: Result<()>)
      modifies this
      ensures r.Ok? <==> |blob| <= MAX_BUFFER_SIZE && counter > 0 && counter > old(latestIssued) && counter >= old(maxRestored)
      ensures View() == if r.Ok? then Slot(Tracker(old(maxRestored), counter), blob) else old(View())
    {
      if |blob| > MAX_BUFFER_SIZE {
        return Err(InvalidInput("sealed-state slot payload too large"));
      }
      if counter == 0 {
        return Err(InvalidInput("sealed-state counter must be > 0"));
      }
      if counter <= latestIssued {
        return Err(InvalidState("sealed-state export counter regression"));
      }
      if counter < maxRestored {
        return Err(InvalidState("sealed-state export counter is below restored watermark"));
      }
      latestIssued, sealed := counter, blob;
      return Ok(());
    }

    method NoteRestore(counter: U64) returns (r: Result<()>)
      modifies this
      ensures r.Ok? <==> counter > 0 && counter >= old(maxRestored)
      ensures r.Ok? ==> maxRestored == counter && latestIssued == (if old(latestIssued) < counter then counter else old(latestIssued))
      ensures sealed == old(sealed)
      ensures r.Err? ==> View() == old(View())
    {
      if counter == 0 {
        return Err(InvalidInput("sealed-state counter must be > 0"));
      }
      if counter < maxRestored {
        return Err(ReplayAttack("sealed-state counter is below restored watermark"));
      }
      if counter > maxRestored {
        maxRestored := counter;
      }
      if latestIssued < counter {
        latestIssued := counter;
      }
      return Ok(());
    }

    method Export(session: nat, sealer: Sealer) returns (r: Result<()>)
      modifies this
      ensures r.Ok? <==> Exportable(sealer, old(View()), session)
      ensures View() == if r.Ok? then Exported(sealer, old(View()), session) else old(View())
    {
      if latestIssued == U64_MAX {
        return Err(InvalidState("sealed-state counter overflow"));
      }
      var counter: U64 := latestIssued + 1;
      r := NoteExport(counter, sealer.seal(session, counter));
    }

    method Restore(sealer: Sealer) returns (r: Result<nat>)
      modifies this
      ensures r.Ok? <==> Restorable(sealer, old(View()))
      ensures r.Ok? ==> r.value == Import(sealer, old(sealed), MinImport(old(View()).tracker)).value.0
      ensures View() == if r.Ok? then Restored(sealer, old(View())) else old(View())
    {
      if sealed == [] {
        return Err(InvalidInput("sealed-state slot is empty"));
      }
      var imported := Import(sealer, sealed, MinImport(Tracker(maxRestored, latestIssued)));
      if imported.Err? {
        return Err(imported.error);
      }
      var noted := NoteRestore(imported.value.1);
      if noted.Err? {
        return Err(noted.error);
      }
      return Ok(imported.value.0);
    }
  }

  // ----- Steps of the wrappers -----

  predicate Exportable(sealer: Sealer, s: Slot, session: nat) {
    && s.tracker.latestIssued < U64_MAX && s.tracker.latestIssued + 1 >= s.tracker.maxRestored
    && |sealer.seal(session, s.tracker.latestIssued + 1)| <= MAX_BUFFER_SIZE
  }

  function Exported(sealer: Sealer, s: Slot, session: nat): Slot
    requires Exportable(sealer, s, session)
  {
    var counter := s.tracker.latestIssued + 1;
    Slot(Tracker(s.tracker.maxRestored, counter), sealer.seal(session, counter))
  }

  predicate Restorable(sealer: Sealer, s: Slot) {
    && s.sealed != []
    && Import(sealer, s.sealed, MinImport(s.tracker)).Ok?
    && Import(sealer, s.sealed, MinImport(s.tracker)).value.1 > 0
  }

  function Restored(sealer: Sealer, s: Slot): Slot
    requires Restorable(sealer, s)
  {
    var counter := Import(sealer, s.sealed, MinImport(s.tracker)).value.1;
    s.(tracker := Tracker(counter, if s.tracker.latestIssued < counter then counter else s.tracker.latestIssued))
  }

  // ----- Every run of the wrappers -----

  datatype Event = Export(session: nat) | Restore | Persist

  /** One call: an export or restore that fails changes nothing; persisting writes the record and reads it back. */
  function Next(sealer: Sealer, s: Slot, e: Event): Slot {
    match e
    case Export(session) => if Exportable(sealer, s, session) then Exported(sealer, s, session) else s
    case Restore => if Restorable(sealer, s) then Restored(sealer, s) else s
    case Persist =>
      match Serialize(s)
      case Err(_) => s
      case Ok(data) => match Deserialize(data) { case Ok(t) => t case Err(_) => s }
  }

  function Reached(sealer: Sealer, events: seq<Event>): Slot {
    if events == [] then NEW_SLOT else Next(sealer, Reached(sealer, events[..|events| - 1]), events[|events| - 1])
  }

  /** The blobs a run has issued, with the sessions and counters they hold. */
  function Issued(sealer: Sealer, events: seq<Event>): seq<(nat, U64)> {
    if events == [] then []
    else
      var before := Reached(sealer, events[..|events| - 1]);
      var earlier := Issued(sealer, events[..|events| - 1]);
      var e := events[|events| - 1];
      if e.Export? && Exportable(sealer, before, e.session) then earlier + [(e.session, before.tracker.latestIssued + 1)] else earlier
  }

  /** The stored blob is the newest one issued, and its counter is the import floor. */
  ghost predicate Consistent(sealer: Sealer, s: Slot, issued: seq<(nat, U64)>) {
    && s.tracker.maxRestored <= s.tracker.latestIssued == MinImport(s.tracker)
    && |s.sealed| <= MAX_BUFFER_SIZE
    && (forall i, j | 0 <= i < j < |issued| :: issued[i].1 < issued[j].1)
    && (forall i | 0 <= i < |issued| :: 0 < issued[i].1 <= s.tracker.latestIssued)
    && if issued == [] then s == NEW_SLOT
       else
         var newest := issued[|issued| - 1];
         newest.1 == s.tracker.latestIssued && s.sealed == sealer.seal(newest.0, newest.1)
  }

  lemma StepKeepsConsistent(sealer: Sealer, s: Slot, issued: seq<(nat, U64)>, e: Event)
    requires Works(sealer) && Consistent(sealer, s, issued)
    ensures Consistent(sealer, Next(sealer, s, e),
                       if e.Export? && Exportable(sealer, s, e.session) then issued + [(e.session, s.tracker.latestIssued + 1)] else issued)
  {
    match e
    case Export(session) =>
    case Restore =>
      if issued != [] {
        var newest := issued[|issued| - 1];
        assert sealer.open(sealer.seal(newest.0, newest.1)) == Some((newest.0, newest.1));
      }
    case Persist =>
      SlotRoundTrip(s);
  }

  /** Over every run the issued counters strictly increase and the slot stays consistent. */
  lemma {:induction false} RunsStayConsistent(sealer: Sealer, events: seq<Event>)
    requires Works(sealer)
    ensures Consistent(sealer, Reached(sealer, events), Issued(sealer, events))
  {
    if events != [] {
      var before := events[..|events| - 1];
      RunsStayConsistent(sealer, before);
      StepKeepsConsistent(sealer, Reached(sealer, before), Issued(sealer, before), events[|events| - 1]);
    }
  }

  ghost predicate Imports(sealer: Sealer, s: Slot, blob: (nat, U64)) {
    Import(sealer, sealer.seal(blob.0, blob.1), MinImport(s.tracker)).Ok?
  }

  /** Of the blobs issued exactly the newest one passes the import floor, and the slot restores it. */
  ghost predicate OnlyNewest(sealer: Sealer, s: Slot, issued: seq<(nat, U64)>) {
    && (forall i | 0 <= i < |issued| :: Imports(sealer, s, issued[i]) <==> i == |issued| - 1)
    && (issued != [] ==>
          Restorable(sealer, s) && Import(sealer, s.sealed, MinImport(s.tracker)) == Ok(issued[|issued| - 1]))
  }

  lemma ConsistentMeansOnlyNewest(sealer: Sealer, s: Slot, issued: seq<(nat, U64)>)
    requires Works(sealer) && Consistent(sealer, s, issued)
    ensures OnlyNewest(sealer, s, issued)
  {
    forall i | 0 <= i < |issued| ensures Imports(sealer, s, issued[i]) <==> i == |issued| - 1 {
      var (session, counter) := issued[i];
      assert sealer.open(sealer.seal(session, counter)) == Some((session, counter));
    }
    if issued != [] {
      var (session, counter) := issued[|issued| - 1];
      assert sealer.open(sealer.seal(session, counter)) == Some((session, counter));
    }
  }

  lemma OnlyTheNewestPasses(sealer: Sealer, events: seq<Event>)
    requires Works(sealer)
    ensures OnlyNewest(sealer, Reached(sealer, events), Issued(sealer, events))
  {
    RunsStayConsistent(sealer, events);
    ConsistentMeansOnlyNewest(sealer, Reached(sealer, events), Issued(sealer, events));
  }
}
