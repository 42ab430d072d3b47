/** Result codes and verification data that libavb and libavb_ab share
    (Application/UefiAvb/libavb/avb_slot_verify.h, avb_ops.h, libavb_ab/avb_ab_flow.h). */
module AvbTypes {
  import opened Bytes

  const MAX_ROLLBACK_LOCATIONS := 32

  // The other I/O errors are treated like IoError everywhere in the modelled code.
  datatype IoResult = IoOk | IoOom | IoError

  datatype VerifyResult =
    | VerifyOk
    | VerifyOom
    | VerifyIo
    | VerifyVerification
    | VerifyRollbackIndex
    | VerifyKeyRejected
    | VerifyInvalidMetadata
    | VerifyUnsupportedVersion
    | VerifyInvalidArgument

  // result_should_continue
  predicate ShouldContinue(r: VerifyResult) {
    match r
    case VerifyOk | VerifyVerification | VerifyRollbackIndex | VerifyKeyRejected => true
    case VerifyOom | VerifyIo | VerifyInvalidMetadata | VerifyUnsupportedVersion | VerifyInvalidArgument => false
  }

  // A verified vbmeta image, as far as rollback protection is concerned.
  datatype RollbackEntry = RollbackEntry(location: nat, index: u64)

  // The rollback_indexes array of slot_data: zero where nothing was recorded, the last
  // recorded index elsewhere.
  function IndexesFrom(entries: seq<RollbackEntry>): (r: seq<u64>)
    requires forall e :: e in entries ==> e.location < MAX_ROLLBACK_LOCATIONS
    ensures |r| == MAX_ROLLBACK_LOCATIONS
  {
    if entries == [] then seq(MAX_ROLLBACK_LOCATIONS, _ => 0)
    else
      var last := entries[|entries| - 1];
      IndexesFrom(entries[..|entries| - 1])[last.location := last.index]
  }

  // Every image is at or above the index stored for its location.
  predicate PassesRollback(entries: seq<RollbackEntry>, stored: seq<u64>) {
    forall e :: e in entries ==> e.location < |stored| && stored[e.location] <= e.index
  }

  predicate DistinctLocations(entries: seq<RollbackEntry>) {
    forall i, j :: 0 <= i < j < |entries| ==> entries[i].location != entries[j].location
  }

  // What a slot verification hands to its caller: the images are recorded only with data.
  datatype SlotOutcome = SlotOutcome(result: VerifyResult, hasData: bool, entries: seq<RollbackEntry>)

  // The contract of avb_slot_verify that the A/B flow relies on: data is returned exactly
  // when verification may continue, and in strict mode OK means that the rollback check
  // of every recorded image passed.
  predicate HonoursContract(o: SlotOutcome, allow: bool, stored: seq<u64>) {
    && (o.hasData <==> if allow then ShouldContinue(o.result) else o.result == VerifyOk)
    && (forall e :: e in o.entries ==> e.location < MAX_ROLLBACK_LOCATIONS)
    && (!allow && o.result == VerifyOk ==> PassesRollback(o.entries, stored))
  }

  lemma {:induction false} IndexesBounded(entries: seq<RollbackEntry>, stored: seq<u64>, n: nat)
    requires |stored| == MAX_ROLLBACK_LOCATIONS && n < MAX_ROLLBACK_LOCATIONS
    requires forall e :: e in entries ==> e.location < MAX_ROLLBACK_LOCATIONS
    requires PassesRollback(entries, stored)
    ensures IndexesFrom(entries)[n] == 0 || stored[n] <= IndexesFrom(entries)[n]
  {
    if entries != [] {
      assert entries[|entries| - 1] in entries;
      IndexesBounded(entries[..|entries| - 1], stored, n);
    }
  }

  // The image recorded last at each location has the lowest index of its location.
  predicate LastIsLowest(entries: seq<RollbackEntry>)
    requires forall x :: x in entries ==> x.location < MAX_ROLLBACK_LOCATIONS
  {
    forall e :: e in entries ==> IndexesFrom(entries)[e.location] <= e.index
  }

  lemma DistinctLastIsLowest(entries: seq<RollbackEntry>)
    requires forall x :: x in entries ==> x.location < MAX_ROLLBACK_LOCATIONS
    requires DistinctLocations(entries)
    ensures LastIsLowest(entries)
  {
    forall e | e in entries ensures IndexesFrom(entries)[e.location] <= e.index {
      IndexesExact(entries, e);
    }
  }

  // With one image per location, every image finds its own index in the array.
  lemma {:induction false} IndexesExact(entries: seq<RollbackEntry>, e: RollbackEntry)
    requires forall x :: x in entries ==> x.location < MAX_ROLLBACK_LOCATIONS
    requires DistinctLocations(entries) && e in entries
    ensures IndexesFrom(entries)[e.location] == e.index
  {
    var last := entries[|entries| - 1];
    if e != last {
      var front := entries[..|entries| - 1];
      var i :| 0 <= i < |entries| && entries[i] == e;
      assert front[i] == e;
      IndexesExact(front, e);
    }
  }
}
