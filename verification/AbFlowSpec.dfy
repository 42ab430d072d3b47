/** Application/UefiAvb/libavb_ab/avb_ab_flow.c as functions on an abstract store: loading and
    normalising the metadata, slot selection, rollback update, and the three mark operations. */
module AbFlowSpec {
  import opened Bytes
  import opened AvbTypes
  import opened AbData

  // disk is None while the record in the misc partition is not acceptable.
  datatype Store = Store(disk: Option<Metadata>, rollback: seq<u64>) {
    predicate Shaped() {
      (disk.Some? ==> disk.value.Shaped()) && |rollback| == MAX_ROLLBACK_LOCATIONS
    }
  }

  datatype FlowResult =
    | FlowOk
    | FlowOkWithVerificationError
    | FlowOom
    | FlowIo
    | FlowNoBootableSlots
    | FlowInvalidArgument

  // ----- slots

  function SetUnbootable(s: Slot): Slot {
    s.(priority := 0, tries := 0, successful := 0)
  }

  predicate Bootable(s: Slot) {
    s.priority > 0 && (s.successful != 0 || s.tries > 0)
  }

  function Normalize(s: Slot): Slot {
    if s.priority > 0 then
      if s.tries == 0 && s.successful == 0 then SetUnbootable(s)
      else if s.tries > 0 && s.successful != 0 then SetUnbootable(s)
      else s
    else SetUnbootable(s)
  }

  function Normalized(d: Metadata): (r: Metadata)
    requires d.Shaped()
    ensures r.Shaped()
  {
    d.(slots := [Normalize(d.slots[0]), Normalize(d.slots[1])])
  }

  // ----- metadata on disk

  // The metadata as it is read back after a write.
  function Stamped(d: Metadata): (r: Metadata)
    requires d.Shaped()
    ensures r.Shaped() && r.slots == d.slots && r.magic == d.magic && r.major == d.major
  {
    d.(crc32 := CheckOf(d))
  }

  function Written(d: Metadata): Option<Metadata>
    requires d.Shaped()
  {
    if d.magic == AB_MAGIC && d.major <= MAJOR_VERSION then Some(Stamped(d)) else None
  }

  // The outside world during one call: what each device operation and each slot
  // verification answers, and what uninitialised stack memory holds.
  datatype LoadEnv = LoadEnv(read: IoResult, numRead: nat, reset: IoResult)

  datatype FlowEnv = FlowEnv(
    load: LoadEnv, junk: Metadata, junkOrig: Metadata,
    verify: seq<SlotOutcome>, readIndex: seq<IoResult>, writeIndex: seq<IoResult>, save: IoResult)
  {
    predicate Shaped() {
      && junk.Shaped() && junkOrig.Shaped() && |verify| == 2
      && |readIndex| == MAX_ROLLBACK_LOCATIONS && |writeIndex| == MAX_ROLLBACK_LOCATIONS
    }

    // Both verifications honour their contract towards the given stored indexes.
    predicate Honest(allow: bool, stored: seq<u64>) {
      Shaped() && forall n :: 0 <= n < 2 ==> HonoursContract(verify[n], allow, stored)
    }
  }

  // The outcome of load_metadata: the loaded data is normalised, orig is not. When it fails, the
  // caller's record is what it was before, unless it was set for a reset that could not be written.
  datatype Loaded = LoadFailed(error: IoResult, left: Option<Metadata>) | LoadedData(data: Metadata, orig: Metadata)
  {
    function Memory(before: Metadata): Metadata
      requires LoadFailed?
    {
      if left.None? then before else left.value
    }
  }

  // The partition cannot be read, or not all of the record.
  predicate ReadFails(env: LoadEnv) {
    env.read != IoOk || env.numRead != DATA_SIZE
  }

  function LoadMetadata(disk: Option<Metadata>, env: LoadEnv): (r: (Loaded, Option<Metadata>))
    requires disk.Some? ==> disk.value.Shaped()
    ensures r.0.LoadFailed? ==> r.0.error != IoOk && (r.0.left.Some? ==> r.0.left.value.Shaped())
    ensures r.0.LoadedData? ==> r.0.data.Shaped() && r.0.orig.Shaped()
    ensures r.1.Some? ==> r.1.value.Shaped()
  {
    if ReadFails(env) then (LoadFailed(if env.read == IoOom then IoOom else IoError, None), disk)
    else if disk.Some? then (LoadedData(Normalized(disk.value), disk.value), disk)
    else
      var init := InitialMetadata();
      if env.reset == IoOk then (LoadedData(Normalized(init), init), Written(init))
      else (LoadFailed(env.reset, Some(init)), disk)
  }

  // save_metadata_if_changed
  function SaveIfChanged(disk: Option<Metadata>, data: Metadata, orig: Metadata, io: IoResult)
    : (r: (IoResult, Option<Metadata>))
    requires data.Shaped() && (disk.Some? ==> disk.value.Shaped())
    ensures r.1.Some? ==> r.1.value.Shaped()
  {
    if data == orig then (IoOk, disk)
    else if io == IoOk then (IoOk, Written(data))
    else (io, disk)
  }

  function SaveError(io: IoResult): FlowResult
    requires io != IoOk
  {
    if io == IoOom then FlowOom else FlowIo
  }

  // ----- the verification loop

  datatype Verified =
    | Stopped(error: FlowResult, slots: seq<Slot>)
    | Verified(slots: seq<Slot>, data: seq<bool>, sawError: bool)

  function VerifySlots(slots: seq<Slot>, allow: bool, outcomes: seq<SlotOutcome>, n: nat,
                       data: seq<bool>, sawError: bool): (v: Verified)
    requires |slots| == |outcomes| == 2 && |data| == n <= 2
    ensures |v.slots| == 2
    ensures v.Verified? ==> |v.data| == 2
    decreases 2 - n
  {
    if n == 2 then Verified(slots, data, sawError)
    else if !Bootable(slots[n]) then VerifySlots(slots, allow, outcomes, n + 1, data + [false], sawError)
    else
      var o := outcomes[n];
      var unbootable := slots[n := SetUnbootable(slots[n])];
      match o.result
      case VerifyOom => Stopped(FlowOom, slots)
      case VerifyIo => Stopped(FlowIo, slots)
      case VerifyInvalidArgument => Stopped(FlowInvalidArgument, slots)
      case VerifyOk => VerifySlots(slots, allow, outcomes, n + 1, data + [o.hasData], sawError)
      case VerifyInvalidMetadata | VerifyUnsupportedVersion =>
        VerifySlots(unbootable, allow, outcomes, n + 1, data + [o.hasData], sawError)
      case VerifyVerification | VerifyRollbackIndex | VerifyKeyRejected =>
        if allow then VerifySlots(slots, allow, outcomes, n + 1, data + [o.hasData], true)
        else VerifySlots(unbootable, allow, outcomes, n + 1, data + [o.hasData], sawError)
  }

  // The same loop read off slot by slot.
  predicate Aborts(r: VerifyResult) {
    r == VerifyOom || r == VerifyIo || r == VerifyInvalidArgument
  }

  predicate Rejects(r: VerifyResult, allow: bool) {
    match r
    case VerifyInvalidMetadata | VerifyUnsupportedVersion => true
    case VerifyVerification | VerifyRollbackIndex | VerifyKeyRejected => !allow
    case _ => false
  }

  function AfterVerify(s: Slot, o: SlotOutcome, allow: bool): Slot {
    if Bootable(s) && Rejects(o.result, allow) then SetUnbootable(s) else s
  }

  predicate HasData(s: Slot, o: SlotOutcome) {
    Bootable(s) && o.hasData
  }

  lemma VerifySlotsExact(slots: seq<Slot>, allow: bool, outcomes: seq<SlotOutcome>)
    requires |slots| == |outcomes| == 2
    ensures var v := VerifySlots(slots, allow, outcomes, 0, [], false);
            && (v.Stopped? <==> exists k :: 0 <= k < 2 && Bootable(slots[k]) && Aborts(outcomes[k].result))
            && (v.Verified? ==>
                  && v.slots == [AfterVerify(slots[0], outcomes[0], allow), AfterVerify(slots[1], outcomes[1], allow)]
                  && v.data == [HasData(slots[0], outcomes[0]), HasData(slots[1], outcomes[1])])
            && (v.Stopped? ==>
                  v.slots == slots || v.slots == [AfterVerify(slots[0], outcomes[0], allow), slots[1]])
  {
    var (o, p) := (outcomes[0], outcomes[1]);
    var v := VerifySlots(slots, allow, outcomes, 0, [], false);
    var h := HasData(slots[0], o);
    assert [] + [h] == [h];
    if !(Bootable(slots[0]) && Aborts(o.result)) {
      var s1 := slots[0 := AfterVerify(slots[0], o, allow)];
      var saw := Bootable(slots[0]) && allow && o.result in {VerifyVerification, VerifyRollbackIndex, VerifyKeyRejected};
      assert slots[0 := slots[0]] == slots;
      assert v == VerifySlots(s1, allow, outcomes, 1, [h], saw);
      assert s1 == [s1[0], slots[1]];
      SecondSlotExact(s1, allow, outcomes, h, saw);
    }
  }

  lemma SecondSlotExact(s: seq<Slot>, allow: bool, outcomes: seq<SlotOutcome>, h: bool, saw: bool)
    requires |s| == |outcomes| == 2
    ensures var v := VerifySlots(s, allow, outcomes, 1, [h], saw);
            && (v.Stopped? <==> Bootable(s[1]) && Aborts(outcomes[1].result))
            && (v.Verified? ==> v.slots == [s[0], AfterVerify(s[1], outcomes[1], allow)]
                                && v.data == [h, HasData(s[1], outcomes[1])])
            && (v.Stopped? ==> v.slots == s)
  {
    assert s[1 := s[1]] == s;
  }

  function Choose(slots: seq<Slot>): (r: Option<nat>)
    requires |slots| == 2
    ensures r.Some? ==> r.value < 2 && Bootable(slots[r.value])
  {
    if Bootable(slots[0]) && Bootable(slots[1]) then
      if slots[1].priority > slots[0].priority then Some(1) else Some(0)
    else if Bootable(slots[0]) then Some(0)
    else if Bootable(slots[1]) then Some(1)
    else None
  }

  // The bootable slot of higher priority, the first one on a tie.
  lemma ChooseMeaning(slots: seq<Slot>, k: nat)
    requires |slots| == 2 && k < 2
    ensures Choose(slots) == Some(k) <==>
              && Bootable(slots[k])
              && (Bootable(slots[1 - k]) ==>
                    slots[k].priority > slots[1 - k].priority || (k == 0 && slots[0].priority == slots[1].priority))
    ensures Choose(slots) == None <==> !Bootable(slots[0]) && !Bootable(slots[1])
  {
  }

  // ----- the rollback update loop

  // The largest value that every slot with data supports, 0 when there is none.
  function NewIndex(data: seq<bool>, outcomes: seq<SlotOutcome>, n: nat): u64
    requires |data| == |outcomes| == 2 && n < MAX_ROLLBACK_LOCATIONS
    requires forall k :: 0 <= k < 2 ==> forall e :: e in outcomes[k].entries ==> e.location < MAX_ROLLBACK_LOCATIONS
  {
    var (a, b) := (IndexesFrom(outcomes[0].entries)[n], IndexesFrom(outcomes[1].entries)[n]);
    if data[0] && data[1] then if a < b then a else b
    else if data[0] then a
    else if data[1] then b
    else 0
  }

  datatype Updated = Updated(rollback: seq<u64>, error: Option<FlowResult>)

  function UpdateIndexes(rollback: seq<u64>, wanted: seq<u64>, env: FlowEnv, n: nat): (u: Updated)
    requires |rollback| == |wanted| == MAX_ROLLBACK_LOCATIONS && env.Shaped() && n <= MAX_ROLLBACK_LOCATIONS
    ensures |u.rollback| == MAX_ROLLBACK_LOCATIONS
    decreases MAX_ROLLBACK_LOCATIONS - n
  {
    if n == MAX_ROLLBACK_LOCATIONS then Updated(rollback, None)
    else if wanted[n] == 0 then UpdateIndexes(rollback, wanted, env, n + 1)
    else if env.readIndex[n] != IoOk then Updated(rollback, Some(SaveError(env.readIndex[n])))
    else if rollback[n] == wanted[n] then UpdateIndexes(rollback, wanted, env, n + 1)
    else if env.writeIndex[n] != IoOk then Updated(rollback, Some(SaveError(env.writeIndex[n])))
    else UpdateIndexes(rollback[n := wanted[n]], wanted, env, n + 1)
  }

  function Wanted(data: seq<bool>, outcomes: seq<SlotOutcome>): (w: seq<u64>)
    requires |data| == |outcomes| == 2
    requires forall k :: 0 <= k < 2 ==> forall e :: e in outcomes[k].entries ==> e.location < MAX_ROLLBACK_LOCATIONS
    ensures |w| == MAX_ROLLBACK_LOCATIONS
    ensures forall n :: 0 <= n < MAX_ROLLBACK_LOCATIONS ==> w[n] == NewIndex(data, outcomes, n)
  {
    seq(MAX_ROLLBACK_LOCATIONS, n requires 0 <= n < MAX_ROLLBACK_LOCATIONS => NewIndex(data, outcomes, n))
  }

  // ----- avb_ab_flow

  // boot is the selected slot, given only with the two OK results; confirmed tells whether
  // that slot is marked successful.
  datatype Outcome = Outcome(store: Store, ret: FlowResult, boot: Option<nat>, confirmed: bool)

  // Everything after a successful load and before the label out: the changed metadata, the
  // rollback indexes, and the answer so far.
  datatype Decision = Decision(data: Metadata, rollback: seq<u64>, ret: FlowResult, boot: Option<nat>)

  function Tick(s: Slot): Slot {
    if s.successful == 0 && s.tries > 0 then s.(tries := s.tries - 1) else s
  }

  function Decide(data: Metadata, rollback: seq<u64>, allow: bool, env: FlowEnv): (d: Decision)
    requires data.Shaped() && |rollback| == MAX_ROLLBACK_LOCATIONS && env.Honest(allow, rollback)
    ensures d.data.Shaped() && |d.rollback| == MAX_ROLLBACK_LOCATIONS
    ensures d.boot.Some? ==> d.boot.value < 2
    ensures d.boot.Some? <==> d.ret == FlowOk || d.ret == FlowOkWithVerificationError
  {
    var v := VerifySlots(data.slots, allow, env.verify, 0, [], false);
    match v
    case Stopped(error, slots) =>
      StoppedIsError(data.slots, allow, env.verify, 0, [], false);
      Decision(data.(slots := slots), rollback, error, None)
    case Verified(slots, has, sawError) =>
      var boot := Choose(slots);
      if boot.None? then Decision(data.(slots := slots), rollback, FlowNoBootableSlots, None)
      else
        var u := UpdateIndexes(rollback, Wanted(has, env.verify), env, 0);
        if u.error.Some? then
          UpdateErrorIsError(rollback, Wanted(has, env.verify), env, 0);
          Decision(data.(slots := slots), u.rollback, u.error.value, None)
        else
          var k := boot.value;
          Decision(data.(slots := slots[k := Tick(slots[k])]), u.rollback,
                   if sawError then FlowOkWithVerificationError else FlowOk, boot)
  }

  lemma {:induction false} StoppedIsError(slots: seq<Slot>, allow: bool, outcomes: seq<SlotOutcome>, n: nat,
                       data: seq<bool>, sawError: bool)
    requires |slots| == |outcomes| == 2 && |data| == n <= 2
    ensures var v := VerifySlots(slots, allow, outcomes, n, data, sawError);
            v.Stopped? ==> v.error != FlowOk && v.error != FlowOkWithVerificationError
    decreases 2 - n
  {
    if n < 2 {
      var o := outcomes[n];
      var unbootable := slots[n := SetUnbootable(slots[n])];
      StoppedIsError(slots, allow, outcomes, n + 1, data + [false], sawError);
      StoppedIsError(slots, allow, outcomes, n + 1, data + [o.hasData], sawError);
      StoppedIsError(slots, allow, outcomes, n + 1, data + [o.hasData], true);
      StoppedIsError(unbootable, allow, outcomes, n + 1, data + [o.hasData], sawError);
    }
  }

  lemma {:induction false} UpdateErrorIsError(rollback: seq<u64>, wanted: seq<u64>, env: FlowEnv, n: nat)
    requires |rollback| == |wanted| == MAX_ROLLBACK_LOCATIONS && env.Shaped() && n <= MAX_ROLLBACK_LOCATIONS
    ensures var u := UpdateIndexes(rollback, wanted, env, n);
            u.error.Some? ==> u.error.value == FlowOom || u.error.value == FlowIo
    decreases MAX_ROLLBACK_LOCATIONS - n
  {
    if n < MAX_ROLLBACK_LOCATIONS {
      UpdateErrorIsError(rollback, wanted, env, n + 1);
      UpdateErrorIsError(rollback[n := wanted[n]], wanted, env, n + 1);
    }
  }

  function Flow(s: Store, allow: bool, env: FlowEnv): (o: Outcome)
    requires s.Shaped() && env.Honest(allow, s.rollback)
    ensures o.store.Shaped()
  {
    var (loaded, disk) := LoadMetadata(s.disk, env.load);
    match loaded
    case LoadFailed(error, _) =>
      // The jump to the label out compares and saves memory that was never set, or set only in part.
      var (io, disk') := SaveIfChanged(disk, loaded.Memory(env.junk), env.junkOrig, env.save);
      Outcome(Store(disk', s.rollback), if io == IoOk then SaveError(error) else SaveError(io), None, false)
    case LoadedData(data, orig) =>
      var d := Decide(data, s.rollback, allow, env);
      var (io, disk') := SaveIfChanged(disk, d.data, orig, env.save);
      if io != IoOk then Outcome(Store(disk', d.rollback), SaveError(io), None, false)
      else Outcome(Store(disk', d.rollback), d.ret, d.boot,
                   d.boot.Some? && d.data.slots[d.boot.value].successful != 0)
  }

  // What a call does to each half of the store.
  lemma FlowParts(s: Store, allow: bool, env: FlowEnv)
    requires s.Shaped() && env.Honest(allow, s.rollback)
    ensures var (loaded, disk) := LoadMetadata(s.disk, env.load);
            var o := Flow(s, allow, env);
            && (loaded.LoadFailed? ==>
                  && o.store.rollback == s.rollback && o.boot.None?
                  && o.store.disk == SaveIfChanged(disk, loaded.Memory(env.junk), env.junkOrig, env.save).1)
            && (loaded.LoadedData? ==>
                  var d := Decide(loaded.data, s.rollback, allow, env);
                  && o.store.rollback == d.rollback
                  && o.store.disk == SaveIfChanged(disk, d.data, loaded.orig, env.save).1
                  && (SaveIfChanged(disk, d.data, loaded.orig, env.save).0 == IoOk ==>
                        o.ret == d.ret && o.boot == d.boot
                        && o.confirmed == (d.boot.Some? && d.data.slots[d.boot.value].successful != 0))
                  && (SaveIfChanged(disk, d.data, loaded.orig, env.save).0 != IoOk ==> o.boot.None?))
    ensures Flow(s, allow, env).boot.Some? <==>
              Flow(s, allow, env).ret == FlowOk || Flow(s, allow, env).ret == FlowOkWithVerificationError
  {
  }

  // ----- the mark operations

  datatype MarkEnv = MarkEnv(load: LoadEnv, save: IoResult)

  datatype Marking = MarkActive | MarkUnbootable | MarkSuccessful

  function MarkedSlots(slots: seq<Slot>, m: Marking, k: nat): (r: seq<Slot>)
    requires |slots| == 2 && k < 2
    ensures |r| == 2
  {
    match m
    case MarkActive =>
      var other := slots[1 - k];
      slots[k := slots[k].(priority := MAX_PRIORITY, tries := MAX_TRIES, successful := 0)]
           [1 - k := if other.priority == MAX_PRIORITY then other.(priority := MAX_PRIORITY - 1) else other]
    case MarkUnbootable => slots[k := SetUnbootable(slots[k])]
    case MarkSuccessful =>
      if Bootable(slots[k]) then slots[k := slots[k].(tries := 0, successful := 1)] else slots
  }

  function Mark(s: Store, m: Marking, k: nat, env: MarkEnv): (r: (Store, IoResult))
    requires s.Shaped() && k < 2
    ensures r.0.Shaped()
  {
    var (loaded, disk) := LoadMetadata(s.disk, env.load);
    match loaded
    case LoadFailed(error, _) => (s.(disk := disk), error)
    case LoadedData(data, orig) =>
      var (io, disk') := SaveIfChanged(disk, data.(slots := MarkedSlots(data.slots, m, k)), orig, env.save);
      (s.(disk := disk'), io)
  }
}
