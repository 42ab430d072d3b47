/** What one call of avb_ab_flow promises, said on slots, result codes and rollback indexes
    alone: the numbered steps of the description in Application/UefiAvb/libavb_ab/avb_ab_flow.h. */
module AbMeaning {
  import opened Bytes
  import opened AbData
  import opened AbFlowSpec
  import opened AbRollback
  import opened AvbTypes

  // ----- the states of a slot

  // A loaded slot has been confirmed, or has tries left, or is cleared; the first two states are
  // the bootable ones, and a slot in one of them is loaded as it was stored.
  lemma LoadedStates(s: Slot)
    ensures var t := Normalize(s);
            || (t == s && s.priority > 0 && s.tries == 0 && s.successful != 0 && Bootable(t))
            || (t == s && s.priority > 0 && s.tries > 0 && s.successful == 0 && Bootable(t))
            || (t.priority == t.tries == t.successful == 0 && t.reserved == s.reserved && !Bootable(t)
                && (s.priority == 0 || (s.tries > 0 <==> s.successful != 0)))
  {
  }

  // ----- step 2: the verification of the slots

  // The run ends in an error exactly if a bootable slot meets one of three results; the first
  // such slot decides which error it is.
  lemma VerificationStops(slots: seq<Slot>, allow: bool, outcomes: seq<SlotOutcome>, k: nat)
    requires |slots| == |outcomes| == 2 && k < 2
    requires Bootable(slots[k]) && outcomes[k].result in {VerifyOom, VerifyIo, VerifyInvalidArgument}
    requires k == 1 && Bootable(slots[0]) ==> outcomes[0].result !in {VerifyOom, VerifyIo, VerifyInvalidArgument}
    ensures var v := VerifySlots(slots, allow, outcomes, 0, [], false);
            && v.Stopped?
            && (v.error == FlowOom <==> outcomes[k].result == VerifyOom)
            && (v.error == FlowIo <==> outcomes[k].result == VerifyIo)
            && (v.error == FlowInvalidArgument <==> outcomes[k].result == VerifyInvalidArgument)
  {
    if k == 1 && Bootable(slots[0]) {
      var kept := VerifySlots(slots, allow, outcomes, 1, [outcomes[0].hasData], false);
      assert [] + [outcomes[0].hasData] == [outcomes[0].hasData];
    }
  }

  // A verification error of a bootable slot was allowed.
  predicate Allowed(s: Slot, r: VerifyResult, allow: bool) {
    allow && Bootable(s) && r in {VerifyVerification, VerifyRollbackIndex, VerifyKeyRejected}
  }

  lemma SawErrorIff(slots: seq<Slot>, allow: bool, outcomes: seq<SlotOutcome>)
    requires |slots| == |outcomes| == 2 && VerifySlots(slots, allow, outcomes, 0, [], false).Verified?
    ensures VerifySlots(slots, allow, outcomes, 0, [], false).sawError <==>
              Allowed(slots[0], outcomes[0].result, allow) || Allowed(slots[1], outcomes[1].result, allow)
  {
    var (h, saw) := (HasData(slots[0], outcomes[0]), Allowed(slots[0], outcomes[0].result, allow));
    var s1 := slots[0 := AfterVerify(slots[0], outcomes[0], allow)];
    assert [] + [h] == [h];
    assert slots[0 := slots[0]] == slots;
    assert VerifySlots(slots, allow, outcomes, 0, [], false) == VerifySlots(s1, allow, outcomes, 1, [h], saw);
    SecondSawError(s1, allow, outcomes, h, saw);
  }

  lemma SecondSawError(s: seq<Slot>, allow: bool, outcomes: seq<SlotOutcome>, h: bool, saw: bool)
    requires |s| == |outcomes| == 2 && VerifySlots(s, allow, outcomes, 1, [h], saw).Verified?
    ensures VerifySlots(s, allow, outcomes, 1, [h], saw).sawError <==> saw || Allowed(s[1], outcomes[1].result, allow)
  {
  }

  // ----- steps 2, 3 and 5: what becomes of the slots, and which one boots

  // A bootable slot with this result is given up.
  predicate GivenUp(s: Slot, r: VerifyResult, allow: bool) {
    Bootable(s) && (r in {VerifyInvalidMetadata, VerifyUnsupportedVersion}
                    || (!allow && r in {VerifyVerification, VerifyRollbackIndex, VerifyKeyRejected}))
  }

  // A slot that can still boot after its verification.
  predicate Survives(s: Slot, r: VerifyResult, allow: bool) {
    Bootable(s) && !GivenUp(s, r, allow)
  }

  // When a slot boots, the slots that were given up are cleared; of the others only the booted
  // one changes, and it loses one try unless it is confirmed. The booted slot is the survivor of
  // the higher priority, the first one on a tie, and the answer tells whether a verification
  // error was allowed.
  lemma SlotsAfterBoot(data: Metadata, rollback: seq<u64>, allow: bool, env: FlowEnv)
    requires data.Shaped() && |rollback| == MAX_ROLLBACK_LOCATIONS && env.Honest(allow, rollback)
    requires Decide(data, rollback, allow, env).boot.Some?
    ensures var d := Decide(data, rollback, allow, env);
            && (d.ret == FlowOkWithVerificationError <==>
                  Allowed(data.slots[0], env.verify[0].result, allow) || Allowed(data.slots[1], env.verify[1].result, allow))
            && d.ret in {FlowOk, FlowOkWithVerificationError}
    ensures forall k :: 0 <= k < 2 ==>
              var (s, t) := (data.slots[k], Decide(data, rollback, allow, env).data.slots[k]);
              if GivenUp(s, env.verify[k].result, allow) then
                t == Slot(0, 0, 0, s.reserved)
              else if Decide(data, rollback, allow, env).boot == Some(k) && s.successful == 0 then
                t == s.(tries := s.tries - 1)
              else
                t == s
    ensures var b := Decide(data, rollback, allow, env).boot.value;
            var (mine, other) := (data.slots[b], data.slots[1 - b]);
            && Survives(mine, env.verify[b].result, allow)
            && (Survives(other, env.verify[1 - b].result, allow) ==>
                  mine.priority > other.priority || (mine.priority == other.priority && b == 0))
  {
    VerifySlotsExact(data.slots, allow, env.verify);
    SawErrorIff(data.slots, allow, env.verify);
    RejectsIsGivenUp(data.slots[0], env.verify[0].result, allow);
    RejectsIsGivenUp(data.slots[1], env.verify[1].result, allow);
  }

  lemma RejectsIsGivenUp(s: Slot, r: VerifyResult, allow: bool)
    ensures GivenUp(s, r, allow) <==> Bootable(s) && Rejects(r, allow)
  {
  }

  // ----- step 4: the stored rollback indexes

  // The update ends without an error exactly if every location with a value to be stored can be
  // read and, unless it holds the value already, written.
  lemma {:induction false} UpdateSucceedsIff(rollback: seq<u64>, wanted: seq<u64>, env: FlowEnv, n: nat)
    requires |rollback| == |wanted| == MAX_ROLLBACK_LOCATIONS && env.Shaped() && n <= MAX_ROLLBACK_LOCATIONS
    ensures UpdateIndexes(rollback, wanted, env, n).error.None? <==>
              forall i :: n <= i < MAX_ROLLBACK_LOCATIONS && wanted[i] != 0 ==>
                env.readIndex[i] == IoOk && (rollback[i] == wanted[i] || env.writeIndex[i] == IoOk)
    decreases MAX_ROLLBACK_LOCATIONS - n
  {
    if n < MAX_ROLLBACK_LOCATIONS {
      UpdateSucceedsIff(rollback, wanted, env, n + 1);
      UpdateSucceedsIff(rollback[n := wanted[n]], wanted, env, n + 1);
    }
  }

  // Otherwise the first location that cannot be read, or written where that is needed, decides
  // the error.
  lemma {:induction false} UpdateStopsAt(rollback: seq<u64>, wanted: seq<u64>, env: FlowEnv, n: nat, i: nat)
    requires |rollback| == |wanted| == MAX_ROLLBACK_LOCATIONS && env.Shaped() && n <= i < MAX_ROLLBACK_LOCATIONS
    requires forall j :: n <= j < i && wanted[j] != 0 ==>
               env.readIndex[j] == IoOk && (rollback[j] == wanted[j] || env.writeIndex[j] == IoOk)
    requires wanted[i] != 0
    requires env.readIndex[i] != IoOk || (rollback[i] != wanted[i] && env.writeIndex[i] != IoOk)
    ensures var failed := if env.readIndex[i] != IoOk then env.readIndex[i] else env.writeIndex[i];
            UpdateIndexes(rollback, wanted, env, n).error == Some(if failed == IoOom then FlowOom else FlowIo)
    decreases i - n
  {
    if n < i {
      UpdateStopsAt(rollback, wanted, env, n + 1, i);
      UpdateStopsAt(rollback[n := wanted[n]], wanted, env, n + 1, i);
    }
  }

  // The slots that were verified with data.
  predicate Verified(s: Slot, o: SlotOutcome) { Bootable(s) && o.hasData }

  predicate InRange(env: FlowEnv) {
    env.Shaped() && forall k :: 0 <= k < 2 ==> forall e :: e in env.verify[k].entries ==> e.location < MAX_ROLLBACK_LOCATIONS
  }

  // v is no larger than the index that any verified slot recorded for location i.
  predicate Supported(slots: seq<Slot>, env: FlowEnv, i: nat, v: nat)
    requires |slots| == 2 && InRange(env) && i < MAX_ROLLBACK_LOCATIONS
  {
    && (Verified(slots[0], env.verify[0]) ==> v <= IndexesFrom(env.verify[0].entries)[i])
    && (Verified(slots[1], env.verify[1]) ==> v <= IndexesFrom(env.verify[1].entries)[i])
  }

  ghost predicate Largest(slots: seq<Slot>, env: FlowEnv, i: nat, v: nat)
    requires |slots| == 2 && InRange(env) && i < MAX_ROLLBACK_LOCATIONS
  {
    Supported(slots, env, i, v) && forall x: nat :: Supported(slots, env, i, x) ==> x <= v
  }

  lemma NewIndexIsLargest(slots: seq<Slot>, env: FlowEnv, i: nat)
    requires |slots| == 2 && InRange(env) && i < MAX_ROLLBACK_LOCATIONS
    requires Verified(slots[0], env.verify[0]) || Verified(slots[1], env.verify[1])
    ensures Largest(slots, env, i, NewIndex(DataFlags(slots, env), env.verify, i))
  {
  }

  // The largest value is 0 exactly if 1 is not supported.
  lemma LargestIsUnique(slots: seq<Slot>, env: FlowEnv, i: nat, v: nat, w: nat)
    requires |slots| == 2 && InRange(env) && i < MAX_ROLLBACK_LOCATIONS && Largest(slots, env, i, v)
    ensures Largest(slots, env, i, w) <==> v == w
    ensures v != 0 <==> Supported(slots, env, i, 1)
  {
  }

  // After a boot a location holds the largest value that every verified slot supports, unless
  // that is 0: then it is as it was.
  lemma StoredIsLargestSupported(s: Store, allow: bool, env: FlowEnv, i: nat)
    requires s.Shaped() && env.Honest(allow, s.rollback) && i < MAX_ROLLBACK_LOCATIONS
    requires Flow(s, allow, env).boot.Some?
    ensures LoadMetadata(s.disk, env.load).0.LoadedData? && InRange(env)
    ensures var slots := LoadMetadata(s.disk, env.load).0.data.slots;
            if Supported(slots, env, i, 1) then Largest(slots, env, i, Flow(s, allow, env).store.rollback[i])
            else Flow(s, allow, env).store.rollback[i] == s.rollback[i]
  {
    BootStoresSupportedIndex(s, allow, env, i);
    BootHasData(s, allow, env);
    var slots := LoadMetadata(s.disk, env.load).0.data.slots;
    var w := NewIndex(DataFlags(slots, env), env.verify, i);
    NewIndexIsLargest(slots, env, i);
    LargestIsUnique(slots, env, i, w, w);
  }

  lemma HonestInRange(allow: bool, env: FlowEnv, stored: seq<u64>)
    requires env.Honest(allow, stored)
    ensures InRange(env)
  {
    assert HonoursContract(env.verify[0], allow, stored) && HonoursContract(env.verify[1], allow, stored);
  }

  lemma BootHasData(s: Store, allow: bool, env: FlowEnv)
    requires s.Shaped() && env.Honest(allow, s.rollback) && Flow(s, allow, env).boot.Some?
    ensures LoadMetadata(s.disk, env.load).0.LoadedData? && InRange(env)
    ensures var slots := LoadMetadata(s.disk, env.load).0.data.slots;
            Verified(slots[0], env.verify[0]) || Verified(slots[1], env.verify[1])
  {
    HonestInRange(allow, env, s.rollback);
    FlowParts(s, allow, env);
    var slots := LoadMetadata(s.disk, env.load).0.data.slots;
    VerifySlotsExact(slots, allow, env.verify);
    ChosenHasData(slots, allow, env, s.rollback);
  }

  // Two verified slots that both recorded an index leave exactly the smaller one.
  lemma TwoSlotsLeaveSmaller(s: Store, allow: bool, env: FlowEnv, i: nat, slots: seq<Slot>, a: u64, b: u64)
    requires s.Shaped() && env.Honest(allow, s.rollback) && i < MAX_ROLLBACK_LOCATIONS && InRange(env)
    requires Flow(s, allow, env).boot.Some?
    requires LoadMetadata(s.disk, env.load).0.LoadedData? && slots == LoadMetadata(s.disk, env.load).0.data.slots
    requires Verified(slots[0], env.verify[0]) && Verified(slots[1], env.verify[1])
    requires a == IndexesFrom(env.verify[0].entries)[i] != 0 && b == IndexesFrom(env.verify[1].entries)[i] != 0
    ensures Flow(s, allow, env).store.rollback[i] == if a <= b then a else b
  {
    StoredIsLargestSupported(s, allow, env, i);
    SmallerIsLargest(slots, env, i, a, b, Flow(s, allow, env).store.rollback[i]);
  }

  lemma SmallerIsLargest(slots: seq<Slot>, env: FlowEnv, i: nat, a: u64, b: u64, v: u64)
    requires |slots| == 2 && InRange(env) && i < MAX_ROLLBACK_LOCATIONS
    requires Verified(slots[0], env.verify[0]) && Verified(slots[1], env.verify[1])
    requires a == IndexesFrom(env.verify[0].entries)[i] != 0 && b == IndexesFrom(env.verify[1].entries)[i] != 0
    ensures Supported(slots, env, i, 1)
    ensures Largest(slots, env, i, v) ==> v == if a <= b then a else b
  {
    LargestIsUnique(slots, env, i, if a <= b then a else b, v);
  }

  // A value is supported exactly if it is not above the largest one.
  lemma SupportedBelow(slots: seq<Slot>, env: FlowEnv, i: nat, w: nat, v: nat)
    requires |slots| == 2 && InRange(env) && i < MAX_ROLLBACK_LOCATIONS && Largest(slots, env, i, w)
    ensures Supported(slots, env, i, v) <==> v <= w
  {
  }

  // A boot lowers an index exactly where the verified slots support some value, but not the stored one.
  lemma BootLowersIff(s: Store, allow: bool, env: FlowEnv, i: nat)
    requires s.Shaped() && env.Honest(allow, s.rollback) && i < MAX_ROLLBACK_LOCATIONS
    requires Flow(s, allow, env).boot.Some?
    ensures LoadMetadata(s.disk, env.load).0.LoadedData? && InRange(env)
    ensures var slots := LoadMetadata(s.disk, env.load).0.data.slots;
            Flow(s, allow, env).store.rollback[i] < s.rollback[i] <==>
              Supported(slots, env, i, 1) && !Supported(slots, env, i, s.rollback[i])
  {
    BootLowersIndexIff(s, allow, env, i);
    BootHasData(s, allow, env);
    var slots := LoadMetadata(s.disk, env.load).0.data.slots;
    var w := NewIndex(DataFlags(slots, env), env.verify, i);
    NewIndexIsLargest(slots, env, i);
    LargestIsUnique(slots, env, i, w, w);
    SupportedBelow(slots, env, i, w, s.rollback[i]);
  }

  // After a boot a verified slot still passes its own check exactly if no image of it stands at a
  // location for which the verified slots support more than the index of that image.
  lemma StillPassesIff(s: Store, env: FlowEnv, k: nat)
    requires s.Shaped() && env.Honest(false, s.rollback) && k < 2
    requires env.verify[k].result == VerifyOk && Flow(s, false, env).boot.Some?
    ensures LoadMetadata(s.disk, env.load).0.LoadedData? && InRange(env)
    ensures var slots := LoadMetadata(s.disk, env.load).0.data.slots;
            PassesRollback(env.verify[k].entries, Flow(s, false, env).store.rollback) <==>
              forall e :: e in env.verify[k].entries ==> !Supported(slots, env, e.location, e.index + 1)
  {
    VerifiedSlotPassesIff(s, env, k);
    BootHasData(s, false, env);
    var slots := LoadMetadata(s.disk, env.load).0.data.slots;
    forall e | e in env.verify[k].entries
      ensures NewIndex(DataFlags(slots, env), env.verify, e.location) <= e.index <==> !Supported(slots, env, e.location, e.index + 1)
    {
      NewIndexIsLargest(slots, env, e.location);
      SupportedBelow(slots, env, e.location, NewIndex(DataFlags(slots, env), env.verify, e.location), e.index + 1);
    }
  }

  // ----- when a slot boots

  // A location that needs no write, or can be written.
  ghost predicate Storable(slots: seq<Slot>, rollback: seq<u64>, env: FlowEnv, i: nat)
    requires |slots| == 2 && |rollback| == MAX_ROLLBACK_LOCATIONS && InRange(env) && i < MAX_ROLLBACK_LOCATIONS
  {
    Supported(slots, env, i, 1) ==>
      env.readIndex[i] == IoOk && (Largest(slots, env, i, rollback[i]) || env.writeIndex[i] == IoOk)
  }

  lemma StorableMeaning(slots: seq<Slot>, rollback: seq<u64>, env: FlowEnv, i: nat, w: u64)
    requires |slots| == 2 && |rollback| == MAX_ROLLBACK_LOCATIONS && InRange(env) && i < MAX_ROLLBACK_LOCATIONS
    requires Verified(slots[0], env.verify[0]) || Verified(slots[1], env.verify[1])
    requires w == NewIndex(DataFlags(slots, env), env.verify, i)
    ensures Storable(slots, rollback, env, i) <==>
              (w != 0 ==> env.readIndex[i] == IoOk && (rollback[i] == w || env.writeIndex[i] == IoOk))
  {
    NewIndexIsLargest(slots, env, i);
    LargestIsUnique(slots, env, i, w, rollback[i]);
  }

  predicate Stops(s: Slot, r: VerifyResult) {
    Bootable(s) && r in {VerifyOom, VerifyIo, VerifyInvalidArgument}
  }

  // Between loading and saving, a slot is handed out exactly if no bootable slot stopped the
  // verification, one of them survived it, and the device could store the largest supported index
  // of every location.
  lemma DecideBootsIff(data: Metadata, rollback: seq<u64>, allow: bool, env: FlowEnv)
    requires data.Shaped() && |rollback| == MAX_ROLLBACK_LOCATIONS && env.Honest(allow, rollback) && InRange(env)
    ensures Decide(data, rollback, allow, env).boot.Some? <==>
              && !Stops(data.slots[0], env.verify[0].result) && !Stops(data.slots[1], env.verify[1].result)
              && (Survives(data.slots[0], env.verify[0].result, allow) || Survives(data.slots[1], env.verify[1].result, allow))
              && forall i :: 0 <= i < MAX_ROLLBACK_LOCATIONS ==> Storable(data.slots, rollback, env, i)
  {
    VerifySlotsExact(data.slots, allow, env.verify);
    RejectsIsGivenUp(data.slots[0], env.verify[0].result, allow);
    RejectsIsGivenUp(data.slots[1], env.verify[1].result, allow);
    if VerifySlots(data.slots, allow, env.verify, 0, [], false).Verified? {
      var flags := DataFlags(data.slots, env);
      var wanted := Wanted(flags, env.verify);
      UpdateSucceedsIff(rollback, wanted, env, 0);
      if Verified(data.slots[0], env.verify[0]) || Verified(data.slots[1], env.verify[1]) {
        AllStorable(data.slots, rollback, env, wanted);
      } else {
        SurvivorHasData(data.slots[0], env.verify[0], allow, rollback);
        SurvivorHasData(data.slots[1], env.verify[1], allow, rollback);
      }
    }
  }

  lemma SurvivorHasData(s: Slot, o: SlotOutcome, allow: bool, stored: seq<u64>)
    requires HonoursContract(o, allow, stored)
    ensures Survives(s, o.result, allow) && !Stops(s, o.result) ==> Verified(s, o)
  {
  }

  lemma AllStorable(slots: seq<Slot>, rollback: seq<u64>, env: FlowEnv, wanted: seq<u64>)
    requires |slots| == 2 && |rollback| == MAX_ROLLBACK_LOCATIONS && InRange(env)
    requires Verified(slots[0], env.verify[0]) || Verified(slots[1], env.verify[1])
    requires wanted == Wanted(DataFlags(slots, env), env.verify)
    ensures (forall i :: 0 <= i < MAX_ROLLBACK_LOCATIONS ==> Storable(slots, rollback, env, i)) <==>
            (forall i :: 0 <= i < MAX_ROLLBACK_LOCATIONS && wanted[i] != 0 ==>
               env.readIndex[i] == IoOk && (rollback[i] == wanted[i] || env.writeIndex[i] == IoOk))
  {
    forall i | 0 <= i < MAX_ROLLBACK_LOCATIONS
      ensures Storable(slots, rollback, env, i) <==>
                (wanted[i] != 0 ==> env.readIndex[i] == IoOk && (rollback[i] == wanted[i] || env.writeIndex[i] == IoOk))
    {
      StorableMeaning(slots, rollback, env, i, wanted[i]);
    }
  }

  // The whole call: the metadata is loaded, a slot is handed out in between, and the changed
  // metadata is saved.
  lemma FlowBootsIff(s: Store, allow: bool, env: FlowEnv)
    requires s.Shaped() && env.Honest(allow, s.rollback)
    ensures Flow(s, allow, env).boot.Some? <==>
              && env.load.read == IoOk && env.load.numRead == 32 && (s.disk.None? ==> env.load.reset == IoOk)
              && var loaded := LoadMetadata(s.disk, env.load).0;
              && loaded.LoadedData?
              && Decide(loaded.data, s.rollback, allow, env).boot.Some?
              && (Decide(loaded.data, s.rollback, allow, env).data == loaded.orig || env.save == IoOk)
  {
    FlowParts(s, allow, env);
  }

  // The answer of a call that hands out no slot: a failed save comes first, then a failed load,
  // then what the decision says.
  lemma FlowErrors(s: Store, allow: bool, env: FlowEnv)
    requires s.Shaped() && env.Honest(allow, s.rollback)
    ensures var (loaded, disk) := LoadMetadata(s.disk, env.load);
            var ret := Flow(s, allow, env).ret;
            match loaded
            case LoadFailed(error, _) =>
              var unsaved := loaded.Memory(env.junk) != env.junkOrig && env.save != IoOk;
              ret == if (if unsaved then env.save else error) == IoOom then FlowOom else FlowIo
            case LoadedData(data, orig) =>
              var d := Decide(data, s.rollback, allow, env);
              ret == if d.data != orig && env.save != IoOk then (if env.save == IoOom then FlowOom else FlowIo) else d.ret
    ensures env.load.read == IoOom ==> LoadMetadata(s.disk, env.load).0 == LoadFailed(IoOom, None)
    ensures env.load.read == IoError || (env.load.read == IoOk && env.load.numRead != 32) ==>
              LoadMetadata(s.disk, env.load).0 == LoadFailed(IoError, None)
  {
    FlowParts(s, allow, env);
  }
}
