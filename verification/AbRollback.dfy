/** Rollback protection over whole runs of the A/B flow: stored indexes never decrease in
    locked mode, and no verified slot is locked out by the update that follows. */
module AbRollback {
  import opened Bytes
  import opened AbData
  import opened AbFlowSpec
  import opened AvbTypes

  // ----- one run

  // What the update loop may do to one location.
  lemma {:induction false} UpdateOnlyWanted(rollback: seq<u64>, wanted: seq<u64>, env: FlowEnv, n: nat, i: nat)
    requires |rollback| == |wanted| == MAX_ROLLBACK_LOCATIONS && env.Shaped()
    requires n <= MAX_ROLLBACK_LOCATIONS && i < MAX_ROLLBACK_LOCATIONS
    ensures var u := UpdateIndexes(rollback, wanted, env, n).rollback;
            u[i] == rollback[i] || (u[i] == wanted[i] && wanted[i] != 0)
    decreases MAX_ROLLBACK_LOCATIONS - n
  {
    if n < MAX_ROLLBACK_LOCATIONS {
      UpdateOnlyWanted(rollback, wanted, env, n + 1, i);
      UpdateOnlyWanted(rollback[n := wanted[n]], wanted, env, n + 1, i);
    }
  }

  // Without an error every wanted location is set.
  lemma {:induction false} UpdateSetsAll(rollback: seq<u64>, wanted: seq<u64>, env: FlowEnv, n: nat, i: nat)
    requires |rollback| == |wanted| == MAX_ROLLBACK_LOCATIONS && env.Shaped()
    requires n <= i < MAX_ROLLBACK_LOCATIONS
    requires UpdateIndexes(rollback, wanted, env, n).error.None?
    ensures UpdateIndexes(rollback, wanted, env, n).rollback[i] == if wanted[i] == 0 then rollback[i] else wanted[i]
    decreases MAX_ROLLBACK_LOCATIONS - n
  {
    if n < i {
      if wanted[n] == 0 || rollback[n] == wanted[n] {
        UpdateSetsAll(rollback, wanted, env, n + 1, i);
      } else {
        UpdateSetsAll(rollback[n := wanted[n]], wanted, env, n + 1, i);
      }
    } else {
      var r := if wanted[n] == 0 || rollback[n] == wanted[n] then rollback else rollback[n := wanted[n]];
      UpdateLeavesEarlier(r, wanted, env, n + 1, i);
    }
  }

  lemma {:induction false} UpdateLeavesEarlier(rollback: seq<u64>, wanted: seq<u64>, env: FlowEnv, n: nat, i: nat)
    requires |rollback| == |wanted| == MAX_ROLLBACK_LOCATIONS && env.Shaped()
    requires i < n <= MAX_ROLLBACK_LOCATIONS
    ensures UpdateIndexes(rollback, wanted, env, n).rollback[i] == rollback[i]
    decreases MAX_ROLLBACK_LOCATIONS - n
  {
    if n < MAX_ROLLBACK_LOCATIONS {
      UpdateLeavesEarlier(rollback, wanted, env, n + 1, i);
      UpdateLeavesEarlier(rollback[n := wanted[n]], wanted, env, n + 1, i);
    }
  }

  // The data flags with which the update loop of a call runs, if it runs.
  function DataFlags(slots: seq<Slot>, env: FlowEnv): (r: seq<bool>)
    requires |slots| == 2 && env.Shaped()
    ensures |r| == 2
  {
    [HasData(slots[0], env.verify[0]), HasData(slots[1], env.verify[1])]
  }

  // The assertion of line 362: the slot that is chosen was verified and has data.
  lemma ChosenHasData(slots: seq<Slot>, allow: bool, env: FlowEnv, stored: seq<u64>)
    requires |slots| == 2 && env.Honest(allow, stored)
    ensures var v := VerifySlots(slots, allow, env.verify, 0, [], false);
            v.Verified? && Choose(v.slots).Some? ==> v.data[Choose(v.slots).value]
  {
    VerifySlotsExact(slots, allow, env.verify);
    assert HonoursContract(env.verify[0], allow, stored) && HonoursContract(env.verify[1], allow, stored);
  }

  // How one location ends up: untouched, or set to the value that the verified slots support.
  lemma DecideLocation(data: Metadata, rollback: seq<u64>, allow: bool, env: FlowEnv, i: nat)
    requires data.Shaped() && |rollback| == MAX_ROLLBACK_LOCATIONS && env.Honest(allow, rollback)
    requires i < MAX_ROLLBACK_LOCATIONS
    ensures var d := Decide(data, rollback, allow, env);
            var w := NewIndex(DataFlags(data.slots, env), env.verify, i);
            && (d.rollback[i] == rollback[i] || (d.rollback[i] == w && w != 0))
            && (d.boot.Some? ==> d.rollback[i] == if w == 0 then rollback[i] else w)
  {
    var v := VerifySlots(data.slots, allow, env.verify, 0, [], false);
    VerifySlotsExact(data.slots, allow, env.verify);
    if v.Verified? && Choose(v.slots).Some? {
      var wanted := Wanted(v.data, env.verify);
      UpdateOnlyWanted(rollback, wanted, env, 0, i);
      if UpdateIndexes(rollback, wanted, env, 0).error.None? {
        UpdateSetsAll(rollback, wanted, env, 0, i);
      }
    }
  }

  lemma StrictIndexAtLeast(stored: seq<u64>, env: FlowEnv, slots: seq<Slot>, i: nat)
    requires |stored| == MAX_ROLLBACK_LOCATIONS && env.Honest(false, stored) && i < MAX_ROLLBACK_LOCATIONS
    requires |slots| == 2
    ensures var w := NewIndex(DataFlags(slots, env), env.verify, i);
            w == 0 || stored[i] <= w
  {
    assert HonoursContract(env.verify[0], false, stored) && HonoursContract(env.verify[1], false, stored);
    if env.verify[0].hasData { IndexesBounded(env.verify[0].entries, stored, i); }
    if env.verify[1].hasData { IndexesBounded(env.verify[1].entries, stored, i); }
  }

  // In locked mode no stored rollback index decreases, whatever fails part-way.
  lemma FlowNeverDecreases(s: Store, env: FlowEnv, i: nat)
    requires s.Shaped() && env.Honest(false, s.rollback) && i < MAX_ROLLBACK_LOCATIONS
    ensures s.rollback[i] <= Flow(s, false, env).store.rollback[i]
  {
    FlowParts(s, false, env);
    var loaded := LoadMetadata(s.disk, env.load).0;
    if loaded.LoadedData? {
      DecideLocation(loaded.data, s.rollback, false, env, i);
      StrictIndexAtLeast(s.rollback, env, loaded.data.slots, i);
    }
  }

  // In unlocked mode an index can decrease: a slot below the stored index is still accepted
  // and the update follows it down.
  lemma UnlockedMayDecrease() returns (s: Store, env: FlowEnv)
    ensures s.Shaped() && env.Honest(true, s.rollback)
    ensures Flow(s, true, env).boot.Some?
    ensures Flow(s, true, env).store.rollback[0] < s.rollback[0]
  {
    s := Store(Some(LoneDisk()), seq(MAX_ROLLBACK_LOCATIONS, _ => 5));
    env := LoneEnv(SlotOutcome(VerifyRollbackIndex, true, [RollbackEntry(0, 3)]));
    LoneBoot(s, true, env, 0);
    OneEntry(RollbackEntry(0, 3));
  }

  // Metadata with only slot 0 bootable, and a world in which nothing fails.
  function LoneDisk(): (d: Metadata)
    ensures d.Shaped() && Normalized(d) == d
  {
    InitialMetadata().(slots := [Slot(15, 0, 1, 0), Slot(0, 0, 0, 0)])
  }

  function LoneEnv(o: SlotOutcome): FlowEnv {
    var ok := seq(MAX_ROLLBACK_LOCATIONS, _ => IoOk);
    FlowEnv(LoadEnv(IoOk, DATA_SIZE, IoOk), LoneDisk(), LoneDisk(), [o, o], ok, ok, IoOk)
  }

  lemma LoneBoot(s: Store, allow: bool, env: FlowEnv, i: nat)
    requires s.disk == Some(LoneDisk()) && s.Shaped() && i < MAX_ROLLBACK_LOCATIONS
    requires env.Shaped() && env == LoneEnv(env.verify[0]) && env.Honest(allow, s.rollback)
    requires ShouldContinue(env.verify[0].result) && !Rejects(env.verify[0].result, allow)
    ensures Flow(s, allow, env).boot == Some(0)
    ensures var w := IndexesFrom(env.verify[0].entries)[i];
            Flow(s, allow, env).store.rollback[i] == if w == 0 then s.rollback[i] else w
  {
    var data := LoneDisk();
    FlowParts(s, allow, env);
    VerifySlotsExact(data.slots, allow, env.verify);
    assert HonoursContract(env.verify[0], allow, s.rollback);
    NoUpdateErrors(s.rollback, Wanted([true, false], env.verify), env, 0);
    DecideLocation(data, s.rollback, allow, env, i);
    LoneIndex(data.slots, env, 0, i);
  }

  lemma OneEntry(e: RollbackEntry)
    requires e.location < MAX_ROLLBACK_LOCATIONS
    ensures IndexesFrom([e])[e.location] == e.index
  {
    assert [e][..0] == [];
  }

  lemma {:induction false} NoUpdateErrors(rollback: seq<u64>, wanted: seq<u64>, env: FlowEnv, n: nat)
    requires |rollback| == |wanted| == MAX_ROLLBACK_LOCATIONS && env.Shaped() && n <= MAX_ROLLBACK_LOCATIONS
    requires forall i :: 0 <= i < MAX_ROLLBACK_LOCATIONS ==> env.readIndex[i] == env.writeIndex[i] == IoOk
    ensures UpdateIndexes(rollback, wanted, env, n).error.None?
    decreases MAX_ROLLBACK_LOCATIONS - n
  {
    if n < MAX_ROLLBACK_LOCATIONS {
      NoUpdateErrors(rollback, wanted, env, n + 1);
      NoUpdateErrors(rollback[n := wanted[n]], wanted, env, n + 1);
    }
  }

  // After a run that boots, each location holds the largest index that every verified slot
  // supports, or its old value where no such index is recorded.
  lemma BootStoresSupportedIndex(s: Store, allow: bool, env: FlowEnv, i: nat)
    requires s.Shaped() && env.Honest(allow, s.rollback) && i < MAX_ROLLBACK_LOCATIONS
    requires Flow(s, allow, env).boot.Some?
    ensures LoadMetadata(s.disk, env.load).0.LoadedData?
    ensures var w := NewIndex(DataFlags(LoadMetadata(s.disk, env.load).0.data.slots, env), env.verify, i);
            Flow(s, allow, env).store.rollback[i] == if w == 0 then s.rollback[i] else w
  {
    FlowParts(s, allow, env);
    DecideLocation(LoadMetadata(s.disk, env.load).0.data, s.rollback, allow, env, i);
  }

  // A boot lowers an index exactly where the verified slots support only a lower one.
  lemma BootLowersIndexIff(s: Store, allow: bool, env: FlowEnv, i: nat)
    requires s.Shaped() && env.Honest(allow, s.rollback) && i < MAX_ROLLBACK_LOCATIONS
    requires Flow(s, allow, env).boot.Some?
    ensures LoadMetadata(s.disk, env.load).0.LoadedData?
    ensures Flow(s, allow, env).store.rollback[i] < s.rollback[i] <==>
              var w := NewIndex(DataFlags(LoadMetadata(s.disk, env.load).0.data.slots, env), env.verify, i);
              w != 0 && w < s.rollback[i]
  {
    BootStoresSupportedIndex(s, allow, env, i);
  }

  // ----- any number of runs

  // Every run finds an honest world for the indexes stored by then.
  ghost predicate HonestRun(s: Store, envs: seq<FlowEnv>)
    decreases |envs|
  {
    s.Shaped() && (envs == [] ||
      (envs[0].Honest(false, s.rollback) && HonestRun(Flow(s, false, envs[0]).store, envs[1..])))
  }

  ghost function RunStore(s: Store, envs: seq<FlowEnv>): (r: Store)
    requires HonestRun(s, envs)
    ensures r.Shaped()
    decreases |envs|
  {
    if envs == [] then s else RunStore(Flow(s, false, envs[0]).store, envs[1..])
  }

  lemma {:induction false} RunNeverDecreases(s: Store, envs: seq<FlowEnv>, i: nat)
    requires HonestRun(s, envs) && i < MAX_ROLLBACK_LOCATIONS
    ensures s.rollback[i] <= RunStore(s, envs).rollback[i]
    decreases |envs|
  {
    if envs != [] {
      FlowNeverDecreases(s, envs[0], i);
      RunNeverDecreases(Flow(s, false, envs[0]).store, envs[1..], i);
    }
  }

  // ----- no lock-out

  // A verified slot still passes the rollback check after the run that verified it, when the
  // image recorded last at each location is its lowest; one image per location is enough.
  lemma VerifiedSlotStillPasses(s: Store, env: FlowEnv, k: nat)
    requires s.Shaped() && env.Honest(false, s.rollback) && k < 2
    requires env.verify[k].result == VerifyOk
    requires forall x :: x in env.verify[k].entries ==> x.location < MAX_ROLLBACK_LOCATIONS
    requires DistinctLocations(env.verify[k].entries) || LastIsLowest(env.verify[k].entries)
    requires LoadMetadata(s.disk, env.load).0.LoadedData?
             && Bootable(LoadMetadata(s.disk, env.load).0.data.slots[k])
    ensures PassesRollback(env.verify[k].entries, Flow(s, false, env).store.rollback)
  {
    FlowParts(s, false, env);
    var r := Flow(s, false, env).store.rollback;
    var data := LoadMetadata(s.disk, env.load).0.data;
    assert HonoursContract(env.verify[k], false, s.rollback);
    if DistinctLocations(env.verify[k].entries) {
      DistinctLastIsLowest(env.verify[k].entries);
    }
    forall e | e in env.verify[k].entries ensures r[e.location] <= e.index {
      DecideLocation(data, s.rollback, false, env, e.location);
    }
  }

  // After a boot it passes exactly if the new index at the location of each of its images is not
  // above the index of that image.
  lemma VerifiedSlotPassesIff(s: Store, env: FlowEnv, k: nat)
    requires s.Shaped() && env.Honest(false, s.rollback) && k < 2
    requires env.verify[k].result == VerifyOk && Flow(s, false, env).boot.Some?
    ensures LoadMetadata(s.disk, env.load).0.LoadedData?
    ensures var flags := DataFlags(LoadMetadata(s.disk, env.load).0.data.slots, env);
            PassesRollback(env.verify[k].entries, Flow(s, false, env).store.rollback) <==>
              forall e :: e in env.verify[k].entries ==> NewIndex(flags, env.verify, e.location) <= e.index
  {
    FlowParts(s, false, env);
    assert HonoursContract(env.verify[k], false, s.rollback);
    var r := Flow(s, false, env).store.rollback;
    var flags := DataFlags(LoadMetadata(s.disk, env.load).0.data.slots, env);
    forall e | e in env.verify[k].entries
      ensures r[e.location] <= e.index <==> NewIndex(flags, env.verify, e.location) <= e.index
    {
      BootStoresSupportedIndex(s, false, env, e.location);
    }
  }

  // For a slot that is alone in being verified that is the condition on its own images.
  lemma LoneSlotPassesIff(s: Store, env: FlowEnv, k: nat)
    requires s.Shaped() && env.Honest(false, s.rollback) && k < 2
    requires env.verify[k].result == VerifyOk && Flow(s, false, env).boot.Some?
    requires forall x :: x in env.verify[k].entries ==> x.location < MAX_ROLLBACK_LOCATIONS
    requires LoadMetadata(s.disk, env.load).0.LoadedData?
    requires Bootable(LoadMetadata(s.disk, env.load).0.data.slots[k])
             && !HasData(LoadMetadata(s.disk, env.load).0.data.slots[1 - k], env.verify[1 - k])
    ensures PassesRollback(env.verify[k].entries, Flow(s, false, env).store.rollback)
            <==> LastIsLowest(env.verify[k].entries)
  {
    VerifiedSlotPassesIff(s, env, k);
    assert HonoursContract(env.verify[k], false, s.rollback);
    forall e | e in env.verify[k].entries
      ensures NewIndex(DataFlags(LoadMetadata(s.disk, env.load).0.data.slots, env), env.verify, e.location)
           == IndexesFrom(env.verify[k].entries)[e.location]
    {
      LoneIndex(LoadMetadata(s.disk, env.load).0.data.slots, env, k, e.location);
    }
  }

  lemma LoneIndex(slots: seq<Slot>, env: FlowEnv, k: nat, n: nat)
    requires |slots| == 2 && k < 2 && n < MAX_ROLLBACK_LOCATIONS && env.Shaped()
    requires forall j :: 0 <= j < 2 ==> forall e :: e in env.verify[j].entries ==> e.location < MAX_ROLLBACK_LOCATIONS
    requires HasData(slots[k], env.verify[k]) && !HasData(slots[1 - k], env.verify[1 - k])
    ensures NewIndex(DataFlags(slots, env), env.verify, n) == IndexesFrom(env.verify[k].entries)[n]
  {
  }

  // Without that condition the promise fails: two images of one slot at one location, and
  // the update to the later, higher index locks the other image out.
  lemma SharedLocationLocksOut() returns (s: Store, env: FlowEnv)
    ensures s.Shaped() && env.Honest(false, s.rollback)
    ensures env.verify[0].result == VerifyOk && Flow(s, false, env).boot == Some(0)
    ensures !PassesRollback(env.verify[0].entries, Flow(s, false, env).store.rollback)
  {
    var (e, f) := (RollbackEntry(1, 3), RollbackEntry(1, 5));
    s := Store(Some(LoneDisk()), seq(MAX_ROLLBACK_LOCATIONS, _ => 0));
    env := LoneEnv(SlotOutcome(VerifyOk, true, [e, f]));
    LoneBoot(s, false, env, 1);
    assert [e, f][..1] == [e];
    OneEntry(e);
    assert e in env.verify[0].entries;
  }
}
