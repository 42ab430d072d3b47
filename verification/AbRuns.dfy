/** Boot attempts over whole runs: they are bounded, a fresh device uses them in a fixed
    order, and the metadata invariant survives every interleaving of the operations. */
module AbRuns {
  import opened Bytes
  import opened AbData
  import opened AbFlowSpec
  import opened AvbTypes
  import AbRollback

  // ----- what one call does to the slots

  // The slots that a call works on after loading.
  function LoadedSlots(disk: Option<Metadata>): (r: seq<Slot>)
    requires disk.Some? ==> disk.value.Shaped()
    ensures |r| == 2
  {
    Normalized(if disk.Some? then disk.value else InitialMetadata()).slots
  }

  function DiskSlots(disk: Option<Metadata>): (r: seq<Slot>)
    requires disk.Some? ==> disk.value.Shaped()
    ensures |r| == 2
  {
    if disk.Some? then disk.value.slots else InitialMetadata().slots
  }

  // The record can be written back as it stands.
  predicate Recordable(d: Metadata) {
    d.Shaped() && d.magic == AB_MAGIC && d.major <= MAJOR_VERSION
  }

  predicate Sound(s: Store) {
    s.Shaped() && (s.disk.Some? ==> Recordable(s.disk.value))
  }

  predicate LoadSucceeds(disk: Option<Metadata>, env: LoadEnv) {
    env.read == IoOk && env.numRead == DATA_SIZE && (disk.None? ==> env.reset == IoOk)
  }

  // The slots on disk after a call, given the slots it decided on.
  lemma SavedSlots(s: Store, env: LoadEnv, slots: seq<Slot>, save: IoResult)
    requires Sound(s) && LoadSucceeds(s.disk, env) && |slots| == 2
    ensures var (loaded, disk) := LoadMetadata(s.disk, env);
            && loaded.LoadedData? && disk.Some? && Recordable(disk.value)
            && loaded.data.slots == LoadedSlots(s.disk)
            && disk.value.slots == DiskSlots(s.disk)
            && var (io, disk') := SaveIfChanged(disk, loaded.data.(slots := slots), loaded.orig, save);
               && disk'.Some? && Recordable(disk'.value)
               && disk'.value.slots == if io == IoOk then slots else disk.value.slots
  {
    var (loaded, disk) := LoadMetadata(s.disk, env);
    var data := loaded.data.(slots := slots);
    if data == loaded.orig {
      assert disk.value.slots == loaded.orig.slots;
    }
  }

  // Every slot of a decision is the loaded slot, the loaded slot with one try less, or unbootable.
  predicate SlotMove(before: Slot, after: Slot) {
    after == before || after == Tick(before) || after == SetUnbootable(before)
  }

  lemma DecideSlots(data: Metadata, rollback: seq<u64>, allow: bool, env: FlowEnv)
    requires data.Shaped() && |rollback| == MAX_ROLLBACK_LOCATIONS && env.Honest(allow, rollback)
    ensures var d := Decide(data, rollback, allow, env);
            && d.data == data.(slots := d.data.slots)
            && (forall k :: 0 <= k < 2 ==> SlotMove(data.slots[k], d.data.slots[k]))
            && (d.boot.Some? ==>
                  && Bootable(data.slots[d.boot.value])
                  && d.data.slots[d.boot.value] == Tick(data.slots[d.boot.value])
                  && !Rejects(env.verify[d.boot.value].result, allow)
                  && d.boot == Choose([AfterVerify(data.slots[0], env.verify[0], allow),
                                       AfterVerify(data.slots[1], env.verify[1], allow)]))
  {
    VerifySlotsExact(data.slots, allow, env.verify);
  }

  // The whole effect of a call on the slots: the decided slots are saved, or nothing is and
  // no slot is handed out.
  lemma FlowSlots(s: Store, allow: bool, env: FlowEnv)
    requires Sound(s) && env.Honest(allow, s.rollback) && LoadSucceeds(s.disk, env.load)
    ensures var o := Flow(s, allow, env);
            var loaded := LoadMetadata(s.disk, env.load).0;
            && Sound(o.store) && o.store.disk.Some?
            && loaded.LoadedData? && loaded.data.slots == LoadedSlots(s.disk)
            && var d := Decide(loaded.data, s.rollback, allow, env);
               var after := o.store.disk.value.slots;
               && (after == d.data.slots || (env.save != IoOk && o.boot.None? && after == DiskSlots(s.disk)))
               && (env.save == IoOk ==> o.boot == d.boot && o.ret == d.ret)
               && (o.boot.Some? ==> after == d.data.slots && o.boot == d.boot && o.ret == d.ret
                                    && (o.confirmed <==> after[o.boot.value].successful != 0))
               && (o.confirmed ==> o.boot.Some?)
  {
    FlowParts(s, allow, env);
    SavedSlots(s, env.load, LoadedSlots(s.disk), env.save);
    var loaded := LoadMetadata(s.disk, env.load).0;
    var d := Decide(loaded.data, s.rollback, allow, env);
    DecideSlots(loaded.data, s.rollback, allow, env);
    SavedSlots(s, env.load, d.data.slots, env.save);
  }

  // ----- bounded attempts

  function Tries(slots: seq<Slot>): nat
    requires |slots| == 2
  {
    slots[0].tries + slots[1].tries
  }

  // The attempts left on disk; an unacceptable record is reset on the next load.
  function Budget(disk: Option<Metadata>): nat
    requires disk.Some? ==> disk.value.Shaped()
  {
    Tries(DiskSlots(disk))
  }

  // The call hands out a slot that is not marked successful.
  predicate Attempt(o: Outcome) {
    o.boot.Some? && !o.confirmed
  }

  // The read failed, and what is saved then is memory that was never set, with more tries than
  // the record on disk.
  predicate Refills(s: Store, env: FlowEnv)
    requires s.Shaped() && env.Shaped()
  {
    && ReadFails(env.load)
    && env.junk != env.junkOrig && env.save == IoOk && Budget(Written(env.junk)) > Budget(s.disk)
  }

  // Every attempt costs one try, in exactly the calls that do not refill the budget.
  lemma FlowSpendsBudget(s: Store, allow: bool, env: FlowEnv)
    requires Sound(s) && env.Honest(allow, s.rollback)
    ensures Sound(Flow(s, allow, env).store)
    ensures var o := Flow(s, allow, env);
            Budget(o.store.disk) + (if Attempt(o) then 1 else 0) <= Budget(s.disk) <==> !Refills(s, env)
  {
    FlowParts(s, allow, env);
    if LoadSucceeds(s.disk, env.load) {
      FlowSlots(s, allow, env);
      var loaded := LoadMetadata(s.disk, env.load).0;
      DecideSlots(loaded.data, s.rollback, allow, env);
      var d := Decide(loaded.data, s.rollback, allow, env);
      MovesSpend(DiskSlots(s.disk), loaded.data.slots, d.data.slots, d.boot);
    }
  }

  lemma MovesSpend(disk: seq<Slot>, loaded: seq<Slot>, after: seq<Slot>, boot: Option<nat>)
    requires |disk| == |loaded| == |after| == 2
    requires loaded == [Normalize(disk[0]), Normalize(disk[1])]
    requires SlotMove(loaded[0], after[0]) && SlotMove(loaded[1], after[1])
    requires boot.Some? ==> boot.value < 2 && Bootable(loaded[boot.value]) && after[boot.value] == Tick(loaded[boot.value])
    ensures Tries(after) <= Tries(disk)
    ensures boot.Some? && after[boot.value].successful == 0 ==> Tries(after) + 1 <= Tries(disk)
  {
    assert after[0].tries <= loaded[0].tries <= disk[0].tries;
    assert after[1].tries <= loaded[1].tries <= disk[1].tries;
  }

  // Runs of calls with no mark operation in between, each with its own flag and world.
  datatype Call = Call(allow: bool, env: FlowEnv)

  ghost predicate GoodRun(s: Store, calls: seq<Call>)
    decreases |calls|
  {
    Sound(s) && (calls == [] ||
      (calls[0].env.Honest(calls[0].allow, s.rollback) && !Refills(s, calls[0].env)
       && GoodRun(Flow(s, calls[0].allow, calls[0].env).store, calls[1..])))
  }

  ghost function Attempts(s: Store, calls: seq<Call>): nat
    requires GoodRun(s, calls)
    decreases |calls|
  {
    if calls == [] then 0
    else
      var o := Flow(s, calls[0].allow, calls[0].env);
      (if Attempt(o) then 1 else 0) + Attempts(o.store, calls[1..])
  }

  lemma {:induction false} AttemptsBounded(s: Store, calls: seq<Call>)
    requires GoodRun(s, calls)
    ensures Attempts(s, calls) <= Budget(s.disk)
    decreases |calls|
  {
    if calls != [] {
      FlowSpendsBudget(s, calls[0].allow, calls[0].env);
      AttemptsBounded(Flow(s, calls[0].allow, calls[0].env).store, calls[1..]);
    }
  }

  // A failed read can break the bound for every record that does not have all tries already.
  lemma FailedLoadRefillsBudget(s: Store, allow: bool, load: LoadEnv) returns (env: FlowEnv)
    requires Sound(s) && ReadFails(load) && Budget(s.disk) < 2 * 255
    ensures env.load == load && env.Honest(allow, s.rollback) && Refills(s, env)
    ensures Budget(Flow(s, allow, env).store.disk) > Budget(s.disk)
  {
    var junk := InitialMetadata().(slots := [Slot(0, 255, 0, 0), Slot(0, 255, 0, 0)]);
    var none := SlotOutcome(VerifyIo, false, []);
    var ok := seq(MAX_ROLLBACK_LOCATIONS, _ => IoOk);
    env := FlowEnv(load, junk, InitialMetadata(), [none, none], ok, ok, IoOk);
    assert junk.slots[0] != InitialMetadata().slots[0];
    FlowSpendsBudget(s, allow, env);
  }

  // Nothing else can: with a given answer of the read and of the reset, some memory content and
  // some further answers raise the tries if and only if the read failed and there are tries to add.
  lemma RefillPossibleIff(s: Store, allow: bool, load: LoadEnv)
    requires Sound(s)
    ensures (exists env: FlowEnv :: env.load == load && env.Honest(allow, s.rollback) && RaisesBudget(s, allow, env))
            <==> ReadFails(load) && Budget(s.disk) < 2 * 255
  {
    forall env: FlowEnv | env.load == load && env.Honest(allow, s.rollback) && RaisesBudget(s, allow, env)
      ensures ReadFails(load) && Budget(s.disk) < 2 * 255
    {
      FlowSpendsBudget(s, allow, env);
    }
    if ReadFails(load) && Budget(s.disk) < 2 * 255 {
      var env := FailedLoadRefillsBudget(s, allow, load);
      assert RaisesBudget(s, allow, env);
    }
  }

  predicate RaisesBudget(s: Store, allow: bool, env: FlowEnv)
    requires s.Shaped() && env.Honest(allow, s.rollback)
  {
    Budget(Flow(s, allow, env).store.disk) > Budget(s.disk)
  }

  // ----- a fresh device

  // Every device operation works and both slots verify.
  predicate Ideal(env: FlowEnv) {
    && env.Shaped() && env.load == LoadEnv(IoOk, DATA_SIZE, IoOk) && env.save == IoOk
    && env.verify[0].result == env.verify[1].result == VerifyOk
    && (forall n :: 0 <= n < MAX_ROLLBACK_LOCATIONS ==> env.readIndex[n] == env.writeIndex[n] == IoOk)
  }

  const DEAD := Slot(0, 0, 0, 0)

  // The slots on disk after n calls on a fresh device.
  function FreshSlots(n: nat): seq<Slot> {
    if n <= 7 then [Slot(15, 7 - n, 0, 0), Slot(14, 7, 0, 0)]
    else if n <= 14 then [DEAD, Slot(14, 14 - n, 0, 0)]
    else [DEAD, DEAD]
  }

  function FreshBoot(n: nat): Option<nat> {
    if n < 7 then Some(0) else if n < 14 then Some(1) else None
  }

  lemma IdealDecision(data: Metadata, rollback: seq<u64>, env: FlowEnv)
    requires data.Shaped() && |rollback| == MAX_ROLLBACK_LOCATIONS && env.Honest(false, rollback) && Ideal(env)
    ensures var d := Decide(data, rollback, false, env);
            && d.boot == Choose(data.slots)
            && d.data.slots == (if d.boot.None? then data.slots
                                else data.slots[d.boot.value := Tick(data.slots[d.boot.value])])
            && d.ret == (if d.boot.None? then FlowNoBootableSlots else FlowOk)
  {
    VerifySlotsExact(data.slots, false, env.verify);
    assert data.slots == [data.slots[0], data.slots[1]];
    var v := VerifySlots(data.slots, false, env.verify, 0, [], false);
    if Choose(v.slots).Some? {
      AbRollback.NoUpdateErrors(rollback, Wanted(v.data, env.verify), env, 0);
    }
    StrictNeverAllows(data.slots, env.verify);
  }

  lemma StrictNeverAllows(slots: seq<Slot>, outcomes: seq<SlotOutcome>)
    requires |slots| == |outcomes| == 2
    ensures var v := VerifySlots(slots, false, outcomes, 0, [], false);
            v.Verified? ==> !v.sawError
  {
    var o := outcomes[0];
    var s1 := if Bootable(slots[0]) && Rejects(o.result, false) then slots[0 := SetUnbootable(slots[0])] else slots;
    var v := VerifySlots(slots, false, outcomes, 0, [], false);
    if v.Verified? {
      assert v == VerifySlots(s1, false, outcomes, 1, [] + [HasData(slots[0], o)], false);
    }
  }

  lemma FreshSlotsStep(n: nat)
    ensures var l := [Normalize(FreshSlots(n)[0]), Normalize(FreshSlots(n)[1])];
            var k := Choose(l);
            && k == FreshBoot(n)
            && FreshSlots(n + 1) == (if k.None? then l else l[k.value := Tick(l[k.value])])
            && (k.Some? ==> FreshSlots(n + 1)[k.value].successful == 0)
  {
  }

  // One call from the n-th state of a fresh device.
  lemma FreshStep(s: Store, env: FlowEnv, n: nat)
    requires Sound(s) && env.Honest(false, s.rollback) && Ideal(env)
    requires s.disk.Some? && s.disk.value.slots == FreshSlots(n)
    ensures var o := Flow(s, false, env);
            && Sound(o.store) && o.store.disk.Some? && o.store.disk.value.slots == FreshSlots(n + 1)
            && o.boot == FreshBoot(n) && !o.confirmed
            && o.ret == (if n < 14 then FlowOk else FlowNoBootableSlots)
  {
    FlowSlots(s, false, env);
    FreshSlotsStep(n);
    IdealDecision(LoadMetadata(s.disk, env.load).0.data, s.rollback, env);
  }

  // stores[i] is what call number i (from 0) finds, stores[i + 1] what it leaves.
  ghost predicate IdealRun(stores: seq<Store>, envs: seq<FlowEnv>) {
    && |stores| == |envs| + 1
    && (forall i :: 0 <= i < |envs| ==> IdealCall(stores[i], envs[i], stores[i + 1]))
  }

  ghost predicate IdealCall(s: Store, env: FlowEnv, s': Store) {
    Sound(s) && env.Honest(false, s.rollback) && Ideal(env) && s' == Flow(s, false, env).store
  }

  lemma {:induction false} FreshStores(stores: seq<Store>, envs: seq<FlowEnv>, i: nat)
    requires IdealRun(stores, envs) && i <= |envs|
    requires stores[0].disk.Some? && stores[0].disk.value.slots == FreshSlots(0)
    ensures stores[i].disk.Some? && stores[i].disk.value.slots == FreshSlots(i)
  {
    if i > 0 {
      FreshStores(stores, envs, i - 1);
      assert IdealCall(stores[i - 1], envs[i - 1], stores[i]);
      FreshStep(stores[i - 1], envs[i - 1], i - 1);
    }
  }

  // From the initial metadata the first seven calls boot slot 0, the next seven slot 1, and
  // every later call finds no bootable slot.
  lemma FreshRun(stores: seq<Store>, envs: seq<FlowEnv>, i: nat)
    requires IdealRun(stores, envs) && i < |envs|
    requires stores[0].disk.Some? && stores[0].disk.value.slots == InitialMetadata().slots
    requires stores[i].Shaped() && envs[i].Honest(false, stores[i].rollback)
    ensures var o := Flow(stores[i], false, envs[i]);
            && (i < 7 ==> o.ret == FlowOk && o.boot == Some(0))
            && (7 <= i < 14 ==> o.ret == FlowOk && o.boot == Some(1))
            && (14 <= i ==> o.ret == FlowNoBootableSlots && o.boot.None?)
  {
    FreshStores(stores, envs, i);
    assert IdealCall(stores[i], envs[i], stores[i + 1]);
    FreshStep(stores[i], envs[i], i);
  }
}
