/** The metadata invariant under every interleaving of boots and mark operations, and what a
    mark operation means for the boot that follows it. */
module AbInterleaving {
  import opened Bytes
  import opened AbData
  import opened AbFlowSpec
  import opened AbRuns
  import opened AvbTypes

  datatype Op =
    | DoFlow(allow: bool, flow: FlowEnv)
    | DoMark(marking: Marking, slot: nat, mark: MarkEnv)

  // An operation on a store: verification is honest, and every device operation may fail.
  predicate Honest(s: Store, op: Op) {
    match op
    case DoFlow(allow, env) => env.Honest(allow, s.rollback)
    case DoMark(_, k, _) => k < 2
  }

  function Step(s: Store, op: Op): (r: Store)
    requires s.Shaped() && Honest(s, op)
    ensures r.Shaped()
  {
    match op
    case DoFlow(allow, env) => Flow(s, allow, env).store
    case DoMark(m, k, env) => Mark(s, m, k, env).0
  }

  // ----- the invariant

  predicate SlotInv(s: Slot) {
    && s.priority in {0, 14, 15}
    && s.tries <= 7
    && !(s.tries > 0 && s.successful != 0)
    && (s.priority == 0 ==> s.tries == 0 && s.successful == 0)
  }

  predicate SlotsInv(slots: seq<Slot>)
    requires |slots| == 2
  {
    && SlotInv(slots[0]) && SlotInv(slots[1])
    && (slots[0].priority != 0 ==> slots[0].priority != slots[1].priority)
  }

  predicate Inv(s: Store) {
    Sound(s) && s.disk.Some? && SlotsInv(s.disk.value.slots)
  }

  // A boot whose read failed saves memory that was never set, and that is not a record in order.
  predicate Spoils(op: Op)
    requires op.DoFlow? ==> op.flow.Shaped()
  {
    && op.DoFlow? && ReadFails(op.flow.load)
    && op.flow.junk != op.flow.junkOrig && op.flow.save == IoOk
    && !(Written(op.flow.junk).Some? && SlotsInv(op.flow.junk.slots))
  }

  predicate Possible(s: Store, op: Op) { Honest(s, op) && !Spoils(op) }

  lemma MovesKeepInv(disk: seq<Slot>, loaded: seq<Slot>, after: seq<Slot>)
    requires |disk| == |loaded| == |after| == 2 && SlotsInv(disk)
    requires loaded == [Normalize(disk[0]), Normalize(disk[1])]
    requires SlotMove(loaded[0], after[0]) && SlotMove(loaded[1], after[1])
    ensures SlotsInv(after)
  {
  }

  lemma MarksKeepInv(disk: seq<Slot>, m: Marking, k: nat)
    requires |disk| == 2 && SlotsInv(disk) && k < 2
    ensures SlotsInv(MarkedSlots([Normalize(disk[0]), Normalize(disk[1])], m, k))
  {
  }

  // The effect of a mark operation on the slots.
  lemma MarkSlots(s: Store, m: Marking, k: nat, env: MarkEnv)
    requires Sound(s) && k < 2
    ensures var (s', io) := Mark(s, m, k, env);
            && Sound(s')
            && (s.disk.Some? ==> s'.disk.Some?)
            && (s.disk.Some? && io != IoOk ==> s'.disk.value.slots == s.disk.value.slots)
            && (io == IoOk ==> s'.disk.Some? && s'.disk.value.slots == MarkedSlots(LoadedSlots(s.disk), m, k))
  {
    if LoadSucceeds(s.disk, env.load) {
      SavedSlots(s, env.load, MarkedSlots(LoadedSlots(s.disk), m, k), env.save);
    }
  }

  // A boot that loads, from a record in order or a rejected one.
  lemma LoadedFlowKeepsInv(s: Store, allow: bool, env: FlowEnv)
    requires Sound(s) && SlotsInv(DiskSlots(s.disk)) && env.Honest(allow, s.rollback) && LoadSucceeds(s.disk, env.load)
    ensures Inv(Flow(s, allow, env).store)
  {
    FlowSlots(s, allow, env);
    var data := LoadMetadata(s.disk, env.load).0.data;
    DecideSlots(data, s.rollback, allow, env);
    MovesKeepInv(DiskSlots(s.disk), data.slots, Decide(data, s.rollback, allow, env).data.slots);
  }

  // Exactly the operations that do not spoil the record keep the invariant.
  lemma StepKeepsInvIff(s: Store, op: Op)
    requires Inv(s) && Honest(s, op)
    ensures Inv(Step(s, op)) <==> !Spoils(op)
  {
    match op
    case DoFlow(allow, env) =>
      FlowParts(s, allow, env);
      if LoadSucceeds(s.disk, env.load) {
        LoadedFlowKeepsInv(s, allow, env);
      }
    case DoMark(m, k, env) =>
      MarkSlots(s, m, k, env);
      MarksKeepInv(s.disk.value.slots, m, k);
  }

  lemma StepKeepsInv(s: Store, op: Op)
    requires Inv(s) && Possible(s, op)
    ensures Inv(Step(s, op))
  {
    StepKeepsInvIff(s, op);
  }

  // A rejected record is reset: the first operation that does not spoil it leaves it rejected or
  // establishes the invariant.
  lemma RejectedStep(s: Store, op: Op)
    requires Sound(s) && s.disk.None? && Possible(s, op)
    ensures Step(s, op).disk.None? || Inv(Step(s, op))
  {
    match op
    case DoFlow(allow, env) =>
      FlowParts(s, allow, env);
      if LoadSucceeds(s.disk, env.load) {
        LoadedFlowKeepsInv(s, allow, env);
      }
    case DoMark(m, k, env) => RejectedMark(s, m, k, env);
  }

  lemma RejectedMark(s: Store, m: Marking, k: nat, env: MarkEnv)
    requires Sound(s) && s.disk.None? && k < 2
    ensures var s' := Mark(s, m, k, env).0; s'.disk.None? || Inv(s')
  {
    if LoadSucceeds(s.disk, env.load) {
      SavedSlots(s, env.load, MarkedSlots(LoadedSlots(s.disk), m, k), env.save);
      MarksKeepInv(DiskSlots(s.disk), m, k);
    }
  }

  ghost predicate PossibleTrace(s: Store, ops: seq<Op>)
    requires s.Shaped()
    decreases |ops|
  {
    ops == [] || (Possible(s, ops[0]) && PossibleTrace(Step(s, ops[0]), ops[1..]))
  }

  ghost function After(s: Store, ops: seq<Op>): (r: Store)
    requires s.Shaped() && PossibleTrace(s, ops)
    ensures r.Shaped()
    decreases |ops|
  {
    if ops == [] then s else After(Step(s, ops[0]), ops[1..])
  }

  lemma {:induction false} TraceKeepsInv(s: Store, ops: seq<Op>)
    requires Inv(s) && PossibleTrace(s, ops)
    ensures Inv(After(s, ops))
    decreases |ops|
  {
    if ops != [] {
      StepKeepsInv(s, ops[0]);
      TraceKeepsInv(Step(s, ops[0]), ops[1..]);
    }
  }

  // Every store that any interleaving reaches from freshly initialised metadata.
  lemma ReachableInv(rollback: seq<u64>, ops: seq<Op>)
    requires |rollback| == MAX_ROLLBACK_LOCATIONS
    requires PossibleTrace(Store(Written(InitialMetadata()), rollback), ops)
    ensures var slots := After(Store(Written(InitialMetadata()), rollback), ops).disk;
            slots.Some? && SlotsInv(slots.value.slots)
  {
    TraceKeepsInv(Store(Written(InitialMetadata()), rollback), ops);
  }

  // ----- mark_slot_active, then a boot

  // The boot selects the marked slot, unless the other slot survives verification with a
  // priority above the maximum that the library itself ever writes.
  lemma ActiveSlotBoots(s: Store, k: nat, mark: MarkEnv, allow: bool, env: FlowEnv)
    requires Sound(s) && k < 2 && Mark(s, MarkActive, k, mark).1 == IoOk
    requires env.Honest(allow, s.rollback)
    requires Flow(Mark(s, MarkActive, k, mark).0, allow, env).boot.Some?
    requires !Rejects(env.verify[k].result, allow)
    ensures var other := LoadedSlots(s.disk)[1 - k];
            Flow(Mark(s, MarkActive, k, mark).0, allow, env).boot == Some(k) <==>
              !(Bootable(other) && !Rejects(env.verify[1 - k].result, allow) && other.priority > MAX_PRIORITY)
  {
    var s1 := Mark(s, MarkActive, k, mark).0;
    MarkSlots(s, MarkActive, k, mark);
    FlowParts(s1, allow, env);
    assert LoadSucceeds(s1.disk, env.load);
    FlowSlots(s1, allow, env);
    var data := LoadMetadata(s1.disk, env.load).0.data;
    DecideSlots(data, s1.rollback, allow, env);
    ChooseMarked(LoadedSlots(s.disk), data.slots, k, env.verify, allow);
  }

  lemma ChooseMarked(before: seq<Slot>, loaded: seq<Slot>, k: nat, verify: seq<SlotOutcome>, allow: bool)
    requires |before| == |loaded| == |verify| == 2 && k < 2
    requires before[1 - k] == Normalize(before[1 - k])
    requires var m := MarkedSlots(before, MarkActive, k); loaded == [Normalize(m[0]), Normalize(m[1])]
    requires !Rejects(verify[k].result, allow)
    ensures var other := before[1 - k];
            var survives := Bootable(other) && !Rejects(verify[1 - k].result, allow);
            (Choose([AfterVerify(loaded[0], verify[0], allow), AfterVerify(loaded[1], verify[1], allow)]) == Some(k)
             <==> !(survives && other.priority > MAX_PRIORITY))
  {
    assert loaded[k] == before[k].(priority := MAX_PRIORITY, tries := MAX_TRIES, successful := 0);
    var (other, now) := (before[1 - k], loaded[1 - k]);
    assert Bootable(now) <==> Bootable(other);
    assert now.priority == if other.priority == MAX_PRIORITY then MAX_PRIORITY - 1 else other.priority;
  }

  // In particular on every device that only this library writes.
  lemma ReachableActiveSlotBoots(s: Store, k: nat, mark: MarkEnv, allow: bool, env: FlowEnv)
    requires Inv(s) && k < 2 && Mark(s, MarkActive, k, mark).1 == IoOk
    requires env.Honest(allow, s.rollback)
    requires Flow(Mark(s, MarkActive, k, mark).0, allow, env).boot.Some?
    requires !Rejects(env.verify[k].result, allow)
    ensures Flow(Mark(s, MarkActive, k, mark).0, allow, env).boot == Some(k)
  {
    ActiveSlotBoots(s, k, mark, allow, env);
  }

  // ----- mark_slot_successful

  // On an unbootable slot the operation leaves the device as it was exactly if the record was
  // accepted and loading had nothing to normalise; otherwise it writes.
  lemma UnbootableMarkLeavesIff(s: Store, k: nat, mark: MarkEnv)
    requires Sound(s) && k < 2 && Mark(s, MarkSuccessful, k, mark).1 == IoOk
    requires !Bootable(LoadedSlots(s.disk)[k])
    ensures Mark(s, MarkSuccessful, k, mark).0 == s <==> s.disk.Some? && LoadedSlots(s.disk) == DiskSlots(s.disk)
  {
    MarkSlots(s, MarkSuccessful, k, mark);
    if s.disk.Some? && LoadedSlots(s.disk) == DiskSlots(s.disk) {
      assert Normalized(s.disk.value) == s.disk.value;
    }
  }

  // ----- a boot, then mark_slot_successful

  // A slot that was just handed out for an attempt can be marked successful exactly while
  // it has an attempt left; after its last attempt the mark operation makes it unbootable,
  // and still answers OK.
  lemma LastAttemptCannotSucceed(s: Store, allow: bool, env: FlowEnv, o: Outcome, k: nat, mark: MarkEnv)
    requires Sound(s) && env.Honest(allow, s.rollback) && LoadSucceeds(s.disk, env.load)
    requires o == Flow(s, allow, env) && Attempt(o) && o.boot == Some(k) && k < 2
    requires Mark(o.store, MarkSuccessful, k, mark).1 == IoOk
    ensures o.store.disk.Some? && Mark(o.store, MarkSuccessful, k, mark).0.disk.Some?
    ensures var left := o.store.disk.value.slots[k].tries;
            var marked := Mark(o.store, MarkSuccessful, k, mark).0.disk.value.slots[k];
            && left + 1 == LoadedSlots(s.disk)[k].tries
            && (left > 0 ==> marked.successful == 1 && marked.priority > 0)
            && (left == 0 ==> marked == SetUnbootable(o.store.disk.value.slots[k]))
  {
    FlowSlots(s, allow, env);
    DecideSlots(LoadMetadata(s.disk, env.load).0.data, s.rollback, allow, env);
    MarkSlots(o.store, MarkSuccessful, k, mark);
    MarkedAfterAttempt(LoadedSlots(s.disk)[k], o.store.disk.value.slots, k);
  }

  lemma MarkedAfterAttempt(loaded: Slot, slots: seq<Slot>, k: nat)
    requires |slots| == 2 && k < 2 && Bootable(loaded) && slots[k] == Tick(loaded) && slots[k].successful == 0
    ensures var (left, marked) := (slots[k].tries, MarkedSlots([Normalize(slots[0]), Normalize(slots[1])], MarkSuccessful, k)[k]);
            && left + 1 == loaded.tries
            && (left > 0 ==> marked.successful == 1 && marked.priority > 0)
            && (left == 0 ==> marked == SetUnbootable(slots[k]))
  {
  }
}
