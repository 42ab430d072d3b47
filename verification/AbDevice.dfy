/** Application/UefiAvb/libavb_ab/avb_ab_flow.c in its own form: a device whose partition bytes
    and stored indexes the operations change, and slots that are edited in place. */
module AbDevice {
  import opened Bytes
  import opened ByteOrder
  import opened AbData
  import opened AbFlowSpec
  import opened AbRollback
  import opened AvbTypes

  // slot_set_unbootable
  method SlotSetUnbootable(slots: array<Slot>, n: nat)
    requires n < slots.Length
    modifies slots
    ensures slots[..] == old(slots[..])[n := SetUnbootable(old(slots[n]))]
  {
    slots[n] := slots[n].(priority := 0);
    slots[n] := slots[n].(tries := 0);
    slots[n] := slots[n].(successful := 0);
  }

  // slot_normalize
  method SlotNormalize(slots: array<Slot>, n: nat)
    requires n < slots.Length
    modifies slots
    ensures slots[..] == old(slots[..])[n := Normalize(old(slots[n]))]
  {
    if slots[n].priority > 0 {
      if slots[n].tries == 0 && slots[n].successful == 0 {
        SlotSetUnbootable(slots, n);
      }
      if slots[n].tries > 0 && slots[n].successful != 0 {
        SlotSetUnbootable(slots, n);
      }
    } else {
      SlotSetUnbootable(slots, n);
    }
  }

  // The edit of avb_ab_mark_slot_active.
  method SlotActivate(slots: array<Slot>, k: nat)
    requires slots.Length == 2 && k < 2
    modifies slots
    ensures slots[..] == MarkedSlots(old(slots[..]), MarkActive, k)
  {
    slots[k] := slots[k].(priority := MAX_PRIORITY, tries := MAX_TRIES, successful := 0);
    var other := 1 - k;
    if slots[other].priority == MAX_PRIORITY {
      slots[other] := slots[other].(priority := MAX_PRIORITY - 1);
    }
  }

  // Lines 373-376.
  method SlotTick(slots: array<Slot>, k: nat)
    requires k < slots.Length
    modifies slots
    ensures slots[..] == old(slots[..])[k := Tick(old(slots[k]))]
  {
    if slots[k].successful == 0 && slots[k].tries > 0 {
      slots[k] := slots[k].(tries := slots[k].tries - 1);
    }
  }

  // Lines 299-315: the bootable slot of the higher priority, the first one on a tie.
  method ChooseSlot(slots: array<Slot>) returns (boot: Option<nat>)
    requires slots.Length == 2
    ensures boot == Choose(slots[..])
    ensures boot.None? <==> !Bootable(slots[0]) && !Bootable(slots[1])
    ensures boot.Some? ==>
              && boot.value < 2 && Bootable(slots[boot.value])
              && var other := slots[1 - boot.value];
                 Bootable(other) ==>
                   || slots[boot.value].priority > other.priority
                   || (slots[boot.value].priority == other.priority && boot.value == 0)
  {
    if Bootable(slots[0]) && Bootable(slots[1]) {
      if slots[1].priority > slots[0].priority {
        return Some(1);
      } else {
        return Some(0);
      }
    } else if Bootable(slots[0]) {
      return Some(0);
    } else if Bootable(slots[1]) {
      return Some(1);
    } else {
      return None;
    }
  }

  class AbOps {
    // The 32 bytes of the misc partition that hold the metadata.
    const misc: array<byte>
    const rollback: array<u64>

    constructor ()
      ensures Valid() && fresh(misc) && fresh(rollback)
    {
      misc := new byte[DATA_SIZE];
      rollback := new u64[MAX_ROLLBACK_LOCATIONS];
    }

    predicate Valid() {
      misc.Length == DATA_SIZE && rollback.Length == MAX_ROLLBACK_LOCATIONS && misc as object != rollback
    }

    function Disk(): (d: Option<Metadata>)
      requires Valid()
      reads misc
      ensures d.Some? ==> d.value.Shaped()
    {
      if Accepted(misc[..]) then Some(Parse(misc[..])) else None
    }

    function State(): (s: Store)
      requires Valid()
      reads misc, rollback
      ensures s.Shaped()
    {
      Store(Disk(), rollback[..])
    }

    // avb_ab_data_write; a failing write leaves the partition as it was.
    method DataWrite(data: Metadata, io: IoResult) returns (r: IoResult)
      requires Valid() && data.Shaped()
      modifies misc
      ensures r == io
      ensures Disk() == if io == IoOk then Written(data) else old(Disk())
    {
      var serialized := new byte[DATA_SIZE];
      UpdateCrcAndByteswap(data, serialized);
      if io == IoOk {
        var i := 0;
        while i < DATA_SIZE
          invariant 0 <= i <= DATA_SIZE
          invariant misc[..i] == serialized[..i]
          invariant serialized[..] == Record(data)
        {
          misc[i] := serialized[i];
          i := i + 1;
        }
        assert misc[..] == misc[..i] && serialized[..i] == serialized[..];
        RecordRoundTrip(data);
      }
      r := io;
    }

    // avb_ab_data_read: data is the caller's record afterwards, and memory what it was before.
    method DataRead(env: LoadEnv, memory: Metadata) returns (io: IoResult, data: Metadata)
      requires Valid() && memory.Shaped()
      modifies misc
      ensures data.Shaped()
      ensures var (loaded, disk) := LoadMetadata(old(Disk()), env);
              && Disk() == disk
              && (io == IoOk <==> loaded.LoadedData?)
              && (loaded.LoadFailed? ==> io == loaded.error && data == loaded.Memory(memory))
              && (loaded.LoadedData? ==> data == loaded.orig)
    {
      data := memory;
      if env.read == IoOom {
        return IoOom, data;
      } else if env.read != IoOk || env.numRead != DATA_SIZE {
        return IoError, data;
      }
      var ok;
      ok, data := VerifyAndByteswap(misc);
      if !ok {
        data := InitialMetadata();
        io := DataWrite(data, env.reset);
        return io, data;
      }
      return IoOk, data;
    }

    // load_metadata: the slots in memory are normalised one after the other. The rest of the
    // caller's record is returned, with the slots as they were read.
    method Load(env: LoadEnv, slots: array<Slot>, memory: Metadata) returns (io: IoResult, orig: Metadata)
      requires Valid() && slots.Length == 2 && memory.Shaped()
      modifies misc, slots
      ensures orig.Shaped()
      ensures var (loaded, disk) := LoadMetadata(old(Disk()), env);
              && Disk() == disk
              && (io == IoOk <==> loaded.LoadedData?)
              && (loaded.LoadFailed? ==> io == loaded.error && orig == loaded.Memory(memory))
              && (loaded.LoadedData? ==> orig == loaded.orig && orig.(slots := slots[..]) == loaded.data)
    {
      io, orig := DataRead(env, memory);
      if io != IoOk {
        return;
      }
      slots[0], slots[1] := orig.slots[0], orig.slots[1];
      SlotNormalize(slots, 0);
      SlotNormalize(slots, 1);
      assert slots[..] == [Normalize(orig.slots[0]), Normalize(orig.slots[1])];
    }

    // save_metadata_if_changed
    method Save(data: Metadata, orig: Metadata, io: IoResult) returns (r: IoResult)
      requires Valid() && data.Shaped()
      modifies misc
      ensures (r, Disk()) == SaveIfChanged(old(Disk()), data, orig, io)
    {
      if data != orig {
        r := DataWrite(data, io);
        return;
      }
      return IoOk;
    }

    // The loop over the two slots (lines 229-297): go is false after a jump to the label out.
    method VerifyLoop(slots: array<Slot>, allow: bool, env: FlowEnv, has: array<bool>)
      returns (go: bool, ret: FlowResult, sawError: bool)
      requires Valid() && slots.Length == has.Length == 2 && env.Shaped()
      modifies slots, has
      ensures var v := VerifySlots(old(slots[..]), allow, env.verify, 0, [], false);
              && slots[..] == v.slots && go == v.Verified?
              && (v.Stopped? ==> ret == v.error)
              && (v.Verified? ==> has[..] == v.data && sawError == v.sawError)
    {
      ghost var v := VerifySlots(slots[..], allow, env.verify, 0, [], false);
      sawError, go, ret := false, true, FlowOk;
      has[0], has[1] := false, false;
      var n := 0;
      assert has[..0] == [];
      while n < 2
        invariant 0 <= n <= 2
        invariant n < 2 ==> has[n] == false
        invariant n == 0 ==> has[1] == false
        invariant v == VerifySlots(slots[..], allow, env.verify, n, has[..n], sawError)
      {
        ghost var (s0, h0) := (slots[..], has[..n]);
        if Bootable(slots[n]) {
          var setUnbootable := false;
          has[n] := env.verify[n].hasData;
          match env.verify[n].result {
            case VerifyOom => return false, FlowOom, sawError;
            case VerifyIo => return false, FlowIo, sawError;
            case VerifyOk =>
            case VerifyInvalidMetadata => setUnbootable := true;
            case VerifyUnsupportedVersion => setUnbootable := true;
            case VerifyVerification => if allow { sawError := true; } else { setUnbootable := true; }
            case VerifyRollbackIndex => if allow { sawError := true; } else { setUnbootable := true; }
            case VerifyKeyRejected => if allow { sawError := true; } else { setUnbootable := true; }
            case VerifyInvalidArgument => return false, FlowInvalidArgument, sawError;
          }
          if setUnbootable {
            SlotSetUnbootable(slots, n);
          }
        }
        assert has[..n + 1] == h0 + [has[n]];
        n := n + 1;
      }
      assert has[..n] == has[..];
    }

    // The rollback update loop (lines 321-359).
    method UpdateLoop(env: FlowEnv, has: array<bool>) returns (go: bool, ret: FlowResult)
      requires Valid() && has.Length == 2 && env.Shaped()
      requires forall k :: 0 <= k < 2 ==> forall e :: e in env.verify[k].entries ==> e.location < MAX_ROLLBACK_LOCATIONS
      modifies rollback
      ensures var u := UpdateIndexes(old(rollback[..]), Wanted(has[..], env.verify), env, 0);
              && rollback[..] == u.rollback && go == u.error.None?
              && (u.error.Some? ==> ret == u.error.value)
    {
      ghost var wanted := Wanted(has[..], env.verify);
      ghost var u := UpdateIndexes(rollback[..], wanted, env, 0);
      ret := FlowOk;
      var n := 0;
      while n < MAX_ROLLBACK_LOCATIONS
        invariant 0 <= n <= MAX_ROLLBACK_LOCATIONS
        invariant u == UpdateIndexes(rollback[..], wanted, env, n)
      {
        var value: u64 := 0;
        if has[0] && has[1] {
          var a := IndexesFrom(env.verify[0].entries)[n];
          var b := IndexesFrom(env.verify[1].entries)[n];
          value := if a < b then a else b;
        } else if has[0] {
          value := IndexesFrom(env.verify[0].entries)[n];
        } else if has[1] {
          value := IndexesFrom(env.verify[1].entries)[n];
        }
        assert value == wanted[n];
        if value != 0 {
          if env.readIndex[n] == IoOom {
            return false, FlowOom;
          } else if env.readIndex[n] != IoOk {
            return false, FlowIo;
          }
          if rollback[n] != value {
            if env.writeIndex[n] == IoOom {
              return false, FlowOom;
            } else if env.writeIndex[n] != IoOk {
              return false, FlowIo;
            }
            ghost var was := rollback[..];
            rollback[n] := value;
            assert rollback[..] == was[n := value];
          }
        }
        n := n + 1;
      }
      return true, FlowOk;
    }

    // Everything between the load and the label out (lines 228-376).
    method DecideInPlace(orig: Metadata, slots: array<Slot>, allow: bool, env: FlowEnv)
      returns (ret: FlowResult, boot: Option<nat>)
      requires Valid() && slots.Length == 2 && orig.Shaped()
      requires env.Honest(allow, rollback[..])
      modifies slots, rollback
      ensures var d := Decide(old(orig.(slots := slots[..])), old(rollback[..]), allow, env);
              && orig.(slots := slots[..]) == d.data && rollback[..] == d.rollback
              && ret == d.ret && boot == d.boot
    {
      assert HonoursContract(env.verify[0], allow, rollback[..]) && HonoursContract(env.verify[1], allow, rollback[..]);
      ChosenHasData(slots[..], allow, env, rollback[..]);
      var has := new bool[2];
      var go, err, sawError := VerifyLoop(slots, allow, env, has);
      if !go {
        return err, None;
      }
      boot := ChooseSlot(slots);
      if boot == None {
        return FlowNoBootableSlots, None;
      }
      var k := boot.value;
      go, err := UpdateLoop(env, has);
      if !go {
        return err, None;
      }
      assert has[k];
      ret := if sawError then FlowOkWithVerificationError else FlowOk;
      SlotTick(slots, k);
    }

    // avb_ab_flow
    method AvbAbFlow(allow: bool, env: FlowEnv) returns (ret: FlowResult, boot: Option<nat>)
      requires Valid() && env.Honest(allow, rollback[..])
      modifies misc, rollback
      ensures var o := Flow(old(State()), allow, env);
              State() == o.store && ret == o.ret && boot == o.boot
    {
      var slots := new Slot[2](_ => Slot(0, 0, 0, 0));
      var loadIo, data := Load(env.load, slots, env.junk);
      var orig := if loadIo == IoOk then data else env.junkOrig;
      boot := None;
      if loadIo == IoOk {
        ret, boot := DecideInPlace(orig, slots, allow, env);
        data := orig.(slots := slots[..]);
      } else if loadIo == IoOom {
        ret := FlowOom;
      } else {
        ret := FlowIo;
      }
      var io := Save(data, orig, env.save);
      if io != IoOk {
        if io == IoOom {
          ret := FlowOom;
        } else {
          ret := FlowIo;
        }
        boot := None;
      }
    }

    // The three mark operations share their frame: load, edit the slots, save. They return when the
    // load fails, so what the record held before makes no difference.
    method MarkSlotActive(k: nat, env: MarkEnv) returns (ret: IoResult)
      requires Valid() && k < 2
      modifies misc
      ensures (State(), ret) == Mark(old(State()), MarkActive, k, env)
    {
      var slots := new Slot[2](_ => Slot(0, 0, 0, 0));
      var orig;
      ret, orig := Load(env.load, slots, InitialMetadata());
      if ret == IoOk {
        SlotActivate(slots, k);
        ret := Save(orig.(slots := slots[..]), orig, env.save);
      }
    }

    method MarkSlotUnbootable(k: nat, env: MarkEnv) returns (ret: IoResult)
      requires Valid() && k < 2
      modifies misc
      ensures (State(), ret) == Mark(old(State()), MarkUnbootable, k, env)
    {
      var slots := new Slot[2](_ => Slot(0, 0, 0, 0));
      var orig;
      ret, orig := Load(env.load, slots, InitialMetadata());
      if ret == IoOk {
        SlotSetUnbootable(slots, k);
        ret := Save(orig.(slots := slots[..]), orig, env.save);
      }
    }

    method MarkSlotSuccessful(k: nat, env: MarkEnv) returns (ret: IoResult)
      requires Valid() && k < 2
      modifies misc
      ensures (State(), ret) == Mark(old(State()), MarkSuccessful, k, env)
    {
      var slots := new Slot[2](_ => Slot(0, 0, 0, 0));
      var orig;
      ret, orig := Load(env.load, slots, InitialMetadata());
      if ret == IoOk {
        ghost var was := slots[..];
        if Bootable(slots[k]) {
          slots[k] := slots[k].(tries := 0, successful := 1);
        }
        assert slots[..] == MarkedSlots(was, MarkSuccessful, k);
        ret := Save(orig.(slots := slots[..]), orig, env.save);
      }
    }
  }
}
