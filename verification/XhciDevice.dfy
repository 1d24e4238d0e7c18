/** The driver's side of control transfers (Kernel/usb/xhci/device.cpp). */
module XhciDevice {
  import opened Common
  import opened ControlRuns
  import opened ControlStages
  import opened ControlTransfer
  import opened TrbRing
  import opened TrbRingProofs
  import ArrayMap
  import RingDriver

  /** The j-th outstanding transfer is on the ring, and the map has its key. */
  lemma OutstandingOnRing(s: Transfers, pending: seq<Pending>, j: nat)
    requires s.Valid() && Tracks(s.buf, s.table, s.total, pending) && j < |pending|
    ensures OnRing(s, pending[j]) && ArrayMap.Lookup(s.table, Key(pending[j])).Some?
    ensures s.buf[Key(pending[j])].Type() != NORMAL_TYPE
  {
    assert OnRing(s, pending[j]);
    DecodesToReport(s.buf, pending[j], 0);
  }

  /** The TRB that a transfer event points to: in the control endpoint's ring, or in another endpoint's. */
  datatype Issuer = InRing(slot: nat) | Elsewhere(trb: TRB)

  /** One device slot with the transfer ring of its default control endpoint, if that has been set. */
  class Device {
    const ring: RingDriver.Ring?
    const setupStageMap: ArrayMap.ArrayMap
    ghost var total: nat  // TRBs pushed so far

    ghost function Footprint(): set<object> {
      {setupStageMap.table} + if ring == null then {} else {ring, ring.buf}
    }

    ghost predicate Valid()
      reads this, Footprint()
    {
      && setupStageMap.table.Length == MAP_SIZE && Keyed(setupStageMap.table[..])
      && (ring != null ==> ring.buf.Length == RING_SIZE && ring.base % 16 == 0 && ring.writeIndex == Slot(total))
    }

    ghost function State(): (s: Transfers)
      requires Valid() && ring != null
      reads this, Footprint()
      ensures s.Valid()
    {
      Transfers(ring.buf[..], setupStageMap.table[..], total)
    }

    /** The transfers issued and not yet reported, oldest first, as far as ring and map keep track of them. */
    ghost predicate Outstanding(pending: seq<Pending>)
      requires ring != null
      reads this, Footprint()
    {
      Tracks(ring.buf[..], setupStageMap.table[..], total, pending)
    }

    constructor (ring: RingDriver.Ring?)
      requires ring != null ==> ring.buf.Length == RING_SIZE && ring.base % 16 == 0 && ring.writeIndex == 0
      ensures Valid() && this.ring == ring && total == 0 && fresh(setupStageMap) && fresh(setupStageMap.table)
      ensures FilledBy(setupStageMap.table[..], 0) && (ring != null ==> Outstanding([]))
    {
      this.ring := ring;
      setupStageMap := new ArrayMap.ArrayMap(MAP_SIZE);
      total := 0;
      new;
      EmptyMap(setupStageMap.table[..]);
    }

    lemma {:induction false} EmptyTable(t: seq<ArrayMap.Entry>, k: nat)
      requires forall i :: 0 <= i < |t| ==> t[i] == ArrayMap.FREE
      ensures ArrayMap.Distinct(t) && ArrayMap.Used(t) == 0 && ArrayMap.Lookup(t, k) == None
    {
      if t != [] {
        EmptyTable(t[1..], k);
      }
    }

    lemma EmptyMap(t: seq<ArrayMap.Entry>)
      requires |t| == MAP_SIZE && forall i :: 0 <= i < |t| ==> t[i] == ArrayMap.FREE
      ensures MapHolds(t, []) && FilledBy(t, 0)
    {
      EmptyTable(t, 0);
      forall k ensures ArrayMap.Lookup(t, k) == None {
        EmptyTable(t, k);
      }
    }

    /** Pushes one stage. */
    method PushStage(trb: TRB) returns (position: nat)
      requires Valid() && ring != null
      modifies ring, ring.buf, `total
      ensures Valid() && total == old(total) + 1 && position == Slot(old(total))
      ensures (ring.buf[..], ring.writeIndex, ring.cycleBit) ==
        AfterPush(old(ring.buf[..]), position, old(ring.cycleBit), ring.base, trb)
      ensures Pushed(old(ring.buf[..]), ring.buf[..], [trb], old(total), total)
    {
      hide AfterPush, TRB.Payload, Keyed;
      ghost var before, c := ring.buf[..], ring.cycleBit;
      position := ring.Push(trb);
      PushEffect(before, position, c, ring.base, trb, total);
      total := total + 1;
    }

    /** Files a transfer whose setup stage was the start-th TRB. */
    method File(issuerPosition: nat, setupPosition: nat, ghost start: nat)
      requires Valid() && setupPosition == Slot(start) && issuerPosition == Slot(start + 1)
      modifies setupStageMap.table
      ensures Valid()
      ensures setupStageMap.table[..] == ArrayMap.AfterPut(old(setupStageMap.table[..]), issuerPosition, setupPosition)
    {
      hide Keyed, ArrayMap.AfterPut, Slot;
      NextSlot(start);
      KeyedPut(setupStageMap.table[..], issuerPosition, setupPosition);
      setupStageMap.Put(issuerPosition, setupPosition);
    }

    /** Setup, data and status stage; the data stage's completion will be reported. */
    method IssueWithData(setup: SetupData, b: Buffer, dirIn: bool)
      requires Valid() && ring != null
      modifies Footprint(), `total
      ensures Valid() && Pushed(old(ring.buf[..]), ring.buf[..], Stages(setup, Some(b), dirIn), old(total), total)
      ensures setupStageMap.table[..]
              == ArrayMap.AfterPut(old(setupStageMap.table[..]), Slot(old(total) + 1), Slot(old(total)))
    {
      hide AfterPush, TRB.Payload, MakeSetupStage, MakeDataStage, MakeStatusStage, Pushed, Keyed;
      ghost var start, buf0, stages := total, ring.buf[..], Stages(setup, Some(b), dirIn);
      var setupPosition := PushStage(MakeSetupStage(setup, if dirIn then IN_DATA_STAGE else OUT_DATA_STAGE));
      ghost var buf1 := ring.buf[..];
      var dataPosition := PushStage(MakeDataStage(b, dirIn));
      ghost var buf2 := ring.buf[..];
      var _ := PushStage(MakeStatusStage(!dirIn, false));
      assert [stages[0]] + [stages[1]] == stages[..2] && stages[..2] + [stages[2]] == stages;
      PushedThen(buf0, buf1, buf2, [stages[0]], stages[1], start);
      PushedThen(buf0, buf2, ring.buf[..], stages[..2], stages[2], start);
      File(dataPosition, setupPosition, start);
    }

    /** Setup and status stage; the status stage's completion will be reported. */
    method IssueWithoutData(setup: SetupData, dirIn: bool)
      requires Valid() && ring != null
      modifies Footprint(), `total
      ensures Valid() && Pushed(old(ring.buf[..]), ring.buf[..], Stages(setup, None, dirIn), old(total), total)
      ensures setupStageMap.table[..]
              == ArrayMap.AfterPut(old(setupStageMap.table[..]), Slot(old(total) + 1), Slot(old(total)))
    {
      hide AfterPush, TRB.Payload, MakeSetupStage, MakeStatusStage, Pushed, Keyed;
      ghost var start, buf0, stages := total, ring.buf[..], Stages(setup, None, dirIn);
      var setupPosition := PushStage(MakeSetupStage(setup, NO_DATA_STAGE));
      ghost var buf1 := ring.buf[..];
      var statusPosition := PushStage(MakeStatusStage(true, true));
      assert [stages[0]] + [stages[1]] == stages;
      PushedThen(buf0, buf1, ring.buf[..], [stages[0]], stages[1], start);
      File(statusPosition, setupPosition, start);
    }

    /**
     * ControlIn and ControlOut, which differ only in the directions of their stages. The controller
     * reads what is wanted from the ring, where the stage that asks for an interrupt is the one
     * that is filed. The new transfer is on the ring; the map has its key exactly if it had it before or had
     * a free entry.
     * Inside the window of the last 31 TRBs the transfer joins the outstanding ones.
     */
    method IssueControl(setup: SetupData, buf: Option<Buffer>, dirIn: bool) returns (err: Error)
      requires Valid() && setup.Valid() && (buf.Some? ==> buf.value.Valid())
      modifies Footprint(), `total
      ensures Valid() && err == if ring == null then TransferRingNotSet else Success
      ensures ring == null ==> setupStageMap.table[..] == old(setupStageMap.table[..])
      ensures ring != null ==> Stepped(old(State()), Issue(setup, buf, dirIn), State())
      ensures ring != null ==> OnBus(ring.buf[..], old(total), Wanted(setup, buf, dirIn))
      ensures InterruptsAt(Wanted(setup, buf, dirIn), old(total), Slot(old(total) + 1))
      ensures ring != null ==>
        var p := Pending(old(total), setup, buf, dirIn);
        OnRing(State(), p) && (ArrayMap.Lookup(State().table, Key(p)).Some? <==> WillFile(old(State())))
      ensures forall pending | ring != null && old(Outstanding(pending)) ::
                Room(pending, old(total), |Stages(setup, buf, dirIn)|) ==>
                  Outstanding(pending + [Pending(old(total), setup, buf, dirIn)])
    {
      hide Tracks, Pushed, Room, SetupData.Valid, Buffer.Valid, Keyed, Slot, OnRing, WillFile, ArrayMap.Lookup,
           ArrayMap.AfterPut, OnBus, Wanted, InterruptsAt;
      OneInterrupt(setup, buf, dirIn, total);
      if ring == null {
        return TransferRingNotSet;
      }
      ghost var s, p := State(), Pending(total, setup, buf, dirIn);
      if buf.Some? {
        IssueWithData(setup, buf.value, dirIn);
      } else {
        IssueWithoutData(setup, dirIn);
      }
      JustIssued(s, State(), p);
      PushedOnBus(s.buf, ring.buf[..], setup, buf, dirIn, s.total, total);
      forall pending: seq<Pending> | Tracks(s.buf, s.table, s.total, pending) &&
        Room(pending, s.total, |Stages(setup, buf, dirIn)|)
        ensures Outstanding(pending + [p])
      {
        PushedTotal(s.buf, ring.buf[..], Stages(setup, buf, dirIn), s.total, total);
        IssueTracked(s.buf, ring.buf[..], s.table, s.total, pending, p);
      }
      return Success;
    }

    /**
     * A transfer event. A successful completion of any transfer whose stages are on the ring is
     * reported with its own request exactly if the map has its key; the outstanding ones are among
     * those. A failed one changes nothing, so its entry stays in the map.
     */
    method OnTransferEventReceived(issuer: Issuer, code: nat, residual: nat) returns (r: Completion)
      requires Valid() && ring != null && (issuer.InRing? ==> issuer.slot < USABLE)
      modifies setupStageMap.table
      ensures Valid()
      ensures code != 1 && code != 13 ==> r == Failed(TransferFailed)
      ensures code == 1 || code == 13 ==> r == match issuer
                                      case InRing(slot) => Answer(old(State()), slot, residual)
                                      case Elsewhere(trb) => NotControl(trb, residual)
      ensures if issuer.InRing? then Stepped(old(State()), Event(issuer.slot, Succeeded(code)), State())
              else State() == old(State())
      ensures forall p | Succeeded(code) && OnRing(old(State()), p) && issuer == InRing(Key(p)) ::
                r == Report(p, residual) <==> ArrayMap.Lookup(old(State()).table, Key(p)).Some?
      ensures forall pending, j | Succeeded(code) && old(Outstanding(pending)) && 0 <= j < |pending| ::
                issuer == InRing(Key(pending[j])) ==>
                  r == Report(pending[j], residual) && Outstanding(Without(pending, j))
    {
      hide Tracks, Slot, Key, Report, Decoded, ReadDataStage, TRB.Type, ArrayMap.Lookup, ArrayMap.AfterDelete,
           Keyed, Without, OnRing;
      if !Succeeded(code) {
        return Failed(TransferFailed);
      }
      ghost var s := State();
      Answers(s, issuer, residual);
      var issuerTrb := match issuer case InRing(slot) => ring.buf[slot] case Elsewhere(trb) => trb;
      if issuerTrb.Type() == NORMAL_TYPE || issuer.Elsewhere? {
        return NotControl(issuerTrb, residual);
      }
      var setupPosition := setupStageMap.Get(issuer.slot);
      ArrayMap.DeleteOthers(s.table, issuer.slot, issuer.slot);
      if setupPosition.None? {
        return NotControl(issuerTrb, residual);
      }
      KeyedLookup(s.table, issuer.slot);
      KeyedDelete(s.table, issuer.slot);
      setupStageMap.Delete(issuer.slot);
      return Decoded(ring.buf[setupPosition.value], issuerTrb, residual);
    }
  }

  /** What the answer to a completion means for every transfer on the ring, and for the outstanding ones. */
  lemma Answers(s: Transfers, issuer: Issuer, residual: nat)
    requires s.Valid() && (issuer.InRing? ==> issuer.slot < USABLE)
    ensures forall p | OnRing(s, p) && issuer == InRing(Key(p)) ::
              Answer(s, Key(p), residual) == Report(p, residual) <==> ArrayMap.Lookup(s.table, Key(p)).Some?
    ensures forall pending, j | Tracks(s.buf, s.table, s.total, pending) && 0 <= j < |pending| ::
              issuer == InRing(Key(pending[j])) ==>
                && Answer(s, Key(pending[j]), residual) == Report(pending[j], residual)
                && s.buf[Key(pending[j])].Type() != NORMAL_TYPE
                && ArrayMap.Lookup(s.table, Key(pending[j])).Some?
                && Tracks(s.buf, ArrayMap.AfterDelete(s.table, Key(pending[j])), s.total, Without(pending, j))
  {
    hide Tracks, Answer, Report, OnRing, ArrayMap.Lookup, ArrayMap.AfterDelete, Without, Keyed, TRB.Type;
    forall p | OnRing(s, p) && issuer == InRing(Key(p))
      ensures Answer(s, Key(p), residual) == Report(p, residual) <==> ArrayMap.Lookup(s.table, Key(p)).Some?
    {
      AnswerExact(s, p, residual);
    }
    forall pending: seq<Pending>, j | Tracks(s.buf, s.table, s.total, pending) && 0 <= j < |pending|
      && issuer == InRing(Key(pending[j]))
      ensures Answer(s, Key(pending[j]), residual) == Report(pending[j], residual)
      ensures s.buf[Key(pending[j])].Type() != NORMAL_TYPE && ArrayMap.Lookup(s.table, Key(pending[j])).Some?
      ensures Tracks(s.buf, ArrayMap.AfterDelete(s.table, Key(pending[j])), s.total, Without(pending, j))
    {
      OutstandingOnRing(s, pending, j);
      AnswerExact(s, pending[j], residual);
      ReportTracked(s.buf, s.table, s.total, pending, j);
    }
  }

  /** An interrupt transfer: one Normal TRB on the ring of another endpoint, if that has been set. */
  method InterruptIn(ring: RingDriver.Ring?, b: Buffer) returns (err: Error, position: nat)
    requires b.Valid() && (ring != null ==> ring.Valid())
    modifies if ring == null then {} else {ring, ring.buf}
    ensures err == if ring == null then TransferRingNotSet else Success
    ensures ring != null ==>
      && ring.Valid() && position == old(ring.writeIndex) < ring.buf.Length
      && (ring.buf[..], ring.writeIndex, ring.cycleBit)
         == AfterPush(old(ring.buf[..]), position, old(ring.cycleBit), ring.base, MakeNormal(b))
      && ReadStage(ring.buf[position]) == Normal(b.address, b.len % 0x2_0000, true, true)
  {
    position := 0;
    if ring == null {
      return TransferRingNotSet, position;
    }
    ghost var before, c := ring.buf[..], ring.cycleBit;
    position := ring.Push(MakeNormal(b));
    StampFacts(MakeNormal(b), c);
    assert ring.buf[position] == MakeNormal(b).(d3 := Stamp(MakeNormal(b).d3, c));
    NormalRead(b, ring.buf[position]);
    return Success, position;
  }

  /** Its completion is answered with the buffer it was given and the number of bytes that came. */
  lemma InterruptReported(b: Buffer, t: TRB, residual: nat)
    requires b.Valid() && t.Payload() == MakeNormal(b).Payload()
    ensures NotControl(t, residual) == Interrupt(b.address, b.len % 0x2_0000 - residual)
  {
    PayloadType(t);
    PayloadType(MakeNormal(b));
    PayloadReads(t, MakeNormal(b));
  }

  /** The map after the first n transfers without data have failed: none of their keys has been deleted. */
  ghost predicate FilledBy(table: seq<ArrayMap.Entry>, n: nat) {
    && |table| == MAP_SIZE && ArrayMap.Distinct(table) && ArrayMap.Used(table) == n
    && forall k :: ArrayMap.Lookup(table, k).Some? ==> exists j: nat :: j < n && k == Slot(2 * j + 1)
  }

  lemma OddSlotsDiffer(a: nat, b: nat)
    requires a < b <= MAP_SIZE
    ensures Slot(2 * a + 1) != Slot(2 * b + 1)
  {
    if b - a < MAP_SIZE {
      SlotsDiffer(2 * a + 1, 2 * b + 1);
    }
  }

  lemma NewKey(table: seq<ArrayMap.Entry>, n: nat)
    requires FilledBy(table, n) && n <= MAP_SIZE
    ensures ArrayMap.Lookup(table, Slot(2 * n + 1)) == None
  {
    forall j: nat | j < n ensures Slot(2 * j + 1) != Slot(2 * n + 1) {
      OddSlotsDiffer(j, n);
    }
  }

  lemma FilledFurther(table: seq<ArrayMap.Entry>, n: nat)
    requires FilledBy(table, n) && n < MAP_SIZE
    ensures FilledBy(ArrayMap.AfterPut(table, Slot(2 * n + 1), Slot(2 * n)), n + 1)
  {
    NewKey(table, n);
    ArrayMap.PutNew(table, Slot(2 * n + 1), Slot(2 * n));
  }

  lemma FullMap(table: seq<ArrayMap.Entry>, key: nat, value: nat)
    requires FilledBy(table, MAP_SIZE)
    ensures ArrayMap.AfterPut(table, key, value) == table
  {
    ArrayMap.PutFull(table, key, value);
  }

  lemma StatusPushed(buf: seq<TRB>, buf': seq<TRB>, setup: SetupData, start: nat)
    requires Pushed(buf, buf', Stages(setup, None, true), start, start + 2)
    ensures |buf'| == RING_SIZE && Slot(start + 1) < USABLE && buf'[Slot(start + 1)].Type() == STATUS_TYPE
  {
    StatusType();
    hide Pushed, TRB.Type, TRB.Payload, MakeSetupStage, MakeStatusStage;
    PushedAt(buf, buf', Stages(setup, None, true), start);
    PayloadType(buf'[Slot(start + 1)]);
    PayloadType(MakeStatusStage(true, true));
  }

  lemma StatusType()
    ensures MakeStatusStage(true, true).Type() == STATUS_TYPE
  {
  }

  /** A transfer without data that fails, with whatever code: its entry stays in the map. */
  method FailTransfer(device: Device, setup: SetupData, start: nat, code: nat)
    requires device.Valid() && device.ring != null && setup.Valid() && device.total == start && !Succeeded(code)
    modifies device.Footprint(), device`total
    ensures device.Valid() && device.total == start + 2
    ensures device.setupStageMap.table[..] ==
      ArrayMap.AfterPut(old(device.setupStageMap.table[..]), Slot(start + 1), Slot(start))
  {
    hide SetupData.Valid, ArrayMap.AfterPut, TRB.Type, Pushed, Tracks, Keyed, ArrayMap.Lookup, OnRing, Answer;
    ghost var s := device.State();
    var err := device.IssueControl(setup, None, true);
    PushedTotal(s.buf, device.ring.buf[..], Stages(setup, None, true), s.total, device.total);
    var failed := device.OnTransferEventReceived(InRing(Slot(start + 1)), code, 0);
  }

  /**
   * Sixteen failed transfers fill the map, if the controller goes on after each: the next one
   * succeeds on the bus and is reported as unknown.
   */
  method SixteenFailures(ring: RingDriver.Ring, setup: SetupData, codes: seq<nat>) returns (r: Completion)
    requires ring.buf.Length == RING_SIZE && ring.base % 16 == 0 && ring.writeIndex == 0 && setup.Valid()
    requires |codes| == MAP_SIZE && forall i :: 0 <= i < MAP_SIZE ==> !Succeeded(codes[i])
    modifies ring, ring.buf
    ensures r == Failed(NoCorrespondingSetupStage)
  {
    hide SetupData.Valid, ArrayMap.AfterPut, TRB.Type, Pushed, Tracks, FilledBy, Keyed, ArrayMap.Lookup, OnRing;
    var device := new Device(ring);
    for i := 0 to MAP_SIZE
      invariant device.Valid() && device.ring == ring && fresh(device.setupStageMap.table) && device.total == 2 * i
      invariant FilledBy(device.setupStageMap.table[..], i)
    {
      FilledFurther(device.setupStageMap.table[..], i);
      FailTransfer(device, setup, 2 * i, codes[i]);
    }
    ghost var buf := ring.buf[..];
    NewKey(device.setupStageMap.table[..], MAP_SIZE);
    FullMap(device.setupStageMap.table[..], Slot(2 * MAP_SIZE + 1), Slot(2 * MAP_SIZE));
    var err := device.IssueControl(setup, None, true);
    PushedTotal(buf, ring.buf[..], Stages(setup, None, true), 2 * MAP_SIZE, device.total);
    StatusPushed(buf, ring.buf[..], setup, 2 * MAP_SIZE);
    r := device.OnTransferEventReceived(InRing(Slot(2 * MAP_SIZE + 1)), SUCCESS_CODE, 0);
  }
}
