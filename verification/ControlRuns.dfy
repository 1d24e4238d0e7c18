/**
 * What a completion event is answered with, over every run of requests and events, failed transfers
 * and a full map included (Kernel/usb/xhci/device.cpp).
 */
module ControlRuns {
  import opened Common
  import opened ControlTransfer
  import opened TrbRing
  import opened TrbRingProofs
  import opened ArrayMap

  const SUCCESS_CODE := 1
  const SHORT_PACKET_CODE := 13

  /** What a transfer event leads to: an error, or a call of one of the two completion handlers. */
  datatype Completion =
    | Failed(err: Error)
    | Interrupt(address: nat, len: int)
    | Control(setup: SetupData, buffer: nat, length: int)

  /** What the handler of a finished control transfer must be told, with the length that the ring has for it. */
  function Report(p: Pending, residual: nat): Completion {
    match p.buf
    case Some(b) => Control(p.setup, b.address, b.Cut().len - residual)
    case None => Control(p.setup, 0, 0)
  }

  /** The residual is what did not come of the length announced, so the handler is told how many bytes came. */
  lemma BytesReported(p: Pending, b: Buffer, came: nat)
    requires p.buf == Some(b) && came <= b.len % 0x2_0000
    ensures Report(p, b.len % 0x2_0000 - came) == Control(p.setup, b.address, came)
  {
  }

  predicate Succeeded(code: nat) {
    code == SUCCESS_CODE || code == SHORT_PACKET_CODE
  }

  /** A completion, decoded from the two TRBs of its transfer. */
  function Decoded(setup: TRB, issuer: TRB, residual: nat): Completion {
    if issuer.Type() == DATA_TYPE then
      Control(ReadSetupStage(setup), ReadDataStage(issuer).address, ReadDataStage(issuer).len - residual)
    else if issuer.Type() == STATUS_TYPE then Control(ReadSetupStage(setup), 0, 0)
    else Failed(NotImplemented)
  }

  /** A completion of no outstanding control transfer: an interrupt transfer's, or an error. */
  function NotControl(issuer: TRB, residual: nat): Completion {
    if issuer.Type() == NORMAL_TYPE then Interrupt(ReadDataStage(issuer).address, ReadDataStage(issuer).len - residual)
    else Failed(NoCorrespondingSetupStage)
  }

  /** While its stages are on the ring, a transfer's completion decodes to exactly what was asked for. */
  lemma DecodesToReport(buf: seq<TRB>, p: Pending, residual: nat)
    requires |buf| == RING_SIZE && Staged(buf, p) && p.setup.Valid() && (p.buf.Some? ==> p.buf.value.Valid())
    ensures buf[Key(p)].Type() != NORMAL_TYPE
    ensures Decoded(buf[Slot(p.start)], buf[Key(p)], residual) == Report(p, residual)
  {
    var t: nat :| t < 4 && buf[Slot(p.start)].Payload() == MakeSetupStage(p.setup, t).Payload();
    hide MakeSetupStage, IssuerStage, ReadSetupStage, ReadDataStage, SetupData.Valid, Buffer.Valid, TRB.Payload,
         TRB.Type, Slot, Key;
    SetupRoundTrip(p.setup, t);
    IssuerRoundTrip(p.buf, p.dirIn);
    PayloadReads(buf[Slot(p.start)], MakeSetupStage(p.setup, t));
    PayloadReads(buf[Key(p)], IssuerStage(p.buf, p.dirIn));
    PayloadType(buf[Key(p)]);
    PayloadType(IssuerStage(p.buf, p.dirIn));
  }

  // The map without any assumption on which transfers are outstanding.

  /** A key is the ring slot after its value's. */
  predicate KeyedEntry(e: Entry) {
    e.key.Some? ==> e.value < USABLE && e.key.value == Slot(e.value + 1)
  }

  predicate Keyed(t: seq<Entry>) {
    forall i :: 0 <= i < |t| ==> KeyedEntry(t[i])
  }

  lemma {:induction false} KeyedPut(t: seq<Entry>, key: nat, value: nat)
    requires Keyed(t) && value < USABLE && key == Slot(value + 1)
    ensures Keyed(AfterPut(t, key, value)) && |AfterPut(t, key, value)| == |t|
  {
    hide Slot;
    if t != [] && t[0].key != None {
      KeyedPut(t[1..], key, value);
    }
  }

  /** The slots of a setup stage and of the stage after it. */
  lemma NextSlot(start: nat)
    ensures Slot(start) < USABLE && Slot(start + 1) == Slot(Slot(start) + 1)
  {
  }

  lemma {:induction false} KeyedDelete(t: seq<Entry>, key: nat)
    requires Keyed(t)
    ensures Keyed(AfterDelete(t, key)) && |AfterDelete(t, key)| == |t|
  {
    hide Slot;
    if t != [] && t[0].key != Some(key) {
      KeyedDelete(t[1..], key);
    }
  }

  /** So the key decides the value, even where an old entry has the key of a new transfer. */
  lemma {:induction false} KeyedLookup(t: seq<Entry>, key: nat)
    requires Keyed(t) && Lookup(t, key).Some?
    ensures Lookup(t, key).value < USABLE && key == Slot(Lookup(t, key).value + 1)
  {
    if t[0].key != Some(key) {
      KeyedLookup(t[1..], key);
    }
  }

  /** Looking up a key in a table of ring slots. */
  function LookupSlot(t: seq<Entry>, key: nat): (r: Option<nat>)
    requires Keyed(t)
    ensures r == Lookup(t, key) && (r.Some? ==> r.value < USABLE)
  {
    if Lookup(t, key).Some? then
      KeyedLookup(t, key);
      Lookup(t, key)
    else None
  }

  /** The transfer ring of the control endpoint, the map, and the number of TRBs pushed so far. */
  datatype Transfers = Transfers(buf: seq<TRB>, table: seq<Entry>, total: nat) {
    predicate Valid() {
      |buf| == RING_SIZE && |table| == MAP_SIZE && Keyed(table)
    }
  }

  /** A request, or an event for a slot of the ring with a code of success or failure. */
  datatype Step = Issue(setup: SetupData, buf: Option<Buffer>, dirIn: bool) | Event(slot: nat, success: bool)

  ghost predicate Stepped(s: Transfers, step: Step, s': Transfers)
    requires s.Valid()
  {
    match step
    case Issue(setup, buf, dirIn) =>
      && Pushed(s.buf, s'.buf, Stages(setup, buf, dirIn), s.total, s'.total)
      && s'.table == AfterPut(s.table, Slot(s.total + 1), Slot(s.total))
    case Event(slot, success) =>
      && slot < USABLE && s'.buf == s.buf && s'.total == s.total
      && s'.table == if success && s.buf[slot].Type() != NORMAL_TYPE then AfterDelete(s.table, slot) else s.table
  }

  lemma SteppedValid(s: Transfers, step: Step, s': Transfers)
    requires s.Valid() && Stepped(s, step, s')
    ensures s'.Valid() && s.total <= s'.total
  {
    hide AfterPut, AfterDelete, Keyed, Slot;
    match step {
      case Issue(_, _, _) =>
        NextSlot(s.total);
        KeyedPut(s.table, Slot(s.total + 1), Slot(s.total));
      case Event(slot, _) => KeyedDelete(s.table, slot);
    }
  }

  /** What the driver does with a successful completion for a slot of the ring. */
  function Answer(s: Transfers, slot: nat, residual: nat): Completion
    requires s.Valid() && slot < USABLE
  {
    var issuer, filed := s.buf[slot], LookupSlot(s.table, slot);
    if issuer.Type() == NORMAL_TYPE || filed == None then NotControl(issuer, residual)
    else Decoded(s.buf[filed.value], issuer, residual)
  }

  /** The request is what a transfer asks for, and its stages are on the ring. */
  ghost predicate OnRing(s: Transfers, p: Pending)
    requires s.Valid()
  {
    Staged(s.buf, p) && p.setup.Valid() && (p.buf.Some? ==> p.buf.value.Valid())
  }

  /**
   * While a transfer's stages are on the ring, its completion reports its own request exactly if
   * the map has its key.
   */
  lemma AnswerExact(s: Transfers, p: Pending, residual: nat)
    requires s.Valid() && OnRing(s, p)
    ensures Answer(s, Key(p), residual) == Report(p, residual) <==> Lookup(s.table, Key(p)).Some?
  {
    DecodesToReport(s.buf, p, residual);
    if Lookup(s.table, Key(p)).Some? {
      KeyedLookup(s.table, Key(p));
      SameSlot(Lookup(s.table, Key(p)).value, p.start);
    }
    hide Decoded, Staged, TRB.Type, Slot, Keyed;
  }

  /**
   * Which completions are errors: of a TRB that is no Normal TRB and that the map does not have, and of
   * one that it has although it is neither a data nor a status stage.
   */
  lemma AnswerErrors(s: Transfers, slot: nat, residual: nat)
    requires s.Valid() && slot < USABLE
    ensures var kind, filed := s.buf[slot].d3 / 0x400 % 0x40, Lookup(s.table, slot).Some?;
            && (Answer(s, slot, residual) == Failed(NoCorrespondingSetupStage) <==> kind != 1 && !filed)
            && (Answer(s, slot, residual) == Failed(NotImplemented) <==> kind != 1 && kind != 3 && kind != 4 && filed)
            && (Answer(s, slot, residual).Interrupt? <==> kind == 1)
            && (Answer(s, slot, residual).Control? <==> (kind == 3 || kind == 4) && filed)
  {
  }

  lemma SameSlot(v: nat, start: nat)
    requires v < USABLE && Slot(v + 1) == Slot(start + 1)
    ensures v == Slot(start)
  {
  }

  /** A run of the driver: any requests and events, in any order. */
  ghost predicate IsRun(states: seq<Transfers>, steps: seq<Step>) {
    && |states| == |steps| + 1
    && forall i :: 0 <= i < |steps| ==> states[i].Valid() && Stepped(states[i], steps[i], states[i + 1])
  }

  lemma {:induction false} RunValid(states: seq<Transfers>, steps: seq<Step>, k: nat)
    requires IsRun(states, steps) && states[0].Valid() && k < |states|
    ensures states[k].Valid() && forall i :: 0 <= i <= k ==> states[i].total <= states[k].total
  {
    hide Stepped;
    if k > 0 {
      RunValid(states, steps, k - 1);
      SteppedValid(states[k - 1], steps[k - 1], states[k]);
    }
  }

  /** The map will have the key of the next transfer: it has it already, from one that failed, or has a free entry. */
  predicate WillFile(s: Transfers) {
    Lookup(s.table, Slot(s.total + 1)).Some? || Used(s.table) < MAP_SIZE
  }

  lemma JustIssued(s: Transfers, s': Transfers, p: Pending)
    requires s.Valid() && Stepped(s, Issue(p.setup, p.buf, p.dirIn), s') && p.start == s.total
    requires p.setup.Valid() && (p.buf.Some? ==> p.buf.value.Valid())
    ensures s'.Valid() && OnRing(s', p) && (Lookup(s'.table, Key(p)).Some? <==> WillFile(s))
    ensures s'.total >= p.start + 2
  {
    hide AfterPut, AfterDelete, Lookup, Used, Keyed, Slot, Staged, Pushed, Stages, SetupData.Valid, Buffer.Valid,
         TRB.Type;
    SteppedValid(s, Issue(p.setup, p.buf, p.dirIn), s');
    JustStaged(s.buf, s'.buf, p, s'.total);
    PutExact(s.table, Key(p), Slot(p.start));
  }

  lemma JustStaged(buf: seq<TRB>, buf': seq<TRB>, p: Pending, total: nat)
    requires Pushed(buf, buf', Stages(p.setup, p.buf, p.dirIn), p.start, total)
    ensures |buf'| == RING_SIZE && Staged(buf', p) && total >= p.start + 2
  {
    hide Staged, Pushed, Stages;
    PushedTotal(buf, buf', Stages(p.setup, p.buf, p.dirIn), p.start, total);
    StagesPushed(buf, buf', p, p.start);
  }

  lemma PushedTotal(before: seq<TRB>, after: seq<TRB>, trbs: seq<TRB>, total: nat, total': nat)
    requires Pushed(before, after, trbs, total, total')
    ensures total' == total + |trbs|
  {
  }

  /** A step that leaves a transfer inside the window and does not report it changes nothing for it. */
  lemma StillIssued(s: Transfers, step: Step, s': Transfers, p: Pending)
    requires s.Valid() && Stepped(s, step, s') && OnRing(s, p) && step != Event(Key(p), true)
    requires p.start + 2 <= s.total <= s'.total <= p.start + USABLE
    ensures s'.Valid() && OnRing(s', p) && (Lookup(s'.table, Key(p)).Some? <==> Lookup(s.table, Key(p)).Some?)
  {
    hide AfterPut, AfterDelete, Lookup, Keyed, Slot, Staged, Pushed, Stages, SetupData.Valid, Buffer.Valid, TRB.Type;
    SteppedValid(s, step, s');
    match step {
      case Issue(setup, buf, dirIn) =>
        StillStaged(s, s', Stages(setup, buf, dirIn), p);
        PutOthers(s.table, Slot(s.total + 1), Slot(s.total), Key(p));
      case Event(slot, success) =>
        DeleteOthers(s.table, slot, Key(p));
    }
  }

  lemma StillStaged(s: Transfers, s': Transfers, stages: seq<TRB>, p: Pending)
    requires s.Valid() && OnRing(s, p) && Pushed(s.buf, s'.buf, stages, s.total, s'.total) && |stages| >= 2
    requires p.start + 2 <= s.total && s'.total <= p.start + USABLE
    ensures |s'.buf| == RING_SIZE && Staged(s'.buf, p) && Slot(s.total + 1) != Key(p)
  {
    hide Staged, SetupData.Valid, Buffer.Valid;
    PushedTotal(s.buf, s'.buf, stages, s.total, s'.total);
    assert RingHolds(s.buf, [p]) && Window([p], s.total) && Room([p], s.total, |stages|);
    RingStillHolds(s.buf, s'.buf, stages, [p], s.total);
    assert Staged(s'.buf, [p][0]);
    SlotsDiffer(p.start + 1, s.total + 1);
  }

  /**
   * Over every run, whatever has failed before: until the ring comes round to its stages, a transfer
   * that has not been reported is answered with its own request exactly if, when it was issued, the
   * map had its key already or a free entry.
   */
  lemma {:induction false} RunReportsExact(states: seq<Transfers>, steps: seq<Step>, i: nat, k: nat, p: Pending,
      residual: nat)
    requires IsRun(states, steps) && states[0].Valid() && i < k < |states|
    requires steps[i] == Issue(p.setup, p.buf, p.dirIn) && p.start == states[i].total
    requires p.setup.Valid() && (p.buf.Some? ==> p.buf.value.Valid())
    requires states[k].total <= p.start + USABLE
    requires forall j :: i < j < k ==> steps[j] != Event(Key(p), true)
    ensures states[k].Valid() && OnRing(states[k], p) && p.start + 2 <= states[k].total
    ensures Lookup(states[k].table, Key(p)).Some? <==> WillFile(states[i])
    ensures Answer(states[k], Key(p), residual) == Report(p, residual) <==> WillFile(states[i])
  {
    hide Stepped, OnRing, Lookup, Answer, WillFile, SetupData.Valid, Buffer.Valid;
    RunValid(states, steps, k);
    RunValid(states, steps, k - 1);
    if k == i + 1 {
      JustIssued(states[i], states[k], p);
    } else {
      RunReportsExact(states, steps, i, k - 1, p, residual);
      StillIssued(states[k - 1], steps[k - 1], states[k], p);
    }
    AnswerExact(states[k], p, residual);
  }
}
