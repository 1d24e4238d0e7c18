/**
 * Control transfers on endpoint 0 (Kernel/usb/xhci/device.cpp): what is put on the ring and how a
 * completion is matched to it.
 */
module ControlTransfer {
  import opened Common
  import opened TrbRing
  import opened TrbRingProofs
  import opened ArrayMap

  const RING_SIZE := 32
  const USABLE := 31   // the last slot of the ring holds the Link TRB
  const MAP_SIZE := 16

  const NORMAL_TYPE := 1
  const SETUP_TYPE := 2
  const DATA_TYPE := 3
  const STATUS_TYPE := 4

  const NO_DATA_STAGE := 0
  const OUT_DATA_STAGE := 2
  const IN_DATA_STAGE := 3

  const IOC := 32            // interrupt on completion, bit 5 of the last dword
  const DIRECTION := 0x10000 // bit 16 of the last dword

  /** The setup packet of a control request (section 9.3 of the USB 2.0 specification). */
  datatype SetupData = SetupData(requestType: nat, request: nat, value: nat, index: nat, length: nat) {
    predicate Valid() {
      requestType < 0x100 && request < 0x100 && value < 0x10000 && index < 0x10000 && length < 0x10000
    }
  }

  /** A caller's buffer: its address and length. */
  datatype Buffer = Buffer(address: nat, len: nat) {
    predicate Valid() {
      address < 0x1_0000_0000_0000_0000
    }

    /** What the length field of a TRB, 17 bits wide, keeps of it. */
    function Cut(): Buffer {
      this.(len := len % 0x20000)
    }
  }

  function MakeSetupStage(s: SetupData, transferType: nat): TRB {
    TRB(s.requestType + 0x100 * s.request + 0x10000 * s.value, s.index + 0x10000 * s.length, 8,
        64 + SETUP_TYPE * 1024 + 0x10000 * transferType)
  }

  function ReadSetupStage(t: TRB): SetupData {
    SetupData(t.d0 % 0x100, t.d0 / 0x100 % 0x100, t.d0 / 0x10000 % 0x10000, t.d1 % 0x10000, t.d1 / 0x10000 % 0x10000)
  }

  function MakeDataStage(b: Buffer, dirIn: bool): TRB {
    TRB(b.address % 0x1_0000_0000, b.address / 0x1_0000_0000, b.len % 0x20000,
        IOC + DATA_TYPE * 1024 + if dirIn then DIRECTION else 0)
  }

  function ReadDataStage(t: TRB): Buffer {
    Buffer(t.d0 + 0x1_0000_0000 * t.d1, t.d2 % 0x20000)
  }

  function MakeStatusStage(dirIn: bool, ioc: bool): TRB {
    TRB(0, 0, 0, STATUS_TYPE * 1024 + (if ioc then IOC else 0) + if dirIn then DIRECTION else 0)
  }

  /** The TRB whose completion the driver hears of: the data stage, or the status stage when there is no data. */
  function IssuerStage(buf: Option<Buffer>, dirIn: bool): TRB {
    match buf
    case Some(b) => MakeDataStage(b, dirIn)
    case None => MakeStatusStage(true, true)
  }

  lemma SetupRoundTrip(s: SetupData, transferType: nat)
    requires s.Valid() && transferType < 4
    ensures ReadSetupStage(MakeSetupStage(s, transferType)) == s && MakeSetupStage(s, transferType).Type() == SETUP_TYPE
  {
    var d := s.requestType + 0x100 * s.request + 0x10000 * s.value;
    assert d / 0x100 == s.request + 0x100 * s.value;
    assert d / 0x10000 == s.value;
    assert (s.index + 0x10000 * s.length) / 0x10000 == s.length;
  }

  lemma IssuerRoundTrip(buf: Option<Buffer>, dirIn: bool)
    requires buf.Some? ==> buf.value.Valid()
    ensures buf.Some? ==>
              IssuerStage(buf, dirIn).Type() == DATA_TYPE && ReadDataStage(IssuerStage(buf, dirIn)) == buf.value.Cut()
    ensures buf.Some? ==> (ReadDataStage(IssuerStage(buf, dirIn)) == buf.value <==> buf.value.len < 0x20000)
    ensures buf.None? ==> IssuerStage(buf, dirIn).Type() == STATUS_TYPE
  {
  }

  /** The stage TRBs read the same whatever their cycle bit. */
  lemma PayloadReads(t: TRB, u: TRB)
    requires t.Payload() == u.Payload()
    ensures ReadSetupStage(t) == ReadSetupStage(u) && ReadDataStage(t) == ReadDataStage(u)
  {
  }

  /** A transfer whose completion has not been reported; `start` counts the TRBs pushed before its setup stage. */
  datatype Pending = Pending(start: nat, setup: SetupData, buf: Option<Buffer>, dirIn: bool)

  /** The ring slot of the n-th TRB pushed. */
  function Slot(n: nat): nat {
    n % USABLE
  }

  lemma SlotsDiffer(a: nat, b: nat)
    requires a != b && a < b + USABLE && b < a + USABLE
    ensures Slot(a) != Slot(b)
  {
  }

  /** The outstanding transfers in order of issue, all within the last 31 TRBs pushed. */
  ghost predicate Window(pending: seq<Pending>, total: nat) {
    && (forall i :: 0 <= i < |pending| ==> pending[i].start + 2 <= total <= pending[i].start + USABLE)
    && (forall i, j :: 0 <= i < j < |pending| ==> pending[i].start + 2 <= pending[j].start)
    && (forall i :: 0 <= i < |pending| ==>
          pending[i].setup.Valid() && (pending[i].buf.Some? ==> pending[i].buf.value.Valid()))
  }

  /** At least two TRBs each in a window of 31: at most 15 transfers are outstanding. */
  lemma {:induction false} WindowBound(pending: seq<Pending>, total: nat, i: nat)
    requires Window(pending, total) && i < |pending|
    ensures pending[0].start + 2 * i <= pending[i].start && 2 * (i + 1) <= USABLE
  {
    if i > 0 {
      WindowBound(pending, total, i - 1);
    }
  }

  /** The key under which the driver files a transfer: the slot of the TRB that will be reported. */
  function Key(p: Pending): nat {
    Slot(p.start + 1)
  }

  /** The ring still holds a transfer's setup stage and issuer stage. */
  ghost predicate Staged(buf: seq<TRB>, p: Pending)
    requires |buf| == RING_SIZE
  {
    && (exists t: nat :: t < 4 && buf[Slot(p.start)].Payload() == MakeSetupStage(p.setup, t).Payload())
    && buf[Key(p)].Payload() == IssuerStage(p.buf, p.dirIn).Payload()
  }

  ghost predicate RingHolds(buf: seq<TRB>, pending: seq<Pending>)
    requires |buf| == RING_SIZE
  {
    forall i :: 0 <= i < |pending| ==> Staged(buf, pending[i])
  }

  ghost predicate IsKey(pending: seq<Pending>, k: nat) {
    exists i :: 0 <= i < |pending| && Key(pending[i]) == k
  }

  /** The map leads from every issuer's slot to its setup stage's slot, and from no other slot anywhere. */
  ghost predicate MapHolds(table: seq<Entry>, pending: seq<Pending>) {
    && |table| == MAP_SIZE && Distinct(table) && Used(table) == |pending|
    && (forall i :: 0 <= i < |pending| ==> Lookup(table, Key(pending[i])) == Some(Slot(pending[i].start)))
    && (forall k :: Lookup(table, k).Some? ==> IsKey(pending, k))
  }

  /** Room for n more TRBs: the oldest outstanding transfer stays within the last 31 TRBs. */
  predicate Room(pending: seq<Pending>, total: nat, n: nat) {
    pending == [] || total + n <= pending[0].start + USABLE
  }

  /** What one push does to the slots of the 32-slot ring. */
  lemma PushEffect(buf: seq<TRB>, w: nat, c: bool, base: nat, trb: TRB, total: nat)
    requires |buf| == RING_SIZE && w == Slot(total)
    ensures w + 1 < |buf|
    ensures var (buf', w', c') := AfterPush(buf, w, c, base, trb);
            && |buf'| == RING_SIZE && w' == Slot(total + 1) && buf'[w].Payload() == trb.Payload()
            && forall k :: 0 <= k < USABLE && k != w ==> buf'[k] == buf[k]
  {
  }

  /**
   * The stages of a control transfer. The status stage goes against the data stage, or towards the
   * host without one.
   */
  function Stages(setup: SetupData, buf: Option<Buffer>, dirIn: bool): (r: seq<TRB>)
    ensures |r| >= 2
  {
    match buf
    case Some(b) =>
      [MakeSetupStage(setup, if dirIn then IN_DATA_STAGE else OUT_DATA_STAGE), MakeDataStage(b, dirIn),
        MakeStatusStage(!dirIn, false)]
    case None => [MakeSetupStage(setup, NO_DATA_STAGE), MakeStatusStage(true, true)]
  }

  /**
   * The ring after some TRBs have been pushed: they follow each other from the old position on, and
   * the other slots keep their TRBs.
   */
  ghost predicate Pushed(before: seq<TRB>, after: seq<TRB>, trbs: seq<TRB>, total: nat, total': nat) {
    && |before| == |after| == RING_SIZE && total' == total + |trbs|
    && (forall n :: total <= n < total' ==> after[Slot(n)].Payload() == trbs[n - total].Payload())
    && (forall k :: 0 <= k < USABLE && (forall n :: total <= n < total' ==> Slot(n) != k) ==> after[k] == before[k])
  }

  lemma PushedThen(a: seq<TRB>, b: seq<TRB>, c: seq<TRB>, trbs: seq<TRB>, trb: TRB, total: nat)
    requires |trbs| < USABLE && Pushed(a, b, trbs, total, total + |trbs|) &&
      Pushed(b, c, [trb], total + |trbs|, total + |trbs| + 1)
    ensures Pushed(a, c, trbs + [trb], total, total + |trbs| + 1)
  {
    hide TRB.Payload;
    var all, end := trbs + [trb], total + |trbs|;
    assert c[Slot(end)].Payload() == trb.Payload();
    forall n | total <= n < end ensures c[Slot(n)] == b[Slot(n)] {
      SlotsDiffer(n, end);
    }
    forall k | 0 <= k < USABLE && (forall n :: total <= n < end + 1 ==> Slot(n) != k) ensures c[k] == a[k] {
      assert Slot(end) != k;
      assert c[k] == b[k];
    }
  }

  lemma PushedAt(a: seq<TRB>, b: seq<TRB>, trbs: seq<TRB>, total: nat)
    requires |trbs| >= 2 && Pushed(a, b, trbs, total, total + |trbs|)
    ensures |b| == RING_SIZE && Slot(total) < RING_SIZE && Slot(total + 1) < RING_SIZE
    ensures b[Slot(total)].Payload() == trbs[0].Payload() && b[Slot(total + 1)].Payload() == trbs[1].Payload()
  {
  }

  /** Pushes inside the window spare the stages of every outstanding transfer. */
  lemma RingStillHolds(buf: seq<TRB>, buf': seq<TRB>, trbs: seq<TRB>, pending: seq<Pending>, total: nat)
    requires Pushed(buf, buf', trbs, total, total + |trbs|) && |buf| == RING_SIZE
    requires RingHolds(buf, pending) && Window(pending, total) && Room(pending, total, |trbs|)
    ensures RingHolds(buf', pending) && Window(pending, total + |trbs|)
  {
    hide MakeSetupStage, IssuerStage, TRB.Payload, SetupData.Valid, Buffer.Valid;
    forall i | 0 <= i < |pending| ensures Staged(buf', pending[i]) {
      var start := pending[i].start;
      forall n | total <= n < total + |trbs| ensures Slot(n) != Slot(start) && Slot(n) != Slot(start + 1) {
        SlotsDiffer(start, n);
        SlotsDiffer(start + 1, n);
      }
      assert Staged(buf, pending[i]);
    }
  }

  /** The new transfer joins the outstanding ones. */
  lemma WindowJoined(pending: seq<Pending>, total: nat, p: Pending)
    requires Window(pending, total) && p.setup.Valid() && (p.buf.Some? ==> p.buf.value.Valid())
    requires forall i :: 0 <= i < |pending| ==> pending[i].start + 2 <= p.start
    requires p.start + 2 <= total <= p.start + USABLE
    ensures Window(pending + [p], total)
  {
  }

  lemma KeysDiffer(pending: seq<Pending>, total: nat, i: nat, j: nat)
    requires Window(pending, total) && i < |pending| && j < |pending| && i != j
    ensures Key(pending[i]) != Key(pending[j])
  {
  }

  /** The map takes the new key: it has a free entry, and no outstanding transfer uses that slot. */
  lemma MapTakes(table: seq<Entry>, pending: seq<Pending>, total: nat, p: Pending)
    requires MapHolds(table, pending) && Window(pending + [p], total)
    ensures MapHolds(AfterPut(table, Key(p), Slot(p.start)), pending + [p])
  {
    var all := pending + [p];
    WindowBound(all, total, |pending|);
    assert !IsKey(pending, Key(p)) by {
      forall i | 0 <= i < |pending| ensures Key(pending[i]) != Key(p) {
        KeysDiffer(all, total, i, |pending|);
      }
    }
    hide Window, Slot, Key, AfterPut, Lookup, Used, Distinct;
    PutNew(table, Key(p), Slot(p.start));
    IsKeyJoined(pending, p);
  }

  lemma IsKeyJoined(pending: seq<Pending>, p: Pending)
    ensures forall k :: IsKey(pending + [p], k) <==> IsKey(pending, k) || k == Key(p)
  {
    hide Key;
    var all := pending + [p];
    forall k ensures IsKey(all, k) <==> IsKey(pending, k) || k == Key(p) {
      if IsKey(pending, k) {
        var i :| 0 <= i < |pending| && Key(pending[i]) == k;
        assert all[i] == pending[i];
      }
      assert all[|pending|] == p;
    }
  }

  function Without(pending: seq<Pending>, j: nat): seq<Pending>
    requires j < |pending|
  {
    pending[..j] + pending[j + 1..]
  }

  lemma WithoutAt(pending: seq<Pending>, j: nat)
    requires j < |pending|
    ensures |Without(pending, j)| + 1 == |pending|
    ensures forall i :: 0 <= i < |Without(pending, j)| ==> Without(pending, j)[i] == pending[if i < j then i else i + 1]
  {
  }

  lemma WindowWithout(pending: seq<Pending>, total: nat, j: nat)
    requires Window(pending, total) && j < |pending|
    ensures Window(Without(pending, j), total)
  {
  }

  lemma IsKeyWithout(pending: seq<Pending>, total: nat, j: nat)
    requires Window(pending, total) && j < |pending|
    ensures forall k :: IsKey(Without(pending, j), k) <==> IsKey(pending, k) && k != Key(pending[j])
  {
    var rest := Without(pending, j);
    WithoutAt(pending, j);
    forall k ensures IsKey(rest, k) <==> IsKey(pending, k) && k != Key(pending[j]) {
      if i :| 0 <= i < |pending| && Key(pending[i]) == k && i != j {
        KeysDiffer(pending, total, i, j);
        assert rest[if i < j then i else i - 1] == pending[i];
      }
    }
  }

  /** Reporting the j-th transfer removes its key and leaves the others. */
  lemma MapReported(table: seq<Entry>, pending: seq<Pending>, total: nat, j: nat)
    requires Window(pending, total) && MapHolds(table, pending) && j < |pending|
    ensures MapHolds(AfterDelete(table, Key(pending[j])), Without(pending, j))
  {
    var rest, key := Without(pending, j), Key(pending[j]);
    WithoutAt(pending, j);
    IsKeyWithout(pending, total, j);
    forall i | 0 <= i < |pending| && i != j ensures Key(pending[i]) != key {
      KeysDiffer(pending, total, i, j);
    }
    hide Window, Slot, Key, AfterDelete, Lookup, Used, Distinct, IsKey, Without;
    DeleteOne(table, key);
  }

  lemma RingWithout(buf: seq<TRB>, pending: seq<Pending>, j: nat)
    requires |buf| == RING_SIZE && RingHolds(buf, pending) && j < |pending|
    ensures RingHolds(buf, Without(pending, j))
  {
  }

  /** Ring and map keep track of the outstanding transfers. */
  ghost predicate Tracks(buf: seq<TRB>, table: seq<Entry>, total: nat, pending: seq<Pending>) {
    |buf| == RING_SIZE && Window(pending, total) && RingHolds(buf, pending) && MapHolds(table, pending)
  }

  /** Issuing a transfer inside the window: it joins the outstanding ones, and all of them stay tracked. */
  lemma IssueTracked(buf: seq<TRB>, buf': seq<TRB>, table: seq<Entry>, total: nat, pending: seq<Pending>, p: Pending)
    requires p.start == total && p.setup.Valid() && (p.buf.Some? ==> p.buf.value.Valid())
    requires Tracks(buf, table, total, pending) && Room(pending, total, |Stages(p.setup, p.buf, p.dirIn)|)
    requires Pushed(buf, buf', Stages(p.setup, p.buf, p.dirIn), total, total + |Stages(p.setup, p.buf, p.dirIn)|)
    ensures Tracks(buf', AfterPut(table, Key(p), Slot(p.start)), total + |Stages(p.setup, p.buf, p.dirIn)|,
      pending + [p])
  {
    hide SetupData.Valid, Buffer.Valid, MapHolds, AfterPut, RingHolds, Room, Pushed, Staged, Stages;
    var stages := Stages(p.setup, p.buf, p.dirIn);
    StagesPushed(buf, buf', p, total);
    RingStillHolds(buf, buf', stages, pending, total);
    WindowJoined(pending, total + |stages|, p);
    MapTakes(table, pending, total + |stages|, p);
    RingJoined(buf', pending, p);
  }

  /** A transfer whose stages have just been pushed is on the ring. */
  lemma StagesPushed(buf: seq<TRB>, buf': seq<TRB>, p: Pending, total: nat)
    requires p.start == total
    requires Pushed(buf, buf', Stages(p.setup, p.buf, p.dirIn), total, total + |Stages(p.setup, p.buf, p.dirIn)|)
    ensures 2 <= |Stages(p.setup, p.buf, p.dirIn)| <= 3 && |buf| == |buf'| == RING_SIZE && Staged(buf', p)
  {
    hide MakeSetupStage, MakeDataStage, MakeStatusStage, TRB.Payload;
    PushedAt(buf, buf', Stages(p.setup, p.buf, p.dirIn), total);
  }

  lemma RingJoined(buf: seq<TRB>, pending: seq<Pending>, p: Pending)
    requires |buf| == RING_SIZE && RingHolds(buf, pending) && Staged(buf, p)
    ensures RingHolds(buf, pending + [p])
  {
    hide Staged;
  }

  /** Reporting a transfer ends it; the others stay tracked. */
  lemma ReportTracked(buf: seq<TRB>, table: seq<Entry>, total: nat, pending: seq<Pending>, j: nat)
    requires Tracks(buf, table, total, pending) && j < |pending|
    ensures Tracks(buf, AfterDelete(table, Key(pending[j])), total, Without(pending, j))
  {
    hide Window, RingHolds, MapHolds;
    MapReported(table, pending, total, j);
    RingWithout(buf, pending, j);
    WindowWithout(pending, total, j);
  }
}
