/**
 * The TRBs of a transfer as the controller reads them (sections 6.4.1.1 and 6.4.1.2 of the xHCI
 * specification), and what a request puts on the bus.
 */
module ControlStages {
  import opened Common
  import opened ControlTransfer
  import opened TrbRing

  datatype Stage =
    | Setup(packet: seq<nat>, length: nat, immediate: bool, transferType: nat, interrupts: bool)
    | Data(address: nat, length: nat, dirIn: bool, interrupts: bool)
    | Status(dirIn: bool, interrupts: bool)
    | Normal(address: nat, length: nat, interruptsOnShort: bool, interrupts: bool)
    | Unknown
  {
    predicate AsksInterrupt() {
      match this
      case Setup(_, _, _, _, interrupts) => interrupts
      case Data(_, _, _, interrupts) => interrupts
      case Status(_, interrupts) => interrupts
      case Normal(_, _, _, interrupts) => interrupts
      case Unknown => false
    }
  }

  predicate Bit(d: nat, weight: nat)
    requires weight > 0
  {
    d / weight % 2 == 1
  }

  /** The four bytes of a dword as they go over the bus. */
  function Bytes(d: nat): seq<nat> {
    [d % 0x100, d / 0x100 % 0x100, d / 0x1_0000 % 0x100, d / 0x100_0000 % 0x100]
  }

  function ReadStage(t: TRB): Stage {
    var kind, pointer, length, ioc := t.d3 / 0x400 % 0x40, t.d0 + 0x1_0000_0000 * t.d1, t.d2 % 0x2_0000,
      Bit(t.d3, 0x20);
    if kind == 1 then Normal(pointer, length, Bit(t.d3, 0x4), ioc)
    else if kind == 2 then Setup(Bytes(t.d0) + Bytes(t.d1), length, Bit(t.d3, 0x40), t.d3 / 0x1_0000 % 4, ioc)
    else if kind == 3 then Data(pointer, length, Bit(t.d3, 0x1_0000), ioc)
    else if kind == 4 then Status(Bit(t.d3, 0x1_0000), ioc)
    else Unknown
  }

  /** A setup packet on the bus: its eight bytes (section 9.3 of the USB 2.0 specification). */
  function Packet(s: SetupData): seq<nat> {
    [s.requestType, s.request, s.value % 0x100, s.value / 0x100, s.index % 0x100, s.index / 0x100,
     s.length % 0x100, s.length / 0x100]
  }

  /**
   * What a control transfer must put on the bus: the packet, with 3, 2 or 0 for data in, data out or
   * no data; the data in the direction asked for; the status in the other one, or in without data.
   */
  function Wanted(setup: SetupData, buf: Option<Buffer>, dirIn: bool): seq<Stage> {
    match buf
    case Some(b) =>
      [Setup(Packet(setup), 8, true, if dirIn then 3 else 2, false),
       Data(b.address, b.len % 0x2_0000, dirIn, true), Status(!dirIn, false)]
    case None => [Setup(Packet(setup), 8, true, 0, false), Status(true, true)]
  }

  /** The cycle bit plays no part. */
  lemma SameStage(t: TRB, u: TRB)
    requires t.Payload() == u.Payload()
    ensures ReadStage(t) == ReadStage(u)
  {
    assert t.d3 / 2 == u.d3 / 2;
    HalfKnows(t.d3);
    HalfKnows(u.d3);
  }

  lemma HalfKnows(d: nat)
    ensures d / 0x4 == d / 2 / 0x2 && d / 0x20 == d / 2 / 0x10 && d / 0x40 == d / 2 / 0x20
    ensures d / 0x400 == d / 2 / 0x200 && d / 0x1_0000 == d / 2 / 0x8000
  {
  }

  lemma LowByte(a: nat, q: nat)
    requires a < 0x100
    ensures (a + 0x100 * q) % 0x100 == a && (a + 0x100 * q) / 0x100 == q
  {
  }

  lemma ByteByByte(d: nat)
    ensures d / 0x1_0000 == d / 0x100 / 0x100 && d / 0x100_0000 == d / 0x100 / 0x100 / 0x100
  {
  }

  /** Two 16-bit fields of a dword, as bytes. */
  lemma BytesOfHalves(lo: nat, hi: nat)
    requires lo < 0x1_0000 && hi < 0x1_0000
    ensures Bytes(lo + 0x1_0000 * hi) == [lo % 0x100, lo / 0x100, hi % 0x100, hi / 0x100]
  {
    var d, b, c := lo + 0x1_0000 * hi, lo / 0x100, hi % 0x100;
    ByteByByte(d);
    assert d == lo % 0x100 + 0x100 * (b + 0x100 * hi);
    LowByte(lo % 0x100, b + 0x100 * hi);
    LowByte(b, hi);
  }

  lemma SetupFlags(transferType: nat)
    requires transferType < 4
    ensures var d := 64 + SETUP_TYPE * 1024 + 0x10000 * transferType;
            d / 0x400 % 0x40 == 2 && Bit(d, 0x40) && d / 0x1_0000 % 4 == transferType && !Bit(d, 0x20)
  {
  }

  lemma PacketRead(s: SetupData, transferType: nat)
    requires s.Valid() && transferType < 4
    ensures ReadStage(MakeSetupStage(s, transferType)) == Setup(Packet(s), 8, true, transferType, false)
  {
    hide ReadStage;
    var lo := s.requestType + 0x100 * s.request;
    TwoBytes(s.requestType, s.request);
    BytesOfHalves(lo, s.value);
    BytesOfHalves(s.index, s.length);
    hide Bytes, Bit;
    var t, d3 := MakeSetupStage(s, transferType), 64 + SETUP_TYPE * 1024 + 0x10000 * transferType;
    assert t == TRB(lo + 0x1_0000 * s.value, s.index + 0x1_0000 * s.length, 8, d3);
    assert Bytes(t.d0) + Bytes(t.d1) == Packet(s);
    SetupStageRead(t, transferType);
  }

  lemma SetupStageRead(t: TRB, transferType: nat)
    requires transferType < 4 && t.d2 == 8 && t.d3 == 64 + SETUP_TYPE * 1024 + 0x10000 * transferType
    ensures ReadStage(t) == Setup(Bytes(t.d0) + Bytes(t.d1), 8, true, transferType, false)
  {
    SetupFlags(transferType);
    hide Bytes, Bit;
  }

  lemma TwoBytes(a: nat, b: nat)
    requires a < 0x100 && b < 0x100
    ensures (a + 0x100 * b) % 0x100 == a && (a + 0x100 * b) / 0x100 == b && a + 0x100 * b < 0x1_0000
  {
  }

  lemma DataRead(b: Buffer, dirIn: bool)
    requires b.Valid()
    ensures ReadStage(MakeDataStage(b, dirIn)) == Data(b.address, b.len % 0x2_0000, dirIn, true)
  {
  }

  lemma StatusRead(dirIn: bool, ioc: bool)
    ensures ReadStage(MakeStatusStage(dirIn, ioc)) == Status(dirIn, ioc)
  {
  }

  /** The stages of a request read as what is wanted, for every request. */
  lemma StagesRead(setup: SetupData, buf: Option<Buffer>, dirIn: bool)
    requires setup.Valid() && (buf.Some? ==> buf.value.Valid())
    ensures |Stages(setup, buf, dirIn)| == |Wanted(setup, buf, dirIn)|
    ensures forall n :: 0 <= n < |Wanted(setup, buf, dirIn)| ==>
              ReadStage(Stages(setup, buf, dirIn)[n]) == Wanted(setup, buf, dirIn)[n]
  {
    hide ReadStage, MakeSetupStage, MakeDataStage, MakeStatusStage, Packet;
    PacketRead(setup, if buf.None? then 0 else if dirIn then 3 else 2);
    match buf {
      case Some(b) =>
        DataRead(b, dirIn);
        StatusRead(!dirIn, false);
      case None => StatusRead(true, true);
    }
  }

  /** Of the stages from the start-th TRB on, exactly those in one slot ask for an interrupt. */
  predicate InterruptsAt(wanted: seq<Stage>, start: nat, slot: nat) {
    forall n :: 0 <= n < |wanted| ==> (wanted[n].AsksInterrupt() <==> Slot(start + n) == slot)
  }

  /** The stage that asks for an interrupt is the second one. */
  lemma OneInterrupt(setup: SetupData, buf: Option<Buffer>, dirIn: bool, start: nat)
    ensures InterruptsAt(Wanted(setup, buf, dirIn), start, Slot(start + 1))
  {
    SlotsDiffer(start, start + 1);
    SlotsDiffer(start + 2, start + 1);
  }

  /** From the ring slot of the start-th TRB on, the controller reads what is wanted. */
  ghost predicate OnBus(buf: seq<TRB>, start: nat, wanted: seq<Stage>)
    requires |buf| == RING_SIZE
  {
    forall n :: 0 <= n < |wanted| ==> ReadStage(buf[Slot(start + n)]) == wanted[n]
  }

  lemma PushedOnBus(before: seq<TRB>, after: seq<TRB>, setup: SetupData, buf: Option<Buffer>, dirIn: bool, start: nat,
      total: nat)
    requires Pushed(before, after, Stages(setup, buf, dirIn), start, total)
    requires setup.Valid() && (buf.Some? ==> buf.value.Valid())
    ensures |after| == RING_SIZE && OnBus(after, start, Wanted(setup, buf, dirIn))
  {
    hide ReadStage, TRB.Payload, Stages, Wanted, SetupData.Valid, Buffer.Valid;
    StagesRead(setup, buf, dirIn);
    var stages, wanted := Stages(setup, buf, dirIn), Wanted(setup, buf, dirIn);
    forall n | 0 <= n < |wanted| ensures ReadStage(after[Slot(start + n)]) == wanted[n] {
      assert after[Slot(start + n)].Payload() == stages[start + n - start].Payload();
      SameStage(after[Slot(start + n)], stages[n]);
    }
  }

  /** The Normal TRB of an interrupt transfer, which asks for an interrupt also on a short packet. */
  function MakeNormal(b: Buffer): TRB {
    TRB(b.address % 0x1_0000_0000, b.address / 0x1_0000_0000, b.len % 0x20000, NORMAL_TYPE * 1024 + IOC + 4)
  }

  lemma NormalRead(b: Buffer, t: TRB)
    requires b.Valid() && t.Payload() == MakeNormal(b).Payload()
    ensures ReadStage(t) == Normal(b.address, b.len % 0x2_0000, true, true)
  {
    SameStage(t, MakeNormal(b));
  }
}
