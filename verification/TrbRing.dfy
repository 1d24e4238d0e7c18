/**
 * A ring of TRBs shared by a producer and a consumer that synchronise only through the cycle
 * bit (sections 4.9.2 to 4.9.4 of the xHCI specification). One step is one dword read or written, and
 * the two sides' steps interleave freely. With `hasLink` the last slot holds a Link TRB, as in
 * the driver's command and transfer rings; without it the ring is an event ring.
 */
module TrbRing {

  const LINK_TYPE := 6

  /** Four dwords. Bit 0 of the last is the cycle bit, bits 10 to 15 are the TRB type. */
  datatype TRB = TRB(d0: nat, d1: nat, d2: nat, d3: nat) {
    predicate Cycle() {
      d3 % 2 == 1
    }

    function Type(): nat {
      d3 / 1024 % 64
    }

    /** The TRB as its sender meant it: without the cycle bit. */
    function Payload(): TRB {
      this.(d3 := d3 - d3 % 2)
    }

    function WithDword(i: nat, v: nat): TRB {
      if i == 0 then this.(d0 := v) else if i == 1 then this.(d1 := v) else if i == 2 then this.(d2 := v)
        else this.(d3 := v)
    }

    function Dword(i: nat): nat {
      if i == 0 then d0 else if i == 1 then d1 else if i == 2 then d2 else d3
    }
  }

  const ZERO_TRB := TRB(0, 0, 0, 0)

  /** `(d3 & 0xfffffffe) | cycle` */
  function Stamp(d3: nat, cycle: bool): nat {
    d3 - d3 % 2 + if cycle then 1 else 0
  }

  /**
   * A Link TRB to address `base`, of which the pointer field has all but the low four bits, with
   * the toggle-cycle bit set.
   */
  function LinkTo(base: nat): TRB {
    var pointer := base / 16;
    TRB(16 * (pointer % 0x1000_0000), pointer / 0x1000_0000, 0, LINK_TYPE * 1024 + 2)
  }

  /**
   * How a consumer reads a Link TRB (section 6.4.4.1 of the xHCI specification): bits 4 to 63 point
   * to the next TRB, and bit 1 of the last dword tells it to toggle its cycle bit.
   */
  function LinkTarget(link: TRB): nat {
    link.d0 - link.d0 % 16 + 0x1_0000_0000 * link.d1
  }

  predicate LinkToggles(link: TRB) {
    link.d3 / 2 % 2 == 1
  }

  /** The slot at an address in a ring of n TRBs, 16 bytes each, or n if the address is not one of the ring's. */
  function SlotAt(base: nat, n: nat, address: nat): nat {
    if base <= address < base + 16 * n && (address - base) % 16 == 0 then (address - base) / 16 else n
  }

  /** The stores a producer still has to make: dwords `next` to 3 of `trb` at the write index. */
  datatype Job = Idle | Storing(trb: TRB, next: nat)

  /** What a consumer has read of the slot at its dequeue index: the last dword first, then the others. */
  datatype Fetch = NotFetching | Fetching(got: TRB, next: nat)

  datatype State = State(
    hasLink: bool, base: nat,
    buf: seq<TRB>,
    writeIndex: nat, cycle: bool, job: Job,
    dequeue: nat, consumerCycle: bool, fetch: Fetch,
    // history: TRBs fully written, TRBs taken, and the slots written but not yet taken
    pushed: seq<TRB>, consumed: seq<TRB>, queue: seq<TRB>)

  function InitialState(hasLink: bool, base: nat, size: nat): State {
    State(hasLink, base, seq(size, _ => ZERO_TRB), 0, true, Idle, 0, true, NotFetching, [], [], [])
  }

  datatype Step = StartPush(trb: TRB) | StoreDword | Poll | FetchDword | Finish

  /** The slots that the next push fills: two when it also places the Link TRB. */
  function Needed(hasLink: bool, size: nat, writeIndex: nat): nat {
    if hasLink && writeIndex + 2 == size then 2 else 1
  }

  /** A producer starts only with room; with at most size - 2 slots waiting, Links included, there always is. */
  predicate CanStart(s: State, trb: TRB) {
    && s.job.Idle? && |s.queue| + Needed(s.hasLink, |s.buf|, s.writeIndex) <= |s.buf|
    && (s.hasLink ==> trb.Type() != LINK_TYPE)
  }

  predicate Enabled(s: State, step: Step) {
    match step
    case StartPush(trb) => CanStart(s, trb)
    case StoreDword => s.job.Storing? && s.writeIndex < |s.buf|
    case Poll => s.fetch.NotFetching? && s.dequeue < |s.buf|
    case FetchDword => s.fetch.Fetching? && s.fetch.next < 3 && s.dequeue < |s.buf|
    case Finish => s.fetch.Fetching? && s.fetch.next == 3
  }

  function AfterStore(s: State): State
    requires s.job.Storing? && s.writeIndex < |s.buf|
  {
    var t, i := s.job.trb, s.job.next;
    if i < 3 then
      s.(buf := s.buf[s.writeIndex := s.buf[s.writeIndex].WithDword(i, t.Dword(i))], job := Storing(t, i + 1))
    else
      var buf := s.buf[s.writeIndex := s.buf[s.writeIndex].WithDword(3, Stamp(t.d3, s.cycle))];
      var isLink := s.hasLink && s.writeIndex == |s.buf| - 1;
      var wraps := s.writeIndex == |s.buf| - 1;
      var w := if wraps then 0 else s.writeIndex + 1;
      s.(buf := buf, writeIndex := w, cycle := if wraps then !s.cycle else s.cycle,
         job := if s.hasLink && w == |s.buf| - 1 then Storing(LinkTo(s.base), 0) else Idle,
         pushed := if isLink then s.pushed else s.pushed + [t.Payload()],
         queue := s.queue + [t.Payload()])
  }

  /** The consumer is done with a slot. It goes where a Link TRB points, or wraps at the end of a ring without one. */
  function AfterFinish(s: State): State
    requires s.fetch.Fetching?
  {
    var t := s.fetch.got;
    var isLink := s.hasLink && t.Type() == LINK_TYPE;
    var wraps := !s.hasLink && s.dequeue + 1 == |s.buf|;
    s.(dequeue := if isLink then SlotAt(s.base, |s.buf|, LinkTarget(t)) else if wraps then 0 else s.dequeue + 1,
       consumerCycle := if wraps || (isLink && LinkToggles(t)) then !s.consumerCycle else s.consumerCycle,
       fetch := NotFetching,
       consumed := if isLink then s.consumed else s.consumed + [t.Payload()],
       queue := if s.queue == [] then [] else s.queue[1..])
  }

  function Next(s: State, step: Step): State
    requires Enabled(s, step)
  {
    match step
    case StartPush(trb) => s.(job := Storing(trb, 0))
    case StoreDword => AfterStore(s)
    case Poll =>
      if s.buf[s.dequeue].Cycle() == s.consumerCycle
        then s.(fetch := Fetching(ZERO_TRB.(d3 := s.buf[s.dequeue].d3), 0)) else s
    case FetchDword =>
      s.(fetch := Fetching(s.fetch.got.WithDword(s.fetch.next, s.buf[s.dequeue].Dword(s.fetch.next)), s.fetch.next + 1))
    case Finish => AfterFinish(s)
  }

  // Slots are numbered from the dequeue index d on, in a ring of n slots: slot k lies at
  // Pos(d, n, k) and is written, in its next or current lap, with cycle bit Phase(d, n, c, k).

  function Pos(d: nat, n: nat, k: nat): nat {
    if d + k < n then d + k else d + k - n
  }

  predicate Phase(d: nat, n: nat, c: bool, k: nat) {
    if d + k < n then c else !c
  }

  /** Waiting slots hold their TRB; every other slot has the wrong cycle bit for the consumer. */
  ghost predicate MemoryMatches(buf: seq<TRB>, queue: seq<TRB>, d: nat, c: bool, hasLink: bool)
    requires d < |buf| && |queue| <= |buf|
  {
    && (forall k: nat :: k < |queue| ==>
          buf[Pos(d, |buf|, k)].Payload() == queue[k] && buf[Pos(d, |buf|, k)].Cycle() == Phase(d, |buf|, c, k)
          && (hasLink ==> (queue[k].Type() == LINK_TYPE <==> Pos(d, |buf|, k) == |buf| - 1)))
    && (forall k: nat :: |queue| <= k < |buf| ==> buf[Pos(d, |buf|, k)].Cycle() != Phase(d, |buf|, c, k))
  }

  /** The write position follows the last waiting slot, and a store in progress has room. */
  ghost predicate ProducerMatches(s: State)
    requires s.dequeue < |s.buf| && |s.queue| <= |s.buf|
  {
    && s.writeIndex == Pos(s.dequeue, |s.buf|, |s.queue|)
    && s.cycle == Phase(s.dequeue, |s.buf|, s.consumerCycle, |s.queue|)
    && (s.hasLink ==> (s.writeIndex == |s.buf| - 1 <==> s.job.Storing? && s.job.trb.Type() == LINK_TYPE))
    && (s.hasLink && s.job.Storing? && s.job.trb.Type() == LINK_TYPE ==> s.job.trb == LinkTo(s.base))
    && (s.job.Storing? ==>
          && s.job.next <= 3 && s.writeIndex < |s.buf|
          && |s.queue| + Needed(s.hasLink, |s.buf|, s.writeIndex) <= |s.buf|
          && forall i: nat :: i < s.job.next ==> s.buf[s.writeIndex].Dword(i) == s.job.trb.Dword(i))
  }

  /** What the consumer has read so far belongs to the oldest waiting slot. */
  ghost predicate ConsumerMatches(s: State)
    requires s.dequeue < |s.buf|
  {
    s.fetch.Fetching? ==>
      && s.queue != [] && s.fetch.next <= 3 && s.fetch.got.d3 == s.buf[s.dequeue].d3
      && forall i: nat :: i < s.fetch.next ==> s.fetch.got.Dword(i) == s.buf[s.dequeue].Dword(i)
  }

  /** What a slot brings the consumer: nothing, if it holds a Link TRB. */
  function Datum(hasLink: bool, t: TRB): seq<TRB> {
    if hasLink && t.Type() == LINK_TYPE then [] else [t]
  }

  /** The queue without the Link TRBs that only steer the consumer. */
  function Data(hasLink: bool, q: seq<TRB>): seq<TRB> {
    if q == [] then [] else Datum(hasLink, q[0]) + Data(hasLink, q[1..])
  }

  /** Every waiting Link TRB is one to the ring's own start. */
  ghost predicate LinksLead(queue: seq<TRB>, base: nat) {
    forall k :: 0 <= k < |queue| && queue[k].Type() == LINK_TYPE ==> queue[k] == LinkTo(base).Payload()
  }

  ghost predicate Inv(s: State) {
    && s.base % 16 == 0 && (s.hasLink ==> LinksLead(s.queue, s.base))
    && s.dequeue < |s.buf| && |s.queue| <= |s.buf| && |s.buf| >= 2
    && MemoryMatches(s.buf, s.queue, s.dequeue, s.consumerCycle, s.hasLink) && ProducerMatches(s) && ConsumerMatches(s)
    && s.consumed + Data(s.hasLink, s.queue) == s.pushed
  }
}

/** The invariant of the shared ring over every interleaving, and what follows from it. */
module TrbRingProofs {
  import opened TrbRing

  lemma PayloadType(t: TRB)
    ensures t.Payload().Type() == t.Type() && t.Payload().Payload() == t.Payload()
  {
    var h := t.d3 / 2;
    assert t.d3 - t.d3 % 2 == 2 * h && (2 * h) / 1024 == h / 512 && t.d3 / 1024 == h / 512;
    assert (2 * h) % 2 == 0;
  }

  lemma StampFacts(t: TRB, c: bool)
    ensures t.(d3 := Stamp(t.d3, c)).Payload() == t.Payload() && (t.(d3 := Stamp(t.d3, c)).Cycle() <==> c)
  {
  }

  lemma InitialInv(hasLink: bool, base: nat, size: nat)
    requires size >= 2 && base % 16 == 0
    ensures Inv(InitialState(hasLink, base, size))
  {
  }

  lemma StartInv(s: State, trb: TRB)
    requires Inv(s) && Enabled(s, StartPush(trb))
    ensures Inv(Next(s, StartPush(trb)))
  {
  }

  /** The producer writes a slot the consumer does not look at. */
  lemma WriteSlotFree(s: State)
    requires Inv(s) && s.job.Storing?
    ensures s.writeIndex < |s.buf| && |s.queue| < |s.buf|
    ensures forall k: nat :: k < |s.buf| && k != |s.queue| ==> Pos(s.dequeue, |s.buf|, k) != s.writeIndex
    ensures s.queue != [] ==> s.writeIndex != s.dequeue
  {
  }

  /** A dword store that leaves the cycle bit alone changes nothing for the waiting slots. */
  lemma DwordMemory(s: State)
    requires Inv(s) && s.job.Storing? && s.job.next < 3 && s.writeIndex < |s.buf|
    ensures MemoryMatches(Next(s, StoreDword).buf, s.queue, s.dequeue, s.consumerCycle, s.hasLink)
  {
    hide Data;
    WriteSlotFree(s);
  }

  lemma DwordInv(s: State)
    requires Inv(s) && s.job.Storing? && s.job.next < 3
    ensures s.writeIndex < |s.buf| && Inv(Next(s, StoreDword))
  {
    hide MemoryMatches, Data;
    WriteSlotFree(s);
    DwordMemory(s);
  }

  lemma {:induction false} DataAppend(hasLink: bool, q: seq<TRB>, t: TRB)
    ensures Data(hasLink, q + [t]) == Data(hasLink, q) + Datum(hasLink, t)
  {
    hide Datum;
    if q != [] {
      DataAppend(hasLink, q[1..], t);
      assert (q + [t])[1..] == q[1..] + [t];
    }
  }

  /** The last dword completes the slot: the TRB with the producer's cycle bit. */
  lemma StoredSlot(s: State)
    requires Inv(s) && s.job.Storing? && s.job.next == 3 && s.writeIndex < |s.buf|
    ensures Next(s, StoreDword).buf == s.buf[s.writeIndex := s.job.trb.(d3 := Stamp(s.job.trb.d3, s.cycle))]
  {
    hide MemoryMatches, Data;
    var t, slot := s.job.trb, s.buf[s.writeIndex];
    assert slot.Dword(0) == t.Dword(0) && slot.Dword(1) == t.Dword(1) && slot.Dword(2) == t.Dword(2);
    assert Next(s, StoreDword).buf[s.writeIndex] == t.(d3 := Stamp(t.d3, s.cycle));
  }

  /** Storing the last dword, with the cycle bit, hands the slot over. */
  lemma HandOverMemory(s: State)
    requires Inv(s) && s.job.Storing? && s.job.next == 3 && s.writeIndex < |s.buf|
    ensures var s' := Next(s, StoreDword);
            |s'.queue| <= |s'.buf| && MemoryMatches(s'.buf, s'.queue, s.dequeue, s.consumerCycle, s.hasLink)
  {
    WriteSlotFree(s);
    StoredSlot(s);
    StampFacts(s.job.trb, s.cycle);
    PayloadType(s.job.trb);
    hide Data, TRB.Type, TRB.Payload, TRB.Cycle, Stamp, ConsumerMatches, TRB.WithDword, TRB.Dword;
  }

  /** The write position after the slot is handed over; at the Link slot the Link TRB comes next. */
  lemma HandOverProducer(s: State)
    requires Inv(s) && s.job.Storing? && s.job.next == 3 && s.writeIndex < |s.buf| && |s.queue| < |s.buf|
    ensures var s' := Next(s, StoreDword);
            s'.dequeue == s.dequeue && |s'.queue| <= |s'.buf| == |s.buf| && ProducerMatches(s')
  {
    hide MemoryMatches, ConsumerMatches, Data, TRB.Type, TRB.Payload, LinkTo, Stamp;
    LinkType(s.base);
  }

  lemma HandOverHistory(s: State)
    requires Inv(s) && s.job.Storing? && s.job.next == 3 && s.writeIndex < |s.buf|
    ensures var s' := Next(s, StoreDword); s'.consumed + Data(s'.hasLink, s'.queue) == s'.pushed
  {
    hide MemoryMatches, ConsumerMatches, Data, TRB.Type, TRB.Payload, LinkTo, Stamp;
    var t := s.job.trb;
    PayloadType(t);
    DataAppend(s.hasLink, s.queue, t.Payload());
  }

  /** A Link TRB handed over leads to the ring's start. */
  lemma HandOverLinks(s: State)
    requires Inv(s) && s.hasLink && s.job.Storing? && s.job.next == 3 && s.writeIndex < |s.buf|
    ensures LinksLead(Next(s, StoreDword).queue, s.base)
  {
    hide MemoryMatches, ConsumerMatches, Data, TRB.Type, TRB.Payload, LinkTo, Stamp;
    PayloadType(s.job.trb);
  }

  lemma HandOverInv(s: State)
    requires Inv(s) && s.job.Storing? && s.job.next == 3
    ensures s.writeIndex < |s.buf| && Inv(Next(s, StoreDword))
  {
    WriteSlotFree(s);
    HandOverMemory(s);
    HandOverProducer(s);
    HandOverHistory(s);
    if s.hasLink {
      HandOverLinks(s);
    }
    hide MemoryMatches, ProducerMatches, Data, LinksLead, TRB.Type, TRB.Payload, LinkTo, Stamp;
  }

  lemma LinkType(base: nat)
    ensures LinkTo(base).Type() == LINK_TYPE
  {
  }

  /**
   * A Link TRB to the ring's start, as the consumer reads it, leads there and toggles the cycle
   * bit, whatever its own cycle bit.
   */
  lemma LinkLeadsBack(link: TRB, base: nat, n: nat)
    requires link.Payload() == LinkTo(base).Payload() && base % 16 == 0 && n > 0
    ensures SlotAt(base, n, LinkTarget(link)) == 0 && LinkTarget(link) == base && LinkToggles(link)
  {
    var pointer := base / 16;
    assert link.d0 == 16 * (pointer % 0x1000_0000) && link.d1 == pointer / 0x1000_0000;
    assert link.d3 / 2 == (LINK_TYPE * 1024 + 2) / 2;
  }

  /** The address of a ring below 2^64 fits into the two dwords. */
  lemma LinkFits(base: nat)
    requires base < 0x1_0000_0000_0000_0000
    ensures LinkTo(base).d0 < 0x1_0000_0000 && LinkTo(base).d1 < 0x1_0000_0000
  {
  }

  /** The cycle test succeeds exactly when a complete TRB is waiting: no stale or half-written slot passes it. */
  lemma PollExact(s: State)
    requires Inv(s)
    ensures s.buf[s.dequeue].Cycle() == s.consumerCycle <==> s.queue != []
  {
  }

  lemma ReadInv(s: State, step: Step)
    requires Inv(s) && Enabled(s, step) && (step.Poll? || step.FetchDword?)
    ensures Inv(Next(s, step))
  {
  }

  /** A finished read delivers the oldest waiting TRB, unchanged. */
  lemma FinishDelivers(s: State)
    requires Inv(s) && Enabled(s, Finish)
    ensures s.queue != [] && s.fetch.got == s.buf[s.dequeue] && s.fetch.got.Payload() == s.queue[0]
    ensures s.hasLink ==> (s.fetch.got.Type() == LINK_TYPE <==> s.dequeue == |s.buf| - 1)
  {
    assert Pos(s.dequeue, |s.buf|, 0) == s.dequeue;
    var got, slot := s.fetch.got, s.buf[s.dequeue];
    assert got.Dword(0) == slot.Dword(0) && got.Dword(1) == slot.Dword(1) && got.Dword(2) == slot.Dword(2);
    PayloadType(got);
  }

  /** Seen from the next slot, every slot moves one place nearer; the slot just read becomes the last free one. */
  lemma NextSlotMemory(buf: seq<TRB>, queue: seq<TRB>, d: nat, c: bool, hasLink: bool, d': nat, c': bool)
    requires d < |buf| && |queue| <= |buf| && queue != [] && MemoryMatches(buf, queue, d, c, hasLink)
    requires d' == (if d + 1 == |buf| then 0 else d + 1) && c' == if d + 1 == |buf| then !c else c
    ensures MemoryMatches(buf, queue[1..], d', c', hasLink)
  {
    var n := |buf|;
    forall k: nat | k < n - 1
      ensures Pos(d', n, k) == Pos(d, n, k + 1) && (Phase(d', n, c', k) <==> Phase(d, n, c, k + 1))
    {
    }
    forall k: nat | k < |queue[1..]|
      ensures buf[Pos(d', n, k)].Payload() == queue[1..][k] && buf[Pos(d', n, k)].Cycle() == Phase(d', n, c', k)
      ensures hasLink ==> (queue[1..][k].Type() == LINK_TYPE <==> Pos(d', n, k) == n - 1)
    {
      assert queue[1..][k] == queue[k + 1] && Pos(d', n, k) == Pos(d, n, k + 1);
    }
    forall k: nat | |queue[1..]| <= k < n
      ensures buf[Pos(d', n, k)].Cycle() != Phase(d', n, c', k)
    {
      if k == n - 1 {
        assert Pos(d', n, k) == d && Pos(d, n, 0) == d;
      } else {
        assert Pos(d', n, k) == Pos(d, n, k + 1);
      }
    }
  }

  /** The write position, seen from the next dequeue index. */
  lemma FinishProducer(s: State)
    requires Inv(s) && Enabled(s, Finish)
    requires s.queue != [] && (s.hasLink ==> (s.fetch.got.Type() == LINK_TYPE <==> s.dequeue == |s.buf| - 1))
    requires s.hasLink && s.fetch.got.Type() == LINK_TYPE ==>
      SlotAt(s.base, |s.buf|, LinkTarget(s.fetch.got)) == 0 && LinkToggles(s.fetch.got)
    ensures var s' := Next(s, Finish);
            && s'.dequeue == (if s.dequeue + 1 == |s.buf| then 0 else s.dequeue + 1)
            && s'.consumerCycle == (if s.dequeue + 1 == |s.buf| then !s.consumerCycle else s.consumerCycle)
            && s'.queue == s.queue[1..] && ProducerMatches(s')
  {
    hide MemoryMatches, ConsumerMatches, Data, TRB.Type, TRB.Payload, SlotAt, LinkTarget, LinkToggles, LinkTo;
  }

  /** The Link TRB that the consumer has read. */
  lemma FinishLink(s: State)
    requires Inv(s) && Enabled(s, Finish) && s.hasLink && s.fetch.got.Type() == LINK_TYPE
    ensures SlotAt(s.base, |s.buf|, LinkTarget(s.fetch.got)) == 0 && LinkToggles(s.fetch.got)
    ensures s.queue != [] && LinksLead(s.queue[1..], s.base)
  {
    FinishDelivers(s);
    PayloadType(s.fetch.got);
    hide MemoryMatches, ProducerMatches, ConsumerMatches, TRB.Type, TRB.Payload, LinkTo;
    LinkLeadsBack(s.fetch.got, s.base, |s.buf|);
  }

  /** Moving the head of the queue to what is consumed keeps the two together. */
  lemma HistoryMoves(consumed: seq<TRB>, queue: seq<TRB>, hasLink: bool)
    requires queue != []
    ensures (consumed + Datum(hasLink, queue[0])) + Data(hasLink, queue[1..]) == consumed + Data(hasLink, queue)
  {
    hide Datum;
  }

  lemma FinishHistory(s: State)
    requires Inv(s) && Enabled(s, Finish)
    ensures s.queue != [] && Next(s, Finish).consumed + Data(s.hasLink, s.queue[1..]) == s.pushed
  {
    hide MemoryMatches, ProducerMatches, ConsumerMatches, TRB.Type, TRB.Payload, Data;
    FinishDelivers(s);
    PayloadType(s.fetch.got);
    HistoryMoves(s.consumed, s.queue, s.hasLink);
  }

  lemma FinishInv(s: State)
    requires Inv(s) && Enabled(s, Finish)
    ensures Inv(Next(s, Finish))
  {
    FinishDelivers(s);
    if s.hasLink && s.fetch.got.Type() == LINK_TYPE {
      FinishLink(s);
    }
    FinishProducer(s);
    FinishHistory(s);
    hide MemoryMatches, ProducerMatches, Data, TRB.Type, TRB.Payload, SlotAt, LinkTarget, LinkToggles, LinkTo;
    var s' := Next(s, Finish);
    NextSlotMemory(s.buf, s.queue, s.dequeue, s.consumerCycle, s.hasLink, s'.dequeue, s'.consumerCycle);
  }

  lemma NextInv(s: State, step: Step)
    requires Inv(s) && Enabled(s, step)
    ensures Inv(Next(s, step))
  {
    hide MemoryMatches, ProducerMatches, ConsumerMatches, Data;
    match step
    case StartPush(trb) => StartInv(s, trb);
    case StoreDword => StoreInv(s);
    case Poll => ReadInv(s, step);
    case FetchDword => ReadInv(s, step);
    case Finish => FinishInv(s);
  }

  lemma StoreInv(s: State)
    requires Inv(s) && Enabled(s, StoreDword)
    ensures Inv(Next(s, StoreDword))
  {
    hide MemoryMatches, Data;
    if s.job.next < 3 {
      DwordInv(s);
    } else {
      HandOverInv(s);
    }
  }

  ghost predicate IsRun(states: seq<State>, steps: seq<Step>) {
    && |states| == |steps| + 1
    && forall i :: 0 <= i < |steps| ==> Enabled(states[i], steps[i]) && states[i + 1] == Next(states[i], steps[i])
  }

  /** Whatever the interleaving, the consumer has taken the pushed TRBs in order, each once, and the rest is waiting. */
  lemma {:induction false} RunRefinesFifo(states: seq<State>, steps: seq<Step>, k: nat, hasLink: bool, base: nat,
      size: nat)
    requires IsRun(states, steps) && size >= 2 && base % 16 == 0 && k < |states|
    requires states[0] == InitialState(hasLink, base, size)
    ensures Inv(states[k]) && states[k].consumed + Data(states[k].hasLink, states[k].queue) == states[k].pushed
  {
    if k == 0 {
      InitialInv(hasLink, base, size);
    } else {
      RunRefinesFifo(states, steps, k - 1, hasLink, base, size);
      NextInv(states[k - 1], steps[k - 1]);
    }
  }

  ghost predicate Waiting(s: State, slot: nat) {
    exists k: nat :: k < |s.queue| && Pos(s.dequeue, |s.buf|, k) == slot
  }

  /** Pushing is safe exactly when there is room: otherwise it overwrites a slot that is still waiting. */
  lemma RoomExact(s: State)
    requires Inv(s) && s.job.Idle?
    ensures |s.queue| + Needed(s.hasLink, |s.buf|, s.writeIndex) <= |s.buf| <==>
      !Waiting(s, s.writeIndex) && (Needed(s.hasLink, |s.buf|, s.writeIndex) == 2 ==> !Waiting(s, s.writeIndex + 1))
  {
  }

  /** What Push makes of the memory and the producer's two fields, all stores taken together. */
  function AfterPush(buf: seq<TRB>, writeIndex: nat, cycle: bool, base: nat, trb: TRB): (r: (seq<TRB>, nat, bool))
    requires |buf| >= 2 && writeIndex + 1 < |buf|
    ensures |r.0| == |buf| && r.1 + 1 < |buf|
  {
    var buf1 := buf[writeIndex := trb.(d3 := Stamp(trb.d3, cycle))];
    if writeIndex + 2 == |buf| then
      var link := LinkTo(base);
      (buf1[writeIndex + 1 := link.(d3 := Stamp(link.d3, cycle))], 0, !cycle)
    else (buf1, writeIndex + 1, cycle)
  }
}
