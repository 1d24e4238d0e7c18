/** The driver's two ends of TRB rings (Kernel/usb/xhci/ring.cpp, Kernel/usb/xhci/ring.hpp). */
module RingDriver {
  import opened Common
  import opened TrbRing
  import opened TrbRingProofs

  /** A command or transfer ring: the driver produces. */
  class Ring {
    const buf: array<TRB>
    const base: nat  // the address of the ring, which the Link TRB points to
    var writeIndex: nat
    var cycleBit: bool

    ghost predicate Valid()
      reads this
    {
      buf.Length >= 2 && writeIndex + 1 < buf.Length && base % 16 == 0
    }

    /** The allocator aligns the ring to 64 bytes. */
    constructor Initialize(bufSize: nat, base: nat)
      requires bufSize >= 2 && base % 64 == 0
      ensures Valid() && fresh(buf) && this.base == base && writeIndex == 0 && cycleBit
      ensures buf[..] == InitialState(true, base, bufSize).buf
    {
      buf := new TRB[bufSize](_ => ZERO_TRB);
      this.base := base;
      writeIndex, cycleBit := 0, true;
    }

    /** Stores a TRB at the write index, the dword with the cycle bit last. */
    method CopyToLast(data: TRB)
      requires writeIndex < buf.Length
      modifies buf
      ensures buf[..] == old(buf[..])[writeIndex := data.(d3 := Stamp(data.d3, cycleBit))]
    {
      for i := 0 to 3
        invariant forall k :: 0 <= k < buf.Length && k != writeIndex ==> buf[k] == old(buf[k])
        invariant forall j :: 0 <= j < i ==> buf[writeIndex].Dword(j) == data.Dword(j)
      {
        buf[writeIndex] := buf[writeIndex].WithDword(i, data.Dword(i));
      }
      assert buf[writeIndex].Dword(0) == data.d0 && buf[writeIndex].Dword(1) == data.d1 &&
        buf[writeIndex].Dword(2) == data.d2;
      buf[writeIndex] := buf[writeIndex].WithDword(3, Stamp(data.d3, cycleBit));
    }

    /** Appends a TRB; when the Link slot is reached, writes the Link TRB and starts a new lap. */
    method Push(data: TRB) returns (position: nat)
      requires Valid()
      modifies `writeIndex, `cycleBit, buf
      ensures Valid() && position == old(writeIndex)
      ensures (buf[..], writeIndex, cycleBit) == AfterPush(old(buf[..]), old(writeIndex), old(cycleBit), base, data)
      ensures writeIndex == 0 ==>
        var link := buf[buf.Length - 1];
        LinkTarget(link) == base && LinkToggles(link) && (link.Cycle() <==> old(cycleBit))
    {
      PayloadType(LinkTo(base).(d3 := Stamp(LinkTo(base).d3, cycleBit)));
      StampFacts(LinkTo(base), cycleBit);
      LinkLeadsBack(LinkTo(base).(d3 := Stamp(LinkTo(base).d3, cycleBit)), base, buf.Length);
      hide LinkTarget, LinkToggles;
      position := writeIndex;
      CopyToLast(data);
      writeIndex := writeIndex + 1;
      if writeIndex == buf.Length - 1 {
        CopyToLast(LinkTo(base));
        writeIndex := 0;
        cycleBit := !cycleBit;
      }
    }
  }

  /** The state after the producer's next n stores, with the consumer at rest. */
  function Stores(s: State, n: nat): State
    decreases n
  {
    if n == 0 || !Enabled(s, StoreDword) then s else Stores(AfterStore(s), n - 1)
  }

  /** Four stores write one slot. */
  lemma FourStores(s: State)
    requires s.job.Storing? && s.job.next == 0 && s.writeIndex < |s.buf|
    ensures Stores(s, 4) == AfterStore(s.(
      buf := s.buf[s.writeIndex := s.job.trb.(d3 := s.buf[s.writeIndex].d3)], job := Storing(s.job.trb, 3)))
  {
    var t, w := s.job.trb, s.writeIndex;
    var s1 := AfterStore(s);
    var s2 := AfterStore(s1);
    var s3 := AfterStore(s2);
    assert s3.buf[w] == t.(d3 := s.buf[w].d3);
    assert s3.buf == s.buf[w := t.(d3 := s.buf[w].d3)];
    assert Stores(s, 4) == Stores(s1, 3) == Stores(s2, 2) == Stores(s3, 1) == Stores(AfterStore(s3), 0);
  }

  /** Push as one call makes the same memory as its dword stores one by one, four or eight of them. */
  lemma PushIsItsStores(s: State, trb: TRB)
    requires Inv(s) && s.hasLink && Enabled(s, StartPush(trb))
    ensures s.writeIndex + 1 < |s.buf|
    ensures var s' := Stores(Next(s, StartPush(trb)), 4 * Needed(true, |s.buf|, s.writeIndex));
            s'.job.Idle? && (s'.buf, s'.writeIndex, s'.cycle) == AfterPush(s.buf, s.writeIndex, s.cycle, s.base, trb)
            && s'.pushed == s.pushed + [trb.Payload()]
  {
    hide MemoryMatches, Data;
    var s0 := Next(s, StartPush(trb));
    FourStores(s0);
    var s4 := Stores(s0, 4);
    assert s4.buf == s.buf[s.writeIndex := trb.(d3 := Stamp(trb.d3, s.cycle))];
    if Needed(true, |s.buf|, s.writeIndex) == 2 {
      StoresAdd(s0, 4, 4);
      FourStores(s4);
      var link := LinkTo(s.base);
      assert Stores(s4, 4).buf == s4.buf[s.writeIndex + 1 := link.(d3 := Stamp(link.d3, s.cycle))];
    }
  }

  lemma {:induction false} StoresAdd(s: State, m: nat, n: nat)
    ensures Stores(s, m + n) == Stores(Stores(s, m), n)
    decreases m
  {
    if m > 0 && Enabled(s, StoreDword) {
      StoresAdd(AfterStore(s), m - 1, n);
    } else if m > 0 {
      StuckStores(s, m + n);
      StuckStores(s, n);
    }
  }

  lemma StuckStores(s: State, n: nat)
    requires !Enabled(s, StoreDword)
    ensures Stores(s, n) == s
  {
  }

  /** The consumer reads a waiting TRB of an event ring and moves on. */
  function Taken(s: State): State
    requires s.dequeue < |s.buf|
  {
    AfterFinish(s.(fetch := Fetching(s.buf[s.dequeue], 3)))
  }

  lemma TakenInv(s: State)
    requires Inv(s) && !s.hasLink && s.fetch.NotFetching? && s.queue != []
    ensures Inv(Taken(s)) && s.buf[s.dequeue].Payload() == s.queue[0]
    ensures Taken(s).queue == s.queue[1..] && Taken(s).consumed == s.consumed + [s.queue[0]]
  {
    hide MemoryMatches, Data;
    var s1 := s.(fetch := Fetching(s.buf[s.dequeue], 3));
    FinishDelivers(s1);
    FinishInv(s1);
  }

  /** The event ring: the controller produces, the driver consumes. */
  class EventRing {
    const buf: array<TRB>
    var dequeuePointer: nat  // the slot that the ERDP register points to
    var cycleBit: bool
    var handled: seq<TRB>    // the events given to a handler, oldest first
    ghost var ring: State    // the ring as both sides see it

    ghost predicate Valid()
      reads this, buf
    {
      && Inv(ring) && !ring.hasLink && ring.fetch.NotFetching? && buf[..] == ring.buf
      && dequeuePointer == ring.dequeue && cycleBit == ring.consumerCycle && handled == ring.consumed
    }

    constructor Initialize(bufSize: nat)
      requires bufSize >= 2
      ensures Valid() && fresh(buf) && ring == InitialState(false, 0, bufSize)
    {
      buf := new TRB[bufSize](_ => ZERO_TRB);
      dequeuePointer, cycleBit, handled := 0, true, [];
      ring := InitialState(false, 0, bufSize);
      new;
      InitialInv(false, 0, bufSize);
      assert buf[..] == ring.buf;
    }

    /** The controller has an event to report, and a free slot for it. */
    ghost method StartEvent(event: TRB)
      requires Valid() && Enabled(ring, StartPush(event))
      modifies `ring
      ensures Valid() && ring == Next(old(ring), StartPush(event))
    {
      NextInv(ring, StartPush(event));
      ring := Next(ring, StartPush(event));
    }

    /** The controller stores the next dword of its event, the one with the cycle bit last. */
    method StoreEventDword(slot: nat, i: nat, dword: nat)
      requires Valid() && Enabled(ring, StoreDword) && slot == ring.writeIndex && i == ring.job.next
      requires dword == if i < 3 then ring.job.trb.Dword(i) else Stamp(ring.job.trb.d3, ring.cycle)
      modifies `ring, buf
      ensures Valid() && ring == Next(old(ring), StoreDword)
    {
      hide MemoryMatches, Data, TRB.Dword, TRB.Type;
      NextInv(ring, StoreDword);
      DwordIndex(ring);
      buf[slot] := buf[slot].WithDword(i, dword);
      ring := AfterStore(ring);
      assert buf[..] == ring.buf;
    }

    lemma DwordIndex(s: State)
      requires Inv(s) && s.job.Storing?
      ensures s.job.next <= 3
    {
    }

    function Front(): TRB
      requires dequeuePointer < buf.Length
      reads this, buf
    {
      buf[dequeuePointer]
    }

    predicate HasFront()
      requires Valid()
      reads this, buf
      ensures HasFront() <==> ring.queue != []
    {
      PollExact(ring);
      Front().Cycle() == cycleBit
    }

    method Pop()
      requires dequeuePointer < buf.Length
      modifies `dequeuePointer, `cycleBit
      ensures if old(dequeuePointer) + 1 == buf.Length then dequeuePointer == 0 && cycleBit == !old(cycleBit)
              else dequeuePointer == old(dequeuePointer) + 1 && cycleBit == old(cycleBit)
    {
      var p := dequeuePointer + 1;
      if p == buf.Length {
        p := 0;
        cycleBit := !cycleBit;
      }
      dequeuePointer := p;
    }

    /** Hands the front event to its handler, which may fail, and pops it either way. */
    method ProcessEvent(handler: TRB -> Error) returns (err: Error)
      requires Valid()
      modifies this
      ensures Valid()
      ensures if old(ring.queue) == [] then err == Success && ring == old(ring)
              else
                && ring == Taken(old(ring)) && handled == old(handled) + [old(ring.queue)[0]]
                && err == handler(old(Front()))
    {
      hide Inv;
      if !HasFront() {
        return Success;
      }
      TakenInv(ring);
      RingShape(ring);
      err := handler(Front());
      handled := handled + [Front().Payload()];
      Pop();
      ring := Taken(ring);
    }

    lemma RingShape(s: State)
      requires Inv(s)
      ensures s.dequeue < |s.buf|
    {
    }

    /** Empties the ring: every waiting event is handled exactly once and in order, whatever the handlers return. */
    method ProcessEvents(handler: TRB -> Error)
      requires Valid()
      modifies this
      ensures Valid() && ring.queue == [] && handled == old(handled) + old(ring.queue)
    {
      hide Inv, Taken;
      assert handled + ring.queue == old(handled) + old(ring.queue);
      while HasFront()
        invariant Valid() && handled + ring.queue == old(handled) + old(ring.queue)
        decreases |ring.queue|
      {
        ghost var before, q := handled, ring.queue;
        TakenInv(ring);
        var err := ProcessEvent(handler);
        assert q == [q[0]] + q[1..];
        assert before + [q[0]] + q[1..] == before + q;
      }
    }
  }
}
