/** Why the room of a ring must be counted in slots: a run in which two slots free of data are not enough. */
module LateLink {
  import opened RingDriver
  import opened TrbRing
  import opened TrbRingProofs

  ghost predicate Leads(s: State, t: State) {
    exists states: seq<State>, steps: seq<Step> :: IsRun(states, steps) && states[0] == s && states[|steps|] == t
  }

  lemma LeadsItself(s: State)
    ensures Leads(s, s)
  {
    assert IsRun([s], []) && [s][0] == s;
  }

  lemma LeadsNext(s: State, t: State, step: Step)
    requires Leads(s, t) && Enabled(t, step)
    ensures Leads(s, Next(t, step))
  {
    hide Next, Enabled;
    var states, steps :| IsRun(states, steps) && states[0] == s && states[|steps|] == t;
    var longer, more := states + [Next(t, step)], steps + [step];
    assert IsRun(longer, more) && longer[0] == s && longer[|more|] == Next(t, step);
  }

  lemma {:induction false} LeadsStores(s: State, t: State, n: nat)
    requires Leads(s, t)
    ensures Leads(s, Stores(t, n))
    decreases n
  {
    hide AfterStore, Leads;
    if n > 0 && Enabled(t, StoreDword) {
      LeadsNext(s, t, StoreDword);
      LeadsStores(s, AfterStore(t), n - 1);
    }
  }

  /** The consumer polls, fetches the other dwords and finishes. */
  lemma LeadsTaken(s: State, t: State)
    requires Leads(s, t) && t.fetch.NotFetching? && t.dequeue < |t.buf|
    requires t.buf[t.dequeue].Cycle() == t.consumerCycle
    ensures Leads(s, Taken(t))
  {
    hide Leads, AfterFinish;
    var slot := t.buf[t.dequeue];
    var t0 := Next(t, Poll);
    LeadsNext(s, t, Poll);
    var t1 := Next(t0, FetchDword);
    LeadsNext(s, t0, FetchDword);
    var t2 := Next(t1, FetchDword);
    LeadsNext(s, t1, FetchDword);
    var t3 := Next(t2, FetchDword);
    LeadsNext(s, t2, FetchDword);
    assert t3 == t.(fetch := Fetching(slot, 3));
    LeadsNext(s, t3, Finish);
  }

  /** A No Op TRB without and with its cycle bit, and a Link TRB without and with it. */
  const NO_OP := TRB(0, 0, 0, 8192)
  const NO_OP_ON := TRB(0, 0, 0, 8193)
  const BASE := 0x1_0012_3440
  const LINK := TRB(0x12_3440, 1, 0, 6146)
  const LINK_ON := TRB(0x12_3440, 1, 0, 6147)

  // A ring of three slots: one push, a second one with the Link TRB, and two TRBs taken.
  const START := State(true, BASE, [ZERO_TRB, ZERO_TRB, ZERO_TRB], 0, true, Idle, 0, true, NotFetching, [], [], [])
  const ONE_PUSHED := State(true, BASE, [NO_OP_ON, ZERO_TRB, ZERO_TRB], 1, true, Idle, 0, true, NotFetching, [NO_OP],
    [],
    [NO_OP])
  const LINK_DUE := State(true, BASE, [NO_OP_ON, NO_OP_ON, ZERO_TRB], 2, true, Storing(LINK, 0), 0, true, NotFetching,
                          [NO_OP, NO_OP], [], [NO_OP, NO_OP])
  const TWO_PUSHED := State(true, BASE, [NO_OP_ON, NO_OP_ON, LINK_ON], 0, false, Idle, 0, true, NotFetching,
                            [NO_OP, NO_OP], [], [NO_OP, NO_OP, LINK])
  const TWO_TAKEN := TWO_PUSHED.(dequeue := 2, consumed := [NO_OP, NO_OP], queue := [LINK])

  /** Then one more push: the Link is not yet followed, and the TRB pushed last waits behind it. */
  const LATE_LINK := State(true, BASE, [NO_OP, NO_OP_ON, LINK_ON], 1, false, Idle, 2, true, NotFetching,
                           [NO_OP, NO_OP, NO_OP], [NO_OP, NO_OP], [LINK, NO_OP])

  lemma StartIsInitial()
    ensures START == InitialState(true, BASE, 3)
  {
    assert InitialState(true, BASE, 3).buf == START.buf;
  }

  lemma FirstPush()
    ensures Leads(START, ONE_PUSHED)
  {
    hide Leads;
    LeadsItself(START);
    LeadsNext(START, START, StartPush(NO_OP));
    var s := Next(START, StartPush(NO_OP));
    LeadsStores(START, s, 4);
    FourStores(s);
    hide Stores;
    assert Stores(s, 4) == ONE_PUSHED;
  }

  /** The second TRB is stored, and the Link TRB comes next. */
  lemma LinkIsDue()
    ensures Leads(START, LINK_DUE)
  {
    hide Leads;
    FirstPush();
    LeadsNext(START, ONE_PUSHED, StartPush(NO_OP));
    var s := Next(ONE_PUSHED, StartPush(NO_OP));
    LeadsStores(START, s, 4);
    FourStores(s);
    hide Stores;
    assert Stores(s, 4) == LINK_DUE;
  }

  lemma SecondPush()
    ensures Leads(START, TWO_PUSHED)
  {
    hide Leads;
    LinkIsDue();
    LeadsStores(START, LINK_DUE, 4);
    FourStores(LINK_DUE);
    hide Stores;
    assert Stores(LINK_DUE, 4) == TWO_PUSHED;
  }

  lemma BothTaken()
    ensures Leads(START, TWO_TAKEN)
  {
    hide Leads, SlotAt, LinkTarget, LinkToggles, LinkTo;
    SecondPush();
    LeadsTaken(START, TWO_PUSHED);
    LeadsTaken(START, Taken(TWO_PUSHED));
    assert TWO_PUSHED.queue[1..] == [NO_OP, LINK] && [NO_OP, LINK][1..] == [LINK];
    assert Taken(Taken(TWO_PUSHED)) == TWO_TAKEN;
  }

  lemma LateLinkReached()
    ensures Leads(START, LATE_LINK)
  {
    hide Leads;
    BothTaken();
    LeadsNext(START, TWO_TAKEN, StartPush(NO_OP));
    var s := Next(TWO_TAKEN, StartPush(NO_OP));
    LeadsStores(START, s, 4);
    FourStores(s);
    hide Stores;
    assert Stores(s, 4) == LATE_LINK;
  }

  lemma ReachedInv(hasLink: bool, base: nat, size: nat, t: State)
    requires size >= 2 && base % 16 == 0 && Leads(InitialState(hasLink, base, size), t)
    ensures Inv(t)
  {
    hide Inv;
    var s := InitialState(hasLink, base, size);
    var states, steps :| IsRun(states, steps) && states[0] == s && states[|steps|] == t;
    RunRefinesFifo(states, steps, |steps|, hasLink, base, size);
  }

  /**
   * Counting only data TRBs is not enough for a safe push. A run leads to LATE_LINK, where only
   * size - 2 data TRBs wait, yet one more push rewrites the Link with the other cycle bit: the
   * consumer's poll fails at the Link, with TRBs waiting behind it.
   */
  lemma DataCountIsNotEnough()
    ensures Leads(InitialState(true, BASE, 3), LATE_LINK) && Inv(LATE_LINK)
    ensures |Data(true, LATE_LINK.queue)| == |LATE_LINK.buf| - 2
    ensures var s := LATE_LINK;
            var (buf, w, c) := AfterPush(s.buf, s.writeIndex, s.cycle, s.base, NO_OP);
            buf[s.dequeue].Cycle() != s.consumerCycle
  {
    hide Inv, Leads;
    StartIsInitial();
    LateLinkReached();
    ReachedInv(true, BASE, 3, LATE_LINK);
    var q := LATE_LINK.queue;
    assert q[1..] == [NO_OP] && q[1..][1..] == [];
    assert q[0].Type() == LINK_TYPE && q[1].Type() == 8;
    assert Data(true, q[1..]) == [NO_OP];
  }
}
