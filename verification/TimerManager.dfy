/** The timer queue and the preemption signal (Kernel/timer.cpp, Kernel/timer.hpp). */
module TimerManager {
  import opened Common

  const ULONG_MAX := 0xFFFF_FFFF_FFFF_FFFF
  const TASK_TIMER_PERIOD := 2          // kTimerFreq * 0.02 with kTimerFreq == 100
  const TASK_TIMER_VALUE := -0x8000_0000

  datatype Timer = Timer(timeout: nat, value: int) {
    predicate IsTask() {
      value == TASK_TIMER_VALUE
    }
  }

  const SENTINEL := Timer(ULONG_MAX, -1)

  /** The record of one AddTimer call. */
  datatype Addition = Addition(timer: Timer, at: nat) {
    /** The first tick that can report the timer: its timeout, or the tick after a late AddTimer. */
    function Due(): nat {
      if timer.timeout > at then timer.timeout else at + 1
    }
  }

  /** The message sent at tick `at` for the timer that addition number `id` queued. */
  datatype Report = Report(id: nat, timer: Timer, at: nat)

  /** Neither early nor later than one tick after it was due. */
  predicate OnTime(a: Addition, at: nat) {
    a.timer.timeout <= at && a.Due() <= at <= a.Due() + 1
  }

  ghost predicate Reported(messages: seq<Report>, id: nat) {
    exists i :: 0 <= i < |messages| && messages[i].id == id
  }

  /** Every message belongs to one addition of its timer, and no addition has two. */
  ghost predicate MessagesMatch(additions: seq<Addition>, messages: seq<Report>) {
    && (forall i :: 0 <= i < |messages| ==>
          messages[i].id < |additions| && messages[i].timer == additions[messages[i].id].timer)
    && (forall i, j :: 0 <= i < j < |messages| ==> messages[i].id != messages[j].id)
    && (forall i :: 0 <= i < |messages| ==> OnTime(additions[messages[i].id], messages[i].at))
  }

  /** The queue holds exactly the additions that have no message yet; task timers never get one. */
  ghost predicate QueueMatches(additions: seq<Addition>, messages: seq<Report>, timers: map<nat, Timer>,
      taskId: Option<nat>) {
    && (forall id :: id in timers ==> id < |additions| && timers[id] == additions[id].timer && !Reported(messages, id))
    && (forall id: nat :: id < |additions| && !additions[id].timer.IsTask() && !Reported(messages, id) ==> id in timers)
    && (forall id :: id in timers && timers[id].IsTask() ==> taskId == Some(id))
    && (taskId.Some? ==> taskId.value in timers && timers[taskId.value].IsTask())
  }

  lemma MessageAppended(additions: seq<Addition>, messages: seq<Report>, m: Report)
    ensures forall id :: Reported(messages + [m], id) <==> Reported(messages, id) || id == m.id
  {
    forall id ensures Reported(messages + [m], id) <==> Reported(messages, id) || id == m.id {
      assert (messages + [m])[|messages|] == m;
      if Reported(messages, id) {
        var i :| 0 <= i < |messages| && messages[i].id == id;
        assert (messages + [m])[i].id == id;
      }
    }
  }

  lemma Earliest(timers: map<nat, Timer>, id: nat)
    requires id in timers
    ensures exists e :: e in timers && forall u :: u in timers ==> timers[e].timeout <= timers[u].timeout
    decreases timers[id].timeout
  {
    if u :| u in timers && timers[u].timeout < timers[id].timeout {
      Earliest(timers, u);
    }
  }

  /** The log grew by messages of this tick. */
  ghost predicate GrewAt(before: seq<Report>, after: seq<Report>, tick: nat) {
    before <= after && forall i :: |before| <= i < |after| ==> after[i].at == tick
  }

  lemma NoGrowth(log: seq<Report>, tick: nat)
    ensures GrewAt(log, log, tick)
  {
  }

  lemma GrewByOne(before: seq<Report>, after: seq<Report>, r: Report)
    requires GrewAt(before, after, r.at)
    ensures GrewAt(before, after + [r], r.at)
  {
  }

  ghost predicate LeftOver(after: map<nat, Timer>, before: map<nat, Timer>) {
    forall id :: id in after ==> id in before && after[id] == before[id]
  }

  lemma NoneGone(timers: map<nat, Timer>)
    ensures LeftOver(timers, timers)
  {
  }

  lemma LeftOverOne(after: map<nat, Timer>, before: map<nat, Timer>, id: nat)
    requires LeftOver(after, before)
    ensures LeftOver(after - {id}, after) && LeftOver(after - {id}, before)
  {
  }

  lemma QueueFacts(additions: seq<Addition>, messages: seq<Report>, timers: map<nat, Timer>, taskId: Option<nat>)
    requires QueueMatches(additions, messages, timers, taskId)
    ensures forall id :: id in timers ==> id < |additions| && timers[id] == additions[id].timer
    ensures forall id :: id in timers && timers[id].IsTask() ==> taskId == Some(id)
    ensures taskId.Some? ==> taskId.value in timers && timers[taskId.value].IsTask()
  {
  }

  /** The ticks at which the signal has been raised are the first one and every period after it, up to the next. */
  ghost predicate Paced(first: nat, raised: seq<nat>, next: nat) {
    next == first + |raised| * TASK_TIMER_PERIOD && forall i :: 0 <= i < |raised| ==>
      raised[i] == first + i * TASK_TIMER_PERIOD
  }

  lemma PacedOnce(first: nat, raised: seq<nat>, next: nat)
    requires Paced(first, raised, next)
    ensures Paced(first, raised + [next], next + TASK_TIMER_PERIOD)
  {
  }

  /** So before the next one, the signal was raised at exactly the ticks a multiple of the period after the first. */
  lemma PacedExactly(first: nat, raised: seq<nat>, next: nat, t: nat)
    requires Paced(first, raised, next) && t < next
    ensures t in raised <==> first <= t && (t - first) % TASK_TIMER_PERIOD == 0
  {
    if first <= t && (t - first) % TASK_TIMER_PERIOD == 0 {
      assert raised[(t - first) / TASK_TIMER_PERIOD] == t;
    }
  }

  /** Every ordinary timer in the queue can wait until tick t. */
  ghost predicate DueFrom(additions: seq<Addition>, timers: map<nat, Timer>, t: int) {
    forall id :: id in timers && !timers[id].IsTask() ==> id < |additions| && t <= additions[id].Due()
  }

  lemma DueLeftOver(additions: seq<Addition>, before: map<nat, Timer>, after: map<nat, Timer>, t: int)
    requires DueFrom(additions, before, t) && LeftOver(after, before)
    ensures DueFrom(additions, after, t)
  {
  }

  lemma DueAdded(additions: seq<Addition>, timers: map<nat, Timer>, timer: Timer, at: nat, t: int)
    requires DueFrom(additions, timers, t) && (timer.IsTask() || t <= at + 1)
    requires forall id :: id in timers ==> id < |additions|
    ensures DueFrom(additions + [Addition(timer, at)], timers[|additions| := timer], t)
  {
  }

  ghost predicate AddedBefore(additions: seq<Addition>, t: nat) {
    forall id :: 0 <= id < |additions| ==> additions[id].at < t
  }

  /** A timer that the last tick could leave waiting and that has run out is reported on time. */
  lemma ReportOnTime(additions: seq<Addition>, timers: map<nat, Timer>, tick: nat, id: nat)
    requires DueFrom(additions, timers, tick - 1) && AddedBefore(additions, tick)
    requires id in timers && !timers[id].IsTask() && id < |additions| && timers[id] == additions[id].timer
    requires timers[id].timeout <= tick
    ensures OnTime(additions[id], tick)
  {
  }

  /** After a scan no timer is overdue by more than this tick, and by none if the task timer was not met. */
  lemma StillDue(additions: seq<Addition>, before: map<nat, Timer>, after: map<nat, Timer>, task: Option<nat>,
                 tick: nat, met: Option<nat>)
    requires LeftOver(after, before) && tick > 0 && (met.Some? ==> met == task)
    requires forall id :: id in before ==> id < |additions| && before[id] == additions[id].timer
    requires DueFrom(additions, before, tick - 1)
    requires task.Some? ==> task.value in before
    requires task.Some? && before[task.value].timeout < tick ==> DueFrom(additions, before, tick)
    requires met.Some? ==> met.value in after && forall id :: id in after ==>
      after[met.value].timeout <= after[id].timeout
    requires met.None? ==> forall id :: id in after ==> after[id].timeout > tick
    ensures DueFrom(additions, after, if met.None? then tick + 1 else tick)
  {
  }

  lemma DueSooner(additions: seq<Addition>, timers: map<nat, Timer>, t: int, u: int)
    requires DueFrom(additions, timers, t) && u <= t
    ensures DueFrom(additions, timers, u)
  {
  }

  class TimerManager {
    var tick: nat
    var timers: map<nat, Timer>  // the priority queue: the queued timers by the number of their addition
    var messages: seq<Report>  // the timeout messages sent to the main task, oldest first
    var additions: seq<Addition>  // history: every timer ever queued; the code keeps no such record
    ghost var taskId: Option<nat>  // the queued task timer, once there is one
    ghost var first: nat           // the first tick at which the task timer runs out
    ghost var raised: seq<nat>     // the ticks at which the preemption signal was raised
    ghost const sentinel: nat := 0

    /** The tick at which the task timer runs out next. */
    ghost function Next(): nat
      requires taskId.Some? && taskId.value in timers
      reads this
    {
      var timeout := timers[taskId.value].timeout;
      if timeout > tick then timeout else tick + 1
    }

    ghost predicate Valid()
      reads this
    {
      && tick < ULONG_MAX && sentinel in timers && timers[sentinel] == SENTINEL
      && MessagesMatch(additions, messages) && QueueMatches(additions, messages, timers, taskId)
      && AddedBefore(additions, tick + 1)
      && DueFrom(additions, timers, tick)
      && (taskId.None? || timers[taskId.value].timeout <= tick ==> DueFrom(additions, timers, tick + 1))
      && (if taskId.Some? then Paced(first, raised, Next()) else raised == [])
    }

    /** Over every run of Tick and AddTimer: from its first timeout on, the signal was raised exactly every period. */
    lemma SignalEveryPeriod(t: nat)
      requires Valid() && t <= tick
      ensures t in raised <==> taskId.Some? && first <= t && (t - first) % TASK_TIMER_PERIOD == 0
    {
      if taskId.Some? {
        PacedExactly(first, raised, Next(), t);
      }
    }

    /** A timer that was due before this tick has been reported: exactly once, at its tick or the next. */
    lemma ReportedInTime(id: nat)
      requires Valid() && id < |additions| && !additions[id].timer.IsTask() && additions[id].Due() < tick
      ensures exists i :: 0 <= i < |messages| && messages[i].id == id && messages[i].timer == additions[id].timer
                          && OnTime(additions[id], messages[i].at)
      ensures forall i, j | 0 <= i < |messages| && 0 <= j < |messages| ::
                messages[i].id == id && messages[j].id == id ==> i == j
    {
    }

    constructor ()
      ensures Valid() && tick == 0 && messages == [] && additions == [Addition(SENTINEL, 0)] && taskId == None &&
        raised == []
    {
      tick, timers, messages := 0, map[0 := SENTINEL], [];
      additions, taskId, first, raised := [Addition(SENTINEL, 0)], None, 0, [];
    }

    method Push(timer: Timer)
      requires QueueMatches(additions, messages, timers, taskId) && MessagesMatch(additions, messages)
      requires timer.IsTask() ==> taskId == None
      modifies `timers, `additions, `taskId
      ensures QueueMatches(additions, messages, timers, taskId) && MessagesMatch(additions, messages)
      ensures additions == old(additions) + [Addition(timer, tick)] && timers == old(timers)[|old(additions)| := timer]
      ensures taskId == if timer.IsTask() then Some(|old(additions)|) else old(taskId)
    {
      var id := |additions|;
      additions := additions + [Addition(timer, tick)];
      timers := timers[id := timer];
      if timer.IsTask() {
        taskId := Some(id);
      }
    }

    /** Any timer may be added at any time, but only one task timer. */
    method AddTimer(timer: Timer)
      requires Valid() && (timer.IsTask() ==> taskId == None)
      modifies `timers, `additions, `taskId, `first
      ensures Valid()
      ensures additions == old(additions) + [Addition(timer, tick)] && timers == old(timers)[|old(additions)| := timer]
      ensures taskId == if timer.IsTask() then Some(|old(additions)|) else old(taskId)
      ensures first == if timer.IsTask() then Addition(timer, tick).Due() else old(first)
    {
      hide MessagesMatch, Reported, DueFrom;
      QueueFacts(additions, messages, timers, taskId);
      DueAdded(additions, timers, timer, tick, tick);
      if DueFrom(additions, timers, tick + 1) {
        DueAdded(additions, timers, timer, tick, tick + 1);
      }
      if timer.IsTask() {
        first := Addition(timer, tick).Due();
      }
      Push(timer);
    }

    /** std::priority_queue::top: some timer with the smallest timeout. */
    method Top() returns (id: nat)
      requires timers != map[]
      ensures id in timers && forall u :: u in timers ==> timers[id].timeout <= timers[u].timeout
    {
      ghost var any :| any in timers;
      Earliest(timers, any);
      id :| id in timers && forall u :: u in timers ==> timers[id].timeout <= timers[u].timeout;
    }

    /** Sends the timeout message of a timer that has run out and removes the timer. */
    method SendTimeout(id: nat)
      requires QueueMatches(additions, messages, timers, taskId) && MessagesMatch(additions, messages)
      requires id in timers && !timers[id].IsTask() && OnTime(additions[id], tick)
      modifies `timers, `messages
      ensures QueueMatches(additions, messages, timers, taskId) && MessagesMatch(additions, messages)
      ensures timers == old(timers) - {id} && messages == old(messages) + [Report(id, old(timers)[id], tick)]
    {
      MessageAppended(additions, messages, Report(id, timers[id], tick));
      messages := messages + [Report(id, timers[id], tick)];
      timers := timers - {id};
    }

    /** Raises the preemption signal and replaces the task timer by one a period ahead. */
    method Rearm(id: nat)
      requires QueueMatches(additions, messages, timers, taskId) && MessagesMatch(additions, messages)
      requires id in timers && timers[id].IsTask() && Paced(first, raised, tick)
      modifies `timers, `additions, `taskId, `raised
      ensures QueueMatches(additions, messages, timers, taskId) && MessagesMatch(additions, messages)
      ensures additions == old(additions) + [Addition(Timer(tick + TASK_TIMER_PERIOD, TASK_TIMER_VALUE), tick)]
      ensures timers == (old(timers) - {id})[|old(additions)| := Timer(tick + TASK_TIMER_PERIOD, TASK_TIMER_VALUE)]
      ensures taskId == Some(|old(additions)|) && raised == old(raised) + [tick]
      ensures Paced(first, raised, tick + TASK_TIMER_PERIOD)
    {
      PacedOnce(first, raised, tick);
      raised := raised + [tick];
      timers := timers - {id};
      taskId := None;
      Push(Timer(tick + TASK_TIMER_PERIOD, TASK_TIMER_VALUE));
    }

    /** What holds between two timers that one tick looks at. */
    ghost predicate Scanning()
      reads this
    {
      && sentinel in timers && timers[sentinel] == SENTINEL && tick < ULONG_MAX
      && MessagesMatch(additions, messages) && QueueMatches(additions, messages, timers, taskId)
      && AddedBefore(additions, tick) && DueFrom(additions, timers, tick - 1)
    }

    /** Reports timers that have run out, smallest timeout first, until none is left or the task timer is met. */
    method ReportUntilTaskTimer() returns (met: Option<nat>)
      requires Scanning()
      modifies `timers, `messages
      ensures Scanning() && LeftOver(timers, old(timers)) && GrewAt(old(messages), messages, tick)
      ensures met.Some? ==> met == taskId && timers[met.value].timeout <= tick
      ensures met.Some? ==> forall id :: id in timers ==> timers[met.value].timeout <= timers[id].timeout
      ensures met.None? ==> forall id :: id in timers ==> timers[id].timeout > tick
    {
      hide MessagesMatch, QueueMatches, GrewAt, DueFrom, LeftOver, AddedBefore;
      NoneGone(timers);
      NoGrowth(messages, tick);
      while true
        invariant Scanning() && LeftOver(timers, old(timers)) && GrewAt(old(messages), messages, tick)
        decreases |timers|
      {
        QueueFacts(additions, messages, timers, taskId);
        var id := Top();
        if timers[id].timeout > tick {
          return None;
        }
        if timers[id].value == TASK_TIMER_VALUE {
          return Some(id);
        }
        GrewByOne(old(messages), messages, Report(id, timers[id], tick));
        LeftOverOne(timers, old(timers), id);
        ReportOnTime(additions, timers, tick, id);
        DueLeftOver(additions, timers, timers - {id}, tick - 1);
        SendTimeout(id);
      }
      return None;
    }

    /**
     * One timer interrupt. Messages go out for timers that have run out; the task timer ends the
     * scan early, so a timer that ran out at the same tick may wait for the next one.
     */
    method Tick() returns (taskTimerTimeout: bool)
      requires Valid() && tick + 1 < ULONG_MAX
      modifies this
      ensures Valid() && tick == old(tick) + 1
      ensures taskTimerTimeout <==> old(taskId).Some? && old(timers[taskId.value]).timeout <= tick
      ensures raised == old(raised) + (if taskTimerTimeout then [tick] else []) && first == old(first)
      ensures taskId.Some? <==> old(taskId).Some?
      ensures taskTimerTimeout ==> timers[taskId.value].timeout == tick + TASK_TIMER_PERIOD
      ensures !taskTimerTimeout ==>
                taskId == old(taskId) && (taskId.Some? ==> timers[taskId.value] == old(timers[taskId.value]))
      ensures GrewAt(old(messages), messages, tick)
      ensures !taskTimerTimeout ==> forall id :: id in timers ==> timers[id].timeout > tick
    {
      hide MessagesMatch, QueueMatches, Paced, GrewAt, LeftOver, DueFrom;
      QueueFacts(additions, messages, timers, taskId);
      ghost var before, task, next := timers, taskId, if taskId.Some? then Next() else 0;
      tick := tick + 1;
      var met := ReportUntilTaskTimer();
      QueueFacts(additions, messages, timers, taskId);
      StillDue(additions, before, timers, task, tick, met);
      taskTimerTimeout := met.Some?;
      if met.Some? {
        assert next == tick;
        DueLeftOver(additions, timers, timers - {met.value}, tick);
        DueAdded(additions, timers - {met.value}, Timer(tick + TASK_TIMER_PERIOD, TASK_TIMER_VALUE), tick, tick);
        Rearm(met.value);
        QueueFacts(additions, messages, timers, taskId);
      } else {
        DueSooner(additions, timers, tick + 1, tick);
      }
    }
  }
}
