/** What holds over every run of the scheduler: invariants, mailboxes and turn taking. */
module SchedulerRuns {
  import opened Scheduler
  import opened SchedulerInvariants

  /** One atomic step of the kernel: a timer switch, or a call made with interrupts off. */
  datatype Call =
    | TimerSwitch
    | SleepCall(task: TaskId)
    | WakeupCall(task: TaskId, level: int)
    | Send(task: TaskId, message: Message)
    | ReceiveOrSleep  // the current task's message loop: take a message, or sleep when there is none
    | NewTaskCall

  /** What callers must respect: tasks exist, idle never sleeps, and an explicit level is safe to set. */
  predicate Legal(s: State, c: Call)
    requires WellShaped(s)
  {
    match c
    case TimerSwitch => true
    case SleepCall(t) => t in s.tasks && t != IDLE_TASK
    case WakeupCall(t, level) => t in s.tasks && -1 <= level <= MAX_LEVEL &&
      (s.tasks[t].running ==> LevelChangeSafe(s, t, level))
    case Send(t, m) => t in s.tasks
    case ReceiveOrSleep => Current(s) in s.tasks && Current(s) != IDLE_TASK
    case NewTaskCall => true
  }

  function Step(s: State, c: Call): State
    requires WellShaped(s) && Legal(s, c)
  {
    match c
    case TimerSwitch => AfterRotate(s, false)
    case SleepCall(t) => AfterSleep(s, t)
    case WakeupCall(t, level) => AfterWakeup(s, t, level)
    case Send(t, m) => AfterSend(s, t, m)
    case ReceiveOrSleep =>
      if s.tasks[Current(s)].messages == [] then AfterSleep(s, Current(s)) else AfterReceive(s, Current(s))
    case NewTaskCall => AfterNewTask(s)
  }

  /** The messages of a task do not matter to the queues. */
  lemma MessagesInv(s: State, t: TaskId, messages: seq<Message>)
    requires Inv(s) && t in s.tasks
    ensures Inv(s.(tasks := s.tasks[t := s.tasks[t].(messages := messages)]))
  {
    hide NoDuplicates, QueuesMatchTasks;
    var l := s.tasks[t].level;
    QueueOf(s, l, t);
    OneQueue(s.tasks, s.queues, t, s.tasks[t].(messages := messages), l, s.queues[l]);
    assert s.queues[l := s.queues[l]] == s.queues;
  }

  lemma NewTaskInv(s: State)
    requires Inv(s)
    ensures Inv(AfterNewTask(s))
  {
    hide NoDuplicates, QueuesMatchTasks;
    var t := s.latestId + 1;
    QueueOf(s, DEFAULT_LEVEL, t);
    OneQueue(s.tasks, s.queues, t, Task(DEFAULT_LEVEL, false, []), DEFAULT_LEVEL, s.queues[DEFAULT_LEVEL]);
    assert s.queues[DEFAULT_LEVEL := s.queues[DEFAULT_LEVEL]] == s.queues;
  }

  lemma StepInv(s: State, c: Call)
    requires Inv(s) && Legal(s, c)
    ensures Inv(Step(s, c))
  {
    hide NoDuplicates, QueuesMatchTasks, AfterRotate, AfterSleep, AfterNewTask, AfterChangeLevel;
    match c
    case TimerSwitch => RotateInv(s);
    case SleepCall(t) => SleepInv(s, t);
    case WakeupCall(t, level) =>
      if s.tasks[t].running {
        LevelChangeInv(s, t, level);
      } else {
        WakeupInv(s, t, level);
      }
    case Send(t, m) =>
      var s1 := s.(tasks := s.tasks[t := s.tasks[t].(messages := s.tasks[t].messages + [m])]);
      MessagesInv(s, t, s.tasks[t].messages + [m]);
      if s1.tasks[t].running {
        LevelChangeInv(s1, t, -1);
      } else {
        WakeupInv(s1, t, -1);
      }
    case ReceiveOrSleep =>
      var t := Current(s);
      if s.tasks[t].messages == [] {
        SleepInv(s, t);
      } else {
        MessagesInv(s, t, s.tasks[t].messages[1..]);
      }
    case NewTaskCall => NewTaskInv(s);
  }

  /** `states` is a run of the calls: each call is legal where it is made and leads to the next state. */
  ghost predicate IsRun(states: seq<State>, calls: seq<Call>) {
    && |states| == |calls| + 1
    && forall i :: 0 <= i < |calls| ==>
         WellShaped(states[i]) && Legal(states[i], calls[i]) && states[i + 1] == Step(states[i], calls[i])
  }

  /** Every reachable state satisfies the invariant. */
  lemma {:induction false} RunInv(states: seq<State>, calls: seq<Call>, k: nat)
    requires IsRun(states, calls) && states[0] == INITIAL && k < |states|
    ensures Inv(states[k])
  {
    if k == 0 {
      InitialInv();
    } else {
      RunInv(states, calls, k - 1);
      StepInv(states[k - 1], calls[k - 1]);
    }
  }

  /** How many messages ReceiveOrSleep takes. */
  function Taken(s: State): (n: nat)
    requires WellShaped(s) && Current(s) in s.tasks
    ensures n <= |s.tasks[Current(s)].messages|
  {
    if s.tasks[Current(s)].messages == [] then 0 else 1
  }

  /** What a call sends to t. */
  function SentBy(c: Call, t: TaskId): seq<Message> {
    if c.Send? && c.task == t then [c.message] else []
  }

  /** What t takes from its mailbox during a call. */
  function TakenBy(s: State, c: Call, t: TaskId): seq<Message>
    requires WellShaped(s) && Legal(s, c)
  {
    if c.ReceiveOrSleep? && Current(s) == t then s.tasks[t].messages[..Taken(s)] else []
  }

  function Mail(s: State, t: TaskId): seq<Message> {
    if t in s.tasks then s.tasks[t].messages else []
  }

  /** The messages sent to t by the first k calls, in order. */
  function Sent(calls: seq<Call>, k: nat, t: TaskId): seq<Message>
    requires k <= |calls|
  {
    if k == 0 then [] else Sent(calls, k - 1, t) + SentBy(calls[k - 1], t)
  }

  /** The messages that t has taken from its mailbox during the first k calls, in order. */
  function Received(states: seq<State>, calls: seq<Call>, k: nat, t: TaskId): seq<Message>
    requires IsRun(states, calls) && k <= |calls|
  {
    if k == 0 then [] else Received(states, calls, k - 1, t) + TakenBy(states[k - 1], calls[k - 1], t)
  }

  /** The mailbox of t after a call that does not create t. */
  function MailAfter(s: State, c: Call, t: TaskId): seq<Message>
    requires WellShaped(s) && Legal(s, c) && t in s.tasks
  {
    if c.Send? && c.task == t then s.tasks[t].messages + [c.message]
    else if c.ReceiveOrSleep? && Current(s) == t then s.tasks[t].messages[Taken(s)..]
    else s.tasks[t].messages
  }

  /** What one call does to the mailboxes and to the running flags. */
  lemma StepMail(s: State, c: Call, t: TaskId)
    requires WellShaped(s) && Legal(s, c)
    ensures t in s.tasks ==> t in Step(s, c).tasks
    ensures t !in s.tasks && t in Step(s, c).tasks ==> c == NewTaskCall && Step(s, c).tasks[t].messages == []
    ensures t in s.tasks && c == NewTaskCall && t != s.latestId + 1 ==> Step(s, c).tasks[t] == s.tasks[t]
    ensures t in s.tasks && c != NewTaskCall ==> Step(s, c).tasks[t].messages == MailAfter(s, c, t)
    ensures t in s.tasks && s.tasks[t].running && !Step(s, c).tasks[t].running ==>
      c.SleepCall? || (c.ReceiveOrSleep? && Current(s) == t && s.tasks[t].messages == []) ||
        (c.NewTaskCall? && t == s.latestId + 1)
    ensures c.Send? ==> Step(s, c).tasks[c.task].running
  {
  }

  /** One call: what t takes and what then waits is what waited and what is sent. */
  lemma MailConserved(s: State, c: Call, t: TaskId)
    requires Inv(s) && Legal(s, c)
    ensures TakenBy(s, c, t) + Mail(Step(s, c), t) == Mail(s, t) + SentBy(c, t)
  {
    hide NoDuplicates, QueuesMatchTasks, Step;
    StepMail(s, c, t);
  }

  lemma InitialMail(t: TaskId)
    ensures Mail(INITIAL, t) == []
  {
  }

  /** Each message sent is received once and in order, or still waiting in the mailbox. */
  lemma {:induction false} ExactlyOnceFifo(states: seq<State>, calls: seq<Call>, k: nat, t: TaskId)
    requires IsRun(states, calls) && states[0] == INITIAL && k <= |calls|
    ensures Received(states, calls, k, t) + Mail(states[k], t) == Sent(calls, k, t)
  {
    hide Inv, Step, Mail, TakenBy, SentBy, Legal, WellShaped, Current;
    if k == 0 {
      InitialMail(t);
    } else {
      ExactlyOnceFifo(states, calls, k - 1, t);
      RunInv(states, calls, k - 1);
      MailConserved(states[k - 1], calls[k - 1], t);
      var r, taken, mail := Received(states, calls, k - 1, t), TakenBy(states[k - 1], calls[k - 1], t),
        Mail(states[k], t);
      assert r + taken + mail == r + (taken + mail);
      assert r + (Mail(states[k - 1], t) + SentBy(calls[k - 1], t)) ==
        r + Mail(states[k - 1], t) + SentBy(calls[k - 1], t);
    }
  }

  /** When tasks sleep only through their message loop, a sleeping task has no message waiting: no wakeup is lost. */
  lemma {:induction false} NoLostWakeup(states: seq<State>, calls: seq<Call>, k: nat, t: TaskId)
    requires IsRun(states, calls) && states[0] == INITIAL && k <= |calls|
    requires forall i :: 0 <= i < |calls| ==> !calls[i].SleepCall?
    requires t in states[k].tasks && !states[k].tasks[t].running
    ensures states[k].tasks[t].messages == []
  {
    hide NoDuplicates, QueuesMatchTasks, Step;
    if k > 0 {
      RunInv(states, calls, k - 1);
      StepMail(states[k - 1], calls[k - 1], t);
      if t in states[k - 1].tasks && !states[k - 1].tasks[t].running {
        NoLostWakeup(states, calls, k - 1, t);
      }
    }
  }

  /** The position of t in a queue that holds it. */
  function IndexOf(q: seq<TaskId>, t: TaskId): (i: nat)
    requires t in q
    ensures i < |q| && q[i] == t
  {
    if q[0] == t then 0 else 1 + IndexOf(q[1..], t)
  }

  lemma {:induction false} IndexInEdited(q: seq<TaskId>, t: TaskId, x: TaskId)
    requires t in q
    ensures IndexOf(q + [x], t) == IndexOf(q, t)
    ensures x != t ==> t in Erase(q, x) && IndexOf(Erase(q, x), t) <= IndexOf(q, t)
  {
    if q[0] != t {
      IndexInEdited(q[1..], t, x);
      assert (q + [x])[1..] == q[1..] + [x];
    }
  }

  /** The call takes the turn of the current task: a timer switch, or the current task falls asleep. */
  predicate IsRotation(s: State, c: Call)
    requires WellShaped(s) && Legal(s, c)
  {
    || c.TimerSwitch?
    || (c.SleepCall? && c.task == Current(s) && s.tasks[c.task].running)
    || (c.ReceiveOrSleep? && s.tasks[Current(s)].messages == [] && s.tasks[Current(s)].running)
  }

  /** The call neither puts t to sleep nor names it for a level change. */
  predicate LeavesAlone(c: Call, t: TaskId) {
    match c
    case SleepCall(u) => u != t
    case WakeupCall(u, level) => u != t || level < 0
    case _ => true
  }

  /** t keeps its place in the current queue, or gains at least `gain` places. */
  ghost predicate Nearer(s: State, s': State, t: TaskId, gain: nat)
    requires WellShaped(s) && t in s.queues[s.level]
  {
    && s.level < |s'.queues| && t in s'.queues[s.level]
    && IndexOf(s'.queues[s.level], t) + gain <= IndexOf(s.queues[s.level], t)
  }

  lemma RotationNearer(s: State, sleeps: bool, t: TaskId)
    requires WellShaped(s) && t in s.queues[s.level] && t != Current(s)
    ensures Nearer(s, AfterRotate(s, sleeps), t, 1)
  {
    var q := s.queues[s.level];
    assert q == [q[0]] + q[1..];
    IndexInEdited(q[1..], t, q[0]);
  }

  lemma SleepNearer(s: State, u: TaskId, t: TaskId)
    requires Inv(s) && t in s.queues[s.level] && t != Current(s) && u in s.tasks && u != t
    ensures Nearer(s, AfterSleep(s, u), t, if u == Current(s) && s.tasks[u].running then 1 else 0)
  {
    hide NoDuplicates, QueuesMatchTasks, AfterRotate;
    if s.tasks[u].running {
      if u == Current(s) {
        RotationNearer(s.(tasks := s.tasks[u := s.tasks[u].(running := false)]), true, t);
      } else {
        IndexInEdited(s.queues[s.level], t, u);
      }
    }
  }

  lemma WakeupNearer(s: State, u: TaskId, level: int, t: TaskId)
    requires Inv(s) && t in s.queues[s.level] && t != Current(s) && u in s.tasks && -1 <= level <= MAX_LEVEL
    requires u != t || level < 0
    requires AfterWakeup(s, u, level).level == s.level
    ensures Nearer(s, AfterWakeup(s, u, level), t, 0)
  {
    hide NoDuplicates, QueuesMatchTasks;
    QueueOf(s, s.level, t);
    IndexInEdited(s.queues[s.level], t, u);
    if u != t {
      IndexInEdited(Erase(s.queues[s.level], u), t, u);
    }
  }

  /** In the current queue, t moves to the front by one place with every rotation and never falls back. */
  lemma TurnApproaches(s: State, c: Call, t: TaskId)
    requires Inv(s) && Legal(s, c) && LeavesAlone(c, t) && t in s.queues[s.level] && t != Current(s)
    requires Step(s, c).level == s.level
    ensures Nearer(s, Step(s, c), t, if IsRotation(s, c) then 1 else 0)
  {
    hide NoDuplicates, QueuesMatchTasks, AfterRotate, AfterSleep, AfterWakeup, Nearer, IndexOf;
    match c
    case TimerSwitch => RotationNearer(s, false, t);
    case SleepCall(u) => SleepNearer(s, u, t);
    case WakeupCall(u, level) => WakeupNearer(s, u, level, t);
    case Send(u, m) =>
      MessagesInv(s, u, s.tasks[u].messages + [m]);
      WakeupNearer(s.(tasks := s.tasks[u := s.tasks[u].(messages := s.tasks[u].messages + [m])]), u, -1, t);
      NearerTasks(s, s.(tasks := s.tasks[u := s.tasks[u].(messages := s.tasks[u].messages + [m])]), Step(s, c), t, 0);
    case ReceiveOrSleep =>
      SleepNearer(s, Current(s), t);
      NearerSame(s, Step(s, c), t);
    case NewTaskCall => NearerSame(s, Step(s, c), t);
  }

  lemma NearerTasks(s: State, s1: State, s': State, t: TaskId, gain: nat)
    requires WellShaped(s) && WellShaped(s1) && s1.queues == s.queues && s1.level == s.level && t in s.queues[s.level]
    requires Nearer(s1, s', t, gain)
    ensures Nearer(s, s', t, gain)
  {
  }

  lemma NearerSame(s: State, s': State, t: TaskId)
    requires WellShaped(s) && t in s.queues[s.level]
    ensures s'.queues == s.queues ==> Nearer(s, s', t, 0)
  {
  }

  function Rotations(states: seq<State>, calls: seq<Call>, k: nat): nat
    requires IsRun(states, calls) && k <= |calls|
  {
    if k == 0 then 0 else Rotations(states, calls, k - 1) + if IsRotation(states[k - 1], calls[k - 1]) then 1 else 0
  }

  /**
   * A task at index i of the current queue is at its front after at most i rotations, whatever
   * calls are made in between that leave the task and the current level alone.
   */
  lemma {:induction false} TurnComes(states: seq<State>, calls: seq<Call>, t: TaskId, k: nat)
    requires IsRun(states, calls) && Inv(states[0]) && k <= |calls|
    requires forall i :: 0 <= i < |states| ==> states[i].level == states[0].level
    requires forall i :: 0 <= i < |calls| ==> LeavesAlone(calls[i], t)
    requires t in states[0].queues[states[0].level]
    requires forall i :: 0 <= i <= k ==> WellShaped(states[i]) && Current(states[i]) != t
    ensures Inv(states[k]) && t in states[k].queues[states[k].level]
    ensures Rotations(states, calls, k) + IndexOf(states[k].queues[states[k].level], t)
            <= IndexOf(states[0].queues[states[0].level], t)
    ensures Rotations(states, calls, k) < IndexOf(states[0].queues[states[0].level], t)
  {
    hide NoDuplicates, QueuesMatchTasks, Step;
    if k > 0 {
      TurnComes(states, calls, t, k - 1);
      StepInv(states[k - 1], calls[k - 1]);
      assert states[k - 1].level == states[0].level == states[k].level;
      TurnApproaches(states[k - 1], calls[k - 1], t);
    }
  }

  lemma {:induction false} RunKeepsInv(states: seq<State>, calls: seq<Call>, k: nat)
    requires IsRun(states, calls) && Inv(states[0]) && k < |states|
    ensures Inv(states[k])
  {
    if k > 0 {
      RunKeepsInv(states, calls, k - 1);
      StepInv(states[k - 1], calls[k - 1]);
    }
  }

  /** Round-robin: i rotations are enough for the task at index i to get its turn. */
  lemma TurnWithinIndex(states: seq<State>, calls: seq<Call>, t: TaskId)
    requires IsRun(states, calls) && Inv(states[0])
    requires forall i :: 0 <= i < |states| ==> states[i].level == states[0].level
    requires forall i :: 0 <= i < |calls| ==> LeavesAlone(calls[i], t)
    requires t in states[0].queues[states[0].level]
    requires IndexOf(states[0].queues[states[0].level], t) <= Rotations(states, calls, |calls|)
    ensures exists j :: 0 <= j < |states| && WellShaped(states[j]) && Current(states[j]) == t
  {
    hide NoDuplicates, QueuesMatchTasks, Step;
    forall j | 0 <= j < |states| ensures WellShaped(states[j]) {
      RunKeepsInv(states, calls, j);
    }
    if forall j :: 0 <= j < |states| ==> Current(states[j]) != t {
      TurnComes(states, calls, t, |calls|);
      assert false;
    }
  }
}
