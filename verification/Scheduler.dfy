/** The state of the multilevel scheduler and what each call makes of it (Kernel/task.cpp). */
module Scheduler {

  const MAX_LEVEL := 3
  const DEFAULT_LEVEL := 1
  const MAIN_TASK := 1
  const IDLE_TASK := 2

  type TaskId = nat

  /** A message of Kernel/message.hpp: its type, the task it names as sender, and its argument words. */
  datatype Message = Message(kind: nat, srcTask: nat, arg: seq<int>)

  datatype Task = Task(level: nat, running: bool, messages: seq<Message>)

  /** `queues[l]` is the run queue of level l; its front is the next task of that level to run. */
  datatype State = State(tasks: map<TaskId, Task>, queues: seq<seq<TaskId>>, level: nat, levelChanged: bool,
    latestId: nat)

  ghost predicate NoDuplicates(q: seq<TaskId>) {
    forall i, j :: 0 <= i < j < |q| ==> q[i] != q[j]
  }

  /** The shape that indexing needs, whatever the tasks are. */
  predicate WellShaped(s: State) {
    |s.queues| == MAX_LEVEL + 1 && s.level <= MAX_LEVEL && s.queues[s.level] != []
    && forall t :: t in s.tasks ==> s.tasks[t].level <= MAX_LEVEL
  }

  /** A task runs exactly when it is in a queue; it is then in its own level's queue, once. */
  ghost predicate QueuesMatchTasks(tasks: map<TaskId, Task>, queues: seq<seq<TaskId>>) {
    && |queues| == MAX_LEVEL + 1
    && (forall l, t :: 0 <= l <= MAX_LEVEL && t in queues[l] ==> t in tasks && tasks[t].running && tasks[t].level == l)
    && (forall l :: 0 <= l <= MAX_LEVEL ==> NoDuplicates(queues[l]))
    && (forall t :: t in tasks ==> tasks[t].level <= MAX_LEVEL)
    && (forall t :: t in tasks && tasks[t].running ==> t in queues[tasks[t].level])
  }

  /** The idle task is always ready to run. */
  predicate IdleRuns(tasks: map<TaskId, Task>) {
    IDLE_TASK in tasks && tasks[IDLE_TASK].running
  }

  ghost predicate NothingAbove(queues: seq<seq<TaskId>>, level: nat)
    requires |queues| == MAX_LEVEL + 1
  {
    forall l :: level < l <= MAX_LEVEL ==> queues[l] == []
  }

  ghost predicate Inv(s: State) {
    && WellShaped(s) && QueuesMatchTasks(s.tasks, s.queues) && IdleRuns(s.tasks)
    && (!s.levelChanged ==> NothingAbove(s.queues, s.level))
    && (forall t :: t in s.tasks ==> t <= s.latestId)
  }

  function Current(s: State): TaskId
    requires WellShaped(s)
  {
    s.queues[s.level][0]
  }

  /** The queue without any occurrence of t (std::remove followed by erase). */
  function Erase(q: seq<TaskId>, t: TaskId): seq<TaskId> {
    if q == [] then [] else if q[0] == t then Erase(q[1..], t) else [q[0]] + Erase(q[1..], t)
  }

  /** The highest level at or below `top` with a task in its queue, or `otherwise`. */
  function HighestLevel(queues: seq<seq<TaskId>>, top: nat, otherwise: nat): nat
    requires top < |queues|
  {
    if queues[top] != [] then top
    else if top == 0 then otherwise
    else HighestLevel(queues, top - 1, otherwise)
  }

  function AfterRotate(s: State, currentSleeps: bool): State
    requires WellShaped(s)
  {
    var q := s.queues[s.level];
    var rest := if currentSleeps then q[1..] else q[1..] + [q[0]];
    var queues := s.queues[s.level := rest];
    if s.levelChanged || rest == [] then
      s.(queues := queues, level := HighestLevel(queues, MAX_LEVEL, s.level), levelChanged := false)
    else s.(queues := queues)
  }

  function AfterSleep(s: State, t: TaskId): State
    requires WellShaped(s) && t in s.tasks
  {
    if !s.tasks[t].running then s
    else
      var s1 := s.(tasks := s.tasks[t := s.tasks[t].(running := false)]);
      if t == Current(s) then AfterRotate(s1, true)
      else s1.(queues := s.queues[s.tasks[t].level := Erase(s.queues[s.tasks[t].level], t)])
  }

  /** `level` is -1 when the caller leaves the task's level as it is. */
  function AfterWakeup(s: State, t: TaskId, level: int): State
    requires WellShaped(s) && t in s.tasks && -1 <= level <= MAX_LEVEL
  {
    if s.tasks[t].running then AfterChangeLevel(s, t, level)
    else
      var l := if level < 0 then s.tasks[t].level else level;
      s.(tasks := s.tasks[t := s.tasks[t].(level := l, running := true)],
         queues := s.queues[l := s.queues[l] + [t]],
         levelChanged := s.levelChanged || l > s.level)
  }

  function AfterChangeLevel(s: State, t: TaskId, level: int): State
    requires WellShaped(s) && t in s.tasks && -1 <= level <= MAX_LEVEL
  {
    if level < 0 || level == s.tasks[t].level then s
    else
      var s1 := s.(tasks := s.tasks[t := s.tasks[t].(level := level)]);
      if t != Current(s) then
        var queues := s.queues[s.level := Erase(s.queues[s.level], t)];
        s1.(queues := queues[level := queues[level] + [t]], levelChanged := s.levelChanged || level > s.level)
      else
        var queues := s.queues[s.level := s.queues[s.level][1..]];
        s1.(queues := queues[level := [t] + queues[level]], level := level,
            levelChanged := s.levelChanged || level < s.level)
  }

  function AfterSend(s: State, t: TaskId, m: Message): State
    requires WellShaped(s) && t in s.tasks
  {
    AfterWakeup(s.(tasks := s.tasks[t := s.tasks[t].(messages := s.tasks[t].messages + [m])]), t, -1)
  }

  function AfterReceive(s: State, t: TaskId): State
    requires t in s.tasks && s.tasks[t].messages != []
  {
    s.(tasks := s.tasks[t := s.tasks[t].(messages := s.tasks[t].messages[1..])])
  }

  function AfterNewTask(s: State): State {
    s.(tasks := s.tasks[s.latestId + 1 := Task(DEFAULT_LEVEL, false, [])], latestId := s.latestId + 1)
  }

  const INITIAL := State(
    map[MAIN_TASK := Task(MAX_LEVEL, true, []), IDLE_TASK := Task(0, true, [])],
    [[IDLE_TASK], [], [], [MAIN_TASK]], MAX_LEVEL, false, 2)
}

/** Invariants of the scheduler over every sequence of calls. */
module SchedulerInvariants {
  import opened Scheduler

  lemma {:induction false} EraseMembers(q: seq<TaskId>, t: TaskId)
    ensures forall x :: x in Erase(q, t) <==> x in q && x != t
    ensures NoDuplicates(q) ==> NoDuplicates(Erase(q, t))
  {
    if q != [] {
      EraseMembers(q[1..], t);
      assert q == [q[0]] + q[1..];
      if NoDuplicates(q) {
        assert q[0] !in q[1..];
        var e := Erase(q[1..], t);
        assert NoDuplicates(e) && q[0] !in e;
        assert forall i :: 0 < i < |[q[0]] + e| ==> ([q[0]] + e)[i] == e[i - 1];
      }
    }
  }

  /** The queue operations of the scheduler on a queue without duplicates. */
  lemma QueueFacts(q: seq<TaskId>, t: TaskId)
    requires NoDuplicates(q)
    ensures q != [] ==> NoDuplicates(q[1..]) && NoDuplicates(q[1..] + [q[0]])
    ensures q != [] ==> forall x :: x in q[1..] <==> x in q && x != q[0]
    ensures q != [] ==> forall x :: x in q[1..] + [q[0]] <==> x in q
    ensures t !in q ==> NoDuplicates(q + [t]) && NoDuplicates([t] + q)
    ensures forall x :: x in q + [t] <==> x in q || x == t
    ensures forall x :: x in [t] + q <==> x in q || x == t
  {
  }

  lemma {:induction false} HighestLevelFacts(queues: seq<seq<TaskId>>, top: nat, otherwise: nat, w: nat)
    requires w <= top < |queues| && queues[w] != []
    ensures var l := HighestLevel(queues, top, otherwise);
            l <= top && queues[l] != [] && forall k :: l < k <= top ==> queues[k] == []
  {
    if queues[top] == [] {
      HighestLevelFacts(queues, top - 1, otherwise, w);
    }
  }

  /** Only task t and the queue of level l change, and they change together. */
  lemma OneQueue(tasks: map<TaskId, Task>, queues: seq<seq<TaskId>>, t: TaskId, task: Task, l: nat, q: seq<TaskId>)
    requires QueuesMatchTasks(tasks, queues) && l <= MAX_LEVEL && task.level <= MAX_LEVEL
    requires t in tasks && tasks[t].running ==> tasks[t].level == l
    requires task.running ==> task.level == l
    requires NoDuplicates(q) && (t in q <==> task.running)
    requires forall x :: x != t ==> (x in q <==> x in queues[l])
    ensures QueuesMatchTasks(tasks[t := task], queues[l := q])
  {
    hide NoDuplicates;
  }

  lemma InitialInv()
    ensures Inv(INITIAL) && Current(INITIAL) == 1 && INITIAL.tasks.Keys == {1, 2} && INITIAL.latestId == 2
    ensures INITIAL.tasks[1].level == 3 && INITIAL.tasks[2].level == 0 && forall t :: t in {1, 2} ==>
      INITIAL.tasks[t].messages == []
  {
  }

  lemma RotateInv(s: State)
    requires Inv(s)
    ensures Inv(AfterRotate(s, false)) && !AfterRotate(s, false).levelChanged
  {
    hide NoDuplicates, QueuesMatchTasks;
    var q := s.queues[s.level];
    var t := Current(s);
    QueueOf(s, s.level, t);
    QueueFacts(q, t);
    OneQueue(s.tasks, s.queues, t, s.tasks[t], s.level, q[1..] + [q[0]]);
    assert s.tasks[t := s.tasks[t]] == s.tasks;
    IdleQueued(AfterRotate(s, false).tasks, AfterRotate(s, false).queues);
    HighestLevelFacts(AfterRotate(s, false).queues, MAX_LEVEL, s.level, s.tasks[IDLE_TASK].level);
  }

  lemma QueueOf(s: State, l: nat, t: TaskId)
    requires Inv(s) && l <= MAX_LEVEL
    ensures NoDuplicates(s.queues[l])
    ensures t in s.queues[l] <==> t in s.tasks && s.tasks[t].running && s.tasks[t].level == l
  {
  }

  lemma IdleQueued(tasks: map<TaskId, Task>, queues: seq<seq<TaskId>>)
    requires QueuesMatchTasks(tasks, queues) && IdleRuns(tasks)
    ensures |queues| == MAX_LEVEL + 1 && tasks[IDLE_TASK].level <= MAX_LEVEL &&
      IDLE_TASK in queues[tasks[IDLE_TASK].level]
  {
  }

  /** No running task has a higher level than the current one. */
  ghost predicate TopLevelRuns(s: State) {
    WellShaped(s) && Current(s) in s.tasks
    && forall t :: t in s.tasks && s.tasks[t].running ==> s.tasks[t].level <= s.tasks[Current(s)].level
  }

  /** After every timer switch the chosen task has the highest level among all running tasks. */
  lemma HighestLevelRuns(s: State)
    requires Inv(s)
    ensures TopLevelRuns(AfterRotate(s, false))
  {
    hide NoDuplicates, QueuesMatchTasks, AfterRotate;
    RotateInv(s);
    var s' := AfterRotate(s, false);
    QueueOf(s', s'.level, Current(s'));
    forall t | t in s'.tasks && s'.tasks[t].running ensures s'.tasks[t].level <= s'.tasks[Current(s')].level {
      TaskLevels(s');
      QueueOf(s', s'.tasks[t].level, t);
    }
  }

  lemma TaskLevels(s: State)
    requires Inv(s)
    ensures forall t :: t in s.tasks ==> s.tasks[t].level <= MAX_LEVEL
  {
  }

  lemma SleepInv(s: State, t: TaskId)
    requires Inv(s) && t in s.tasks && t != IDLE_TASK
    ensures Inv(AfterSleep(s, t))
  {
    hide NoDuplicates, QueuesMatchTasks;
    if s.tasks[t].running {
      var l := s.tasks[t].level;
      var q := s.queues[l];
      var task := s.tasks[t].(running := false);
      QueueOf(s, l, t);
      QueueOf(s, s.level, Current(s));
      EraseMembers(q, t);
      QueueFacts(q, t);
      IdleQueued(s.tasks, s.queues);
      if t == Current(s) {
        OneQueue(s.tasks, s.queues, t, task, l, q[1..]);
        IdleQueued(s.tasks[t := task], s.queues[l := q[1..]]);
        HighestLevelFacts(s.queues[l := q[1..]], MAX_LEVEL, s.level, s.tasks[IDLE_TASK].level);
      } else {
        OneQueue(s.tasks, s.queues, t, task, l, Erase(q, t));
        assert Current(s) in s.queues[s.level];
      }
    }
  }

  /** And when the current task goes to sleep, the task chosen next has the highest level that runs. */
  lemma SleepTopLevel(s: State)
    requires Inv(s) && Current(s) in s.tasks && Current(s) != IDLE_TASK
    ensures TopLevelRuns(AfterSleep(s, Current(s)))
  {
    hide NoDuplicates, QueuesMatchTasks;
    var s' := AfterSleep(s, Current(s));
    SleepInv(s, Current(s));
    QueueOf(s, s.level, Current(s));
    QueueOf(s', s'.level, Current(s'));
    assert !s'.levelChanged;
    TaskLevels(s');
    hide AfterSleep;
    forall t | t in s'.tasks && s'.tasks[t].running ensures s'.tasks[t].level <= s'.tasks[Current(s')].level {
      QueueOf(s', s'.tasks[t].level, t);
    }
  }

  lemma WakeupInv(s: State, t: TaskId, level: int)
    requires Inv(s) && t in s.tasks && -1 <= level <= MAX_LEVEL && !s.tasks[t].running
    ensures Inv(AfterWakeup(s, t, level))
  {
    hide NoDuplicates, QueuesMatchTasks;
    var l := if level < 0 then s.tasks[t].level else level;
    QueueOf(s, l, t);
    QueueFacts(s.queues[l], t);
    OneQueue(s.tasks, s.queues, t, s.tasks[t].(level := l, running := true), l, s.queues[l] + [t]);
  }

  /** When an explicit level change of a running task leaves the queues in order. */
  predicate LevelChangeSafe(s: State, t: TaskId, level: int)
    requires WellShaped(s) && t in s.tasks
  {
    level < 0 || level == s.tasks[t].level || t == Current(s) || s.tasks[t].level == s.level
  }

  /** Taking t out of its own queue and adding it to another one. */
  lemma MoveBetweenQueues(s: State, t: TaskId, level: nat, removed: seq<TaskId>, added: seq<TaskId>)
    requires Inv(s) && t in s.tasks && level <= MAX_LEVEL && s.tasks[t].running && level != s.tasks[t].level
    requires NoDuplicates(removed) && forall x :: x in removed <==> x in s.queues[s.tasks[t].level] && x != t
    requires NoDuplicates(added) && forall x :: x in added <==> x in s.queues[level] || x == t
    ensures QueuesMatchTasks(s.tasks[t := s.tasks[t].(level := level)],
      s.queues[s.tasks[t].level := removed][level := added])
  {
    hide NoDuplicates, QueuesMatchTasks;
    var l := s.tasks[t].level;
    var asleep := s.tasks[t].(running := false);
    var moved := s.tasks[t].(level := level);
    OneQueue(s.tasks, s.queues, t, asleep, l, removed);
    OneQueue(s.tasks[t := asleep], s.queues[l := removed], t, moved, level, added);
    assert s.tasks[t := asleep][t := moved] == s.tasks[t := moved];
  }

  lemma LevelChangeInv(s: State, t: TaskId, level: int)
    requires Inv(s) && t in s.tasks && -1 <= level <= MAX_LEVEL && s.tasks[t].running && LevelChangeSafe(s, t, level)
    ensures Inv(AfterChangeLevel(s, t, level))
  {
    hide NoDuplicates, QueuesMatchTasks;
    if level >= 0 && level != s.tasks[t].level {
      QueueOf(s, s.level, Current(s));
      QueueOf(s, s.level, t);
      QueueOf(s, level, t);
      EraseMembers(s.queues[s.level], t);
      QueueFacts(s.queues[s.level], t);
      QueueFacts(s.queues[level], t);
      if t != Current(s) {
        MoveBetweenQueues(s, t, level, Erase(s.queues[s.level], t), s.queues[level] + [t]);
        assert Current(s) in Erase(s.queues[s.level], t);
      } else {
        MoveBetweenQueues(s, t, level, s.queues[s.level][1..], [t] + s.queues[level]);
      }
    }
  }

  /** ChangeLevelRunning keeps the invariant exactly under the guard: otherwise the task ends up in two queues. */
  lemma LevelChangeExact(s: State, t: TaskId, level: int)
    requires Inv(s) && t in s.tasks && -1 <= level <= MAX_LEVEL && s.tasks[t].running
    ensures Inv(AfterChangeLevel(s, t, level)) <==> LevelChangeSafe(s, t, level)
  {
    hide NoDuplicates;
    if LevelChangeSafe(s, t, level) {
      LevelChangeInv(s, t, level);
    } else {
      var l := s.tasks[t].level;
      var s' := AfterChangeLevel(s, t, level);
      assert t in s.queues[l] && t in s'.queues[l] && s'.tasks[t].level != l;
    }
  }

  /**
   * A new task that waits at level 1 is woken again, at level 2, while the main task runs: it is
   * then in both queues.
   */
  lemma LevelChangeExample()
    ensures var s := AfterWakeup(AfterNewTask(INITIAL), 3, -1);
            Inv(s) && s.queues[1] == [3]
            && var s' := AfterWakeup(s, 3, 2); s'.queues[1] == [3] && s'.queues[2] == [3] && !Inv(s')
  {
    var s := AfterWakeup(AfterNewTask(INITIAL), 3, -1);
    assert Erase([MAIN_TASK], 3) == [MAIN_TASK];
    assert Inv(s);
    LevelChangeExact(s, 3, 2);
  }
}
