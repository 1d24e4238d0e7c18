/**
 * What each call of the scheduler does to the tasks, said apart from the run queues, and which
 * calls keep the running task.
 */
module SchedulerEffects {
  import opened Scheduler
  import opened SchedulerInvariants
  import opened SchedulerRuns

  /** A call changes nothing of any task but this: who runs, a level that is given, and one mailbox. */
  lemma TasksAfter(s: State, c: Call)
    requires Inv(s) && Legal(s, c)
    ensures Step(s, c).tasks ==
      match c
      case TimerSwitch => s.tasks
      case SleepCall(t) => s.tasks[t := s.tasks[t].(running := false)]
      case WakeupCall(t, level) =>
        s.tasks[t := s.tasks[t].(running := true, level := if level < 0 then s.tasks[t].level else level)]
      case Send(t, m) => s.tasks[t := s.tasks[t].(running := true, messages := s.tasks[t].messages + [m])]
      case ReceiveOrSleep =>
        var t := Current(s);
        if s.tasks[t].messages == [] then s.tasks[t := s.tasks[t].(running := false)]
        else s.tasks[t := s.tasks[t].(messages := s.tasks[t].messages[1..])]
      case NewTaskCall => s.tasks[s.latestId + 1 := Task(1, false, [])]
  {
    hide QueuesMatchTasks, NoDuplicates;
  }

  /** The calls that go to another task's context: a timer switch, and the running task's own Sleep. */
  predicate Switches(s: State, c: Call)
    requires WellShaped(s) && Legal(s, c)
  {
    match c
    case TimerSwitch => true
    case SleepCall(t) => t == Current(s)
    case ReceiveOrSleep => s.tasks[Current(s)].messages == []
    case _ => false
  }

  /**
   * Every other call leaves the task at the front of the current queue the one that runs, also when
   * its level changes.
   */
  lemma CurrentKept(s: State, c: Call)
    requires Inv(s) && Legal(s, c) && !Switches(s, c)
    ensures WellShaped(Step(s, c)) && Current(Step(s, c)) == Current(s)
  {
    StepInv(s, c);
    QueueOf(s, s.level, Current(s));
    hide QueuesMatchTasks, NoDuplicates;
    match c
    case SleepCall(t) => OthersErased(s.queues[s.level], t);
    case WakeupCall(t, level) => OthersErased(s.queues[s.level], t);
    case Send(t, m) =>
    case ReceiveOrSleep =>
    case NewTaskCall =>
  }

  /** Erasing another task keeps the front. */
  lemma OthersErased(q: seq<TaskId>, t: TaskId)
    requires q != []
    ensures q[0] != t ==> Erase(q, t) != [] && Erase(q, t)[0] == q[0]
  {
  }

  /** Over every run the running task changes only at those calls. */
  lemma {:induction false} RunningTaskStays(states: seq<State>, calls: seq<Call>, i: nat, k: nat)
    requires IsRun(states, calls) && states[0] == INITIAL && i <= k < |states|
    requires forall j :: i <= j < k ==>
               WellShaped(states[j]) && Legal(states[j], calls[j]) && !Switches(states[j], calls[j])
    ensures WellShaped(states[i]) && WellShaped(states[k]) && Current(states[k]) == Current(states[i])
  {
    hide Step;
    RunInv(states, calls, k);
    if i < k {
      RunInv(states, calls, k - 1);
      RunningTaskStays(states, calls, i, k - 1);
      CurrentKept(states[k - 1], calls[k - 1]);
    }
  }
}
