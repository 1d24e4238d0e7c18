/** The task manager object (Kernel/task.cpp): each method does to its fields what the scheduler's functions say. */
module TaskManager {
  import opened Common
  import opened Scheduler
  import opened SchedulerInvariants
  import opened SchedulerRuns

  class TaskManager {
    var tasks: map<TaskId, Task>
    var running: seq<seq<TaskId>>
    var currentLevel: nat
    var levelChanged: bool
    var latestId: nat

    ghost function View(): State
      reads this
    {
      State(tasks, running, currentLevel, levelChanged, latestId)
    }

    /** The main task at the highest level and the idle task at the lowest. */
    constructor ()
      ensures View() == INITIAL && Inv(View())
    {
      currentLevel, levelChanged := MAX_LEVEL, false;
      tasks := map[1 := Task(MAX_LEVEL, true, []), 2 := Task(0, true, [])];
      running := [[2], [], [], [1]];
      latestId := 2;
      new;
      InitialInv();
    }

    method NewTask() returns (id: TaskId)
      requires Inv(View())
      modifies this
      ensures View() == AfterNewTask(old(View())) && Inv(View()) && id !in old(tasks) && id in tasks
    {
      NewTaskInv(View());
      latestId := latestId + 1;
      tasks := tasks[latestId := Task(DEFAULT_LEVEL, false, [])];
      return latestId;
    }

    function CurrentTask(): TaskId
      requires WellShaped(View())
      reads this
    {
      running[currentLevel][0]
    }

    /** Ends the current task's turn; the task goes to the back of its queue unless it falls asleep. */
    method RotateRunQueue(currentSleep: bool) returns (currentTask: TaskId)
      requires WellShaped(View())
      modifies this
      ensures View() == AfterRotate(old(View()), currentSleep) && currentTask == old(CurrentTask())
    {
      currentTask := running[currentLevel][0];
      running := running[currentLevel := running[currentLevel][1..]];
      if !currentSleep {
        running := running[currentLevel := running[currentLevel] + [currentTask]];
      }
      if running[currentLevel] == [] {
        levelChanged := true;
      }
      if levelChanged {
        levelChanged := false;
        var lv: int := MAX_LEVEL;
        while lv >= 0
          invariant -1 <= lv <= MAX_LEVEL
          invariant unchanged(`tasks) && unchanged(`latestId) && unchanged(`currentLevel) && !levelChanged
          invariant running == AfterRotate(old(View()), currentSleep).queues
          invariant HighestLevel(running, MAX_LEVEL, old(currentLevel))
                    == if lv >= 0 then HighestLevel(running, lv, old(currentLevel)) else old(currentLevel)
        {
          if running[lv] != [] {
            currentLevel := lv;
            break;
          }
          lv := lv - 1;
        }
      }
    }

    /** The timer interrupt's switch: afterwards the current task has the highest level that runs. */
    method SwitchTask() returns (previous: TaskId)
      requires Inv(View())
      modifies this
      ensures View() == AfterRotate(old(View()), false) && Inv(View())
      ensures TopLevelRuns(View())
    {
      hide NoDuplicates, QueuesMatchTasks, TopLevelRuns;
      RotateInv(View());
      HighestLevelRuns(View());
      previous := RotateRunQueue(false);
    }

    method Sleep(task: TaskId)
      requires Inv(View()) && task in tasks && task != IDLE_TASK
      modifies this
      ensures View() == AfterSleep(old(View()), task) && Inv(View())
      ensures task == Current(old(View())) ==> TopLevelRuns(View())
    {
      hide NoDuplicates, QueuesMatchTasks, TopLevelRuns;
      SleepInv(View(), task);
      if task == running[currentLevel][0] {
        SleepTopLevel(View());
      }
      if !tasks[task].running {
        return;
      }
      tasks := tasks[task := tasks[task].(running := false)];
      if task == running[currentLevel][0] {
        var currentTask := RotateRunQueue(true);
        return;
      }
      running := running[tasks[task].level := Erase(running[tasks[task].level], task)];
    }

    method Wakeup(task: TaskId, level: int)
      requires Inv(View()) && task in tasks && -1 <= level <= MAX_LEVEL
      modifies this
      ensures View() == AfterWakeup(old(View()), task, level)
      ensures Inv(View()) <==> (old(tasks)[task].running ==> LevelChangeSafe(old(View()), task, level))
    {
      hide NoDuplicates, QueuesMatchTasks;
      if tasks[task].running {
        ChangeLevelRunning(task, level);
        return;
      }
      WakeupInv(View(), task, level);
      var l := level;
      if l < 0 {
        l := tasks[task].level;
      }
      tasks := tasks[task := tasks[task].(level := l, running := true)];
      running := running[l := running[l] + [task]];
      if l > currentLevel {
        levelChanged := true;
      }
    }

    method ChangeLevelRunning(task: TaskId, level: int)
      requires Inv(View()) && task in tasks && -1 <= level <= MAX_LEVEL && tasks[task].running
      modifies this
      ensures View() == AfterChangeLevel(old(View()), task, level)
      ensures Inv(View()) <==> LevelChangeSafe(old(View()), task, level)
    {
      hide NoDuplicates, QueuesMatchTasks;
      LevelChangeExact(View(), task, level);
      if level < 0 || level == tasks[task].level {
        return;
      }
      if task != running[currentLevel][0] {
        running := running[currentLevel := Erase(running[currentLevel], task)];
        running := running[level := running[level] + [task]];
        tasks := tasks[task := tasks[task].(level := level)];
        if level > currentLevel {
          levelChanged := true;
        }
      } else {
        running := running[currentLevel := running[currentLevel][1..]];
        running := running[level := [task] + running[level]];
        tasks := tasks[task := tasks[task].(level := level)];
        if level >= currentLevel {
          currentLevel := level;
        } else {
          currentLevel := level;
          levelChanged := true;
        }
      }
    }

    method SendMessage(id: TaskId, message: Message) returns (err: Error)
      requires Inv(View())
      modifies this
      ensures Inv(View())
      ensures err == (if id in old(tasks) then Success else NoSuchTask)
      ensures View() == if id in old(tasks) then AfterSend(old(View()), id, message) else old(View())
    {
      hide NoDuplicates, QueuesMatchTasks;
      if id !in tasks {
        return NoSuchTask;
      }
      StepInv(View(), Send(id, message));
      MessagesInv(View(), id, tasks[id].messages + [message]);
      tasks := tasks[id := tasks[id].(messages := tasks[id].messages + [message])];
      Wakeup(id, -1);
      return Success;
    }

    method ReceiveMessage(task: TaskId) returns (m: Option<Message>)
      requires Inv(View()) && task in tasks
      modifies this
      ensures Inv(View())
      ensures if old(tasks)[task].messages == [] then m == None && View() == old(View())
              else m == Some(old(tasks)[task].messages[0]) && View() == AfterReceive(old(View()), task)
    {
      hide NoDuplicates, QueuesMatchTasks;
      if tasks[task].messages == [] {
        return None;
      }
      MessagesInv(View(), task, tasks[task].messages[1..]);
      m := Some(tasks[task].messages[0]);
      tasks := tasks[task := tasks[task].(messages := tasks[task].messages[1..])];
    }

    method SleepById(id: TaskId) returns (err: Error)
      requires Inv(View()) && id != IDLE_TASK
      modifies this
      ensures Inv(View())
      ensures err == (if id in old(tasks) then Success else NoSuchTask)
      ensures View() == if id in old(tasks) then AfterSleep(old(View()), id) else old(View())
      ensures id in old(tasks) && id == Current(old(View())) ==> TopLevelRuns(View())
    {
      if id !in tasks {
        return NoSuchTask;
      }
      Sleep(id);
      return Success;
    }

    method WakeupById(id: TaskId, level: int) returns (err: Error)
      requires Inv(View()) && -1 <= level <= MAX_LEVEL
      modifies this
      ensures Inv(View()) <==>
        (id in old(tasks) && old(tasks)[id].running ==> LevelChangeSafe(old(View()), id, level))
      ensures err == (if id in old(tasks) then Success else NoSuchTask)
      ensures View() == if id in old(tasks) then AfterWakeup(old(View()), id, level) else old(View())
    {
      if id !in tasks {
        return NoSuchTask;
      }
      Wakeup(id, level);
      return Success;
    }
  }
}
