/** TaskManager of task.cpp: on every hardware interrupt the interrupted task's frame is put away and the
    frame of the next task in the list takes its place on the stack. */
module Scheduler {
  import opened Interrupts
  import opened TaskList

  class Task {
    var state: TaskState

    constructor (state: TaskState)
      ensures this.state == state
    {
      this.state := state;
    }
  }

  /** The manager's state without its pointers: before the first call nothing runs; afterwards `running` is
      the position in the list of the task that does. */
  datatype Sched = Sched(active: bool, running: nat, saved: seq<TaskState>)

  predicate WellFormed(s: Sched) {
    s.saved != [] && (s.active ==> s.running < |s.saved|)
  }

  /** The task that Schedule switches to. */
  function Successor(s: Sched): nat
    requires WellFormed(s)
  {
    var r := if s.active then s.running else |s.saved| - 1;
    if r + 1 == |s.saved| then 0 else r + 1
  }

  /** Schedule(frame): the new state. */
  function Scheduled(s: Sched, frame: TaskState): (t: Sched)
    requires WellFormed(s)
    ensures WellFormed(t) && t.active && |t.saved| == |s.saved|
  {
    Sched(true, Successor(s), if s.active then s.saved[s.running := frame] else s.saved)
  }

  class TaskManager {
    const tasks: List<Task>
    var running: ListNode?<Task>
    var active: bool
    /** The position of `running` in the list. */
    ghost var position: nat

    /** A manager for a list that has its idle task already. */
    constructor (tasks: List<Task>)
      requires tasks.Valid() && tasks.nodes != [] && DistinctTasks(tasks.nodes)
      ensures Valid() && this.tasks == tasks && !active
    {
      this.tasks, running, active, position := tasks, null, false, 0;
    }

    ghost predicate Valid()
      reads this, tasks, tasks.nodes
    {
      && tasks.Valid() && tasks.nodes != [] && DistinctTasks(tasks.nodes)
      && (active ==> position < |tasks.nodes| && running == tasks.nodes[position])
    }

    ghost function States(): seq<TaskState>
      reads this, tasks, tasks.nodes, Objects(tasks.nodes)
    {
      seq(|tasks.nodes|, i requires 0 <= i < |tasks.nodes| reads this, tasks, tasks.nodes, Objects(tasks.nodes) =>
        tasks.nodes[i].Data.state)
    }

    ghost function View(): Sched
      reads this, tasks, tasks.nodes, Objects(tasks.nodes)
    {
      Sched(active, position, States())
    }

    /** Replaces the frame on the interrupt stack; the frame is handed in and out instead of by its address. */
    method Schedule(frame: TaskState) returns (next: TaskState)
      requires Valid()
      modifies this, Objects(tasks.nodes)
      ensures Valid() && tasks.nodes == old(tasks.nodes)
      ensures WellFormed(old(View())) && View() == Scheduled(old(View()), frame)
      ensures next == View().saved[View().running]
    {
      if active {
        running.Data.state := frame;
      } else {
        running := tasks.end;
        active := true;
        position := |tasks.nodes| - 1;
      }
      if running.Next == null {
        running := tasks.start;
        position := 0;
      } else {
        running := running.Next;
        position := position + 1;
      }
      next := running.Data.state;
    }

    /** tasks.Add(task) */
    method AddTask(task: Task)
      requires Valid() && task !in Objects(tasks.nodes)
      modifies tasks, tasks.nodes
      ensures Valid() && View() == old(View()).(saved := old(States()) + [task.state])
      ensures exists n: ListNode<Task> :: fresh(n) && n.Data == task && tasks.nodes == old(tasks.nodes) + [n]
    {
      var n := new ListNode<Task>(task);
      ghost var nodes := tasks.nodes;
      tasks.Add(n);
      assert forall i :: 0 <= i < |nodes| ==> tasks.nodes[i] == nodes[i];
    }
  }

  ghost predicate DistinctTasks(nodes: seq<ListNode<Task>>) {
    forall i, j :: 0 <= i < j < |nodes| ==> nodes[i].Data != nodes[j].Data
  }

  ghost function Objects(nodes: seq<ListNode<Task>>): set<Task> {
    set i | 0 <= i < |nodes| :: nodes[i].Data
  }
}
