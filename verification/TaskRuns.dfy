/** Whole runs of the interrupted system: what each task goes through, and when it gets its turn. */
module TaskRuns {
  import opened Interrupts
  import opened Scheduler
  import opened TaskList

  /** The registers of the processor, the scheduler, and whether an exception has stopped everything. */
  datatype System = System(regs: Registers, sched: Sched, halted: bool)

  /** Some step of whatever is running, an interrupt with its vector, or a new task. */
  datatype Event = Work(input: nat) | Interrupt(vector: nat, error: nat) | Arrival(state: TaskState)

  /** How task t answers input in its own registers, or the boot code if nothing has been scheduled yet. */
  type Program = (nat, Registers, nat) -> Registers

  /** Vectors of the two interrupt controllers; only these reach Schedule. */
  predicate IsIrq(vector: nat) {
    0x20 <= vector <= 0x2F
  }

  /** Exceptions stop the system for good. */
  predicate IsException(vector: nat) {
    vector < 0x20
  }

  function After(s: System, e: Event, boot: Registers -> Registers, program: Program): (t: System)
    requires WellFormed(s.sched)
    ensures WellFormed(t.sched)
  {
    if s.halted then s else
    match e
    case Work(input) =>
      if s.sched.active then s.(regs := program(s.sched.running, s.regs, input)) else s.(regs := boot(s.regs))
    case Interrupt(vector, error) =>
      var frame := Captured(s.regs, vector, error);
      if IsException(vector) then s.(halted := true)
      else if IsIrq(vector) then
        var next := Scheduled(s.sched, frame);
        System(Resumed(next.saved[next.running]), next, false)
      else s.(regs := Resumed(frame))
    case Arrival(state) => s.(sched := s.sched.(saved := s.sched.saved + [state]))
  }

  function AfterAll(s: System, es: seq<Event>, boot: Registers -> Registers, program: Program): (t: System)
    requires WellFormed(s.sched)
    ensures WellFormed(t.sched)
    decreases |es|
  {
    if es == [] then s else AfterAll(After(s, es[0], boot, program), es[1..], boot, program)
  }

  /** The register file of task t: in the processor while it runs, in its saved state while it does not. */
  function RegistersOf(s: System, t: nat): Registers
    requires t < |s.sched.saved|
  {
    if s.sched.active && s.sched.running == t then s.regs else Resumed(s.sched.saved[t])
  }

  /** It is task t that does the work, if any. */
  predicate Answers(s: System, e: Event, t: nat) {
    e.Work? && !s.halted && s.sched.active && s.sched.running == t
  }

  /** The inputs that task t answers in a run. */
  function InputsOf(s: System, es: seq<Event>, t: nat, boot: Registers -> Registers, program: Program): seq<nat>
    requires WellFormed(s.sched)
    decreases |es|
  {
    if es == [] then [] else
    (if Answers(s, es[0], t) then [es[0].input] else [])
    + InputsOf(After(s, es[0], boot, program), es[1..], t, boot, program)
  }

  /** Task t alone: no interrupts, no other tasks. */
  function Alone(t: nat, r: Registers, inputs: seq<nat>, program: Program): Registers
    decreases |inputs|
  {
    if inputs == [] then r else Alone(t, program(t, r, inputs[0]), inputs[1..], program)
  }

  /** No event touches the registers of a task other than its own work. */
  lemma EventProjection(s: System, e: Event, t: nat, boot: Registers -> Registers, program: Program)
    requires WellFormed(s.sched) && t < |s.sched.saved|
    ensures t < |After(s, e, boot, program).sched.saved|
    ensures RegistersOf(After(s, e, boot, program), t) ==
            if Answers(s, e, t) then program(t, RegistersOf(s, t), e.input) else RegistersOf(s, t)
  {
    if e.Interrupt? {
      ResumeCaptured(s.regs, e.vector, e.error);
    }
  }

  /** With the interrupts erased, every task goes through a run of its own: over any interleaving, its registers
      are those it would have reached alone on the inputs it has answered. */
  lemma {:induction false} TraceProjection(s: System, es: seq<Event>, t: nat, boot: Registers -> Registers,
                                           program: Program)
    requires WellFormed(s.sched) && t < |s.sched.saved|
    ensures t < |AfterAll(s, es, boot, program).sched.saved|
    ensures RegistersOf(AfterAll(s, es, boot, program), t) ==
            Alone(t, RegistersOf(s, t), InputsOf(s, es, t, boot, program), program)
    decreases |es|
  {
    if es != [] {
      hide After, RegistersOf;
      var u := After(s, es[0], boot, program);
      EventProjection(s, es[0], t, boot, program);
      TraceProjection(u, es[1..], t, boot, program);
      var rest := InputsOf(u, es[1..], t, boot, program);
      if Answers(s, es[0], t) {
        assert ([es[0].input] + rest)[1..] == rest;
      } else {
        assert [] + rest == rest;
      }
    }
  }

  /** The saved state of a task that is neither running nor being switched away from is not touched. */
  lemma SavedUntouched(s: System, e: Event, t: nat, boot: Registers -> Registers, program: Program)
    requires WellFormed(s.sched) && t < |s.sched.saved| && !(s.sched.active && s.sched.running == t)
    ensures After(s, e, boot, program).sched.saved[t] == s.sched.saved[t]
  {
  }

  /** The register and stack side of an interrupt whose handler puts `next` in place of the frame. */
  method Exchange(cpu: Processor, tasks: TaskManager, ghost frame: TaskState, ghost below: Stack)
    requires tasks.Valid() && cpu.stack == Layout(frame, below)
    modifies cpu, tasks, Objects(tasks.tasks.nodes)
    ensures tasks.Valid()
    ensures WellFormed(old(tasks.View())) && tasks.View() == Scheduled(old(tasks.View()), frame)
    ensures cpu.stack == Layout(tasks.View().saved[tasks.View().running], below)
  {
    hide Layout, Scheduled, Successor;
    var t := cpu.TakeFrame(frame, below);
    var next := tasks.Schedule(t);
    cpu.PutFrame(next, frame, below);
  }

  /** The interrupted registers are saved with the task that was running, if any, and the next task of the list is
      resumed: the one behind it, or the first one if there is none or nothing was running. */
  ghost predicate Switched(a: Sched, b: Sched, was: Registers, now: Registers, vector: nat, error: nat) {
    && b.active && |b.saved| == |a.saved|
    && b.running == (if a.active && a.running + 1 < |a.saved| then a.running + 1 else 0) < |b.saved|
    && now == Resumed(b.saved[b.running])
    && forall t :: 0 <= t < |a.saved| ==>
         b.saved[t] == if a.active && t == a.running then Captured(was, vector, error) else a.saved[t]
  }

  /** The vectors, in numbers: exceptions stop the system, hardware interrupts switch tasks, and the rest do nothing. */
  lemma InterruptCases(s: System, vector: nat, error: nat, boot: Registers -> Registers, program: Program)
    requires WellFormed(s.sched) && !s.halted
    ensures var t := After(s, Interrupt(vector, error), boot, program);
            && (vector < 0x20 ==> t == s.(halted := true)) && (0x20 <= vector ==> !t.halted)
            && (0x20 <= vector <= 0x2F ==> Switched(s.sched, t.sched, s.regs, t.regs, vector, error))
            && (0x2F < vector ==> t == s)
  {
    ResumeCaptured(s.regs, vector, error);
  }

  /** The whole passage through stub, int_common, handle_interrupt and back; it ends in handle_interrupt if the
      vector is an exception. */
  method Passage(cpu: Processor, tasks: TaskManager, vector: nat, error: nat,
                 ghost boot: Registers -> Registers, ghost program: Program) returns (halted: bool)
    requires tasks.Valid() && (vector !in {8, 10, 11, 12, 13, 14, 17} ==> error == 0)
    modifies cpu, tasks, Objects(tasks.tasks.nodes)
    ensures tasks.Valid() && WellFormed(old(tasks.View()))
    ensures var before := System(old(cpu.regs), old(tasks.View()), false);
            var after := After(before, Interrupt(vector, error), boot, program);
            && tasks.View() == after.sched && halted == after.halted
            && (!halted ==> cpu.stack == old(cpu.stack) && cpu.regs == after.regs)
            && (halted ==> cpu.stack == Layout(Captured(old(cpu.regs), vector, error), old(cpu.stack)))
    ensures halted <==> vector < 0x20
    ensures !(0x20 <= vector <= 0x2F) ==> tasks.View() == old(tasks.View())
    ensures 0x2F < vector ==> cpu.regs == old(cpu.regs)
    ensures 0x20 <= vector <= 0x2F ==>
              Switched(old(tasks.View()), tasks.View(), old(cpu.regs), cpu.regs, vector, error)
  {
    hide Layout, Captured, Resumed, ReturnFrame, Scheduled, Successor, WellFormed, DistinctTasks, Switched;
    ghost var below, s, regs := cpu.stack, tasks.View(), cpu.regs;
    ghost var frame := Captured(cpu.regs, vector, error);
    ViewWellFormed(tasks);
    InterruptCases(System(cpu.regs, s, false), vector, error, boot, program);
    cpu.Deliver(vector, error);
    cpu.Save(vector, error, below);
    var task := cpu.TakeFrame(frame, below);
    CapturedVector(regs, vector, error);
    halted := IsException(task.interrupt);
    if halted {
      return;
    }
    if IsIrq(task.interrupt) {
      Exchange(cpu, tasks, frame, below);
      ghost var next := tasks.View();
      cpu.Restore(next.saved[next.running], below);
    } else {
      cpu.Restore(frame, below);
    }
  }

  lemma CapturedVector(r: Registers, vector: nat, error: nat)
    ensures Captured(r, vector, error).interrupt == vector
  {
  }

  lemma ViewWellFormed(tasks: TaskManager)
    requires tasks.Valid()
    ensures WellFormed(tasks.View())
  {
  }

  /** Whatever runs takes one step. */
  method Answer(cpu: Processor, tasks: TaskManager, input: nat, boot: Registers -> Registers, program: Program)
    requires tasks.Valid()
    modifies cpu
    ensures cpu.stack == old(cpu.stack)
    ensures cpu.regs == if tasks.active then program(tasks.position, old(cpu.regs), input) else boot(old(cpu.regs))
  {
    if !tasks.active {
      cpu.regs := boot(cpu.regs);
      return;
    }
    var n, i := tasks.tasks.start, 0;
    while n != tasks.running
      invariant 0 <= i <= tasks.position && n == tasks.tasks.nodes[i]
      decreases tasks.position - i
    {
      n, i := n.Next, i + 1;
    }
    cpu.regs := program(i, cpu.regs, input);
  }

  /** One event, unless an exception has stopped everything. */
  method Happen(cpu: Processor, tasks: TaskManager, e: Event, boot: Registers -> Registers, program: Program)
    returns (halted: bool)
    requires tasks.Valid() && Deliverable(e)
    modifies cpu, tasks, tasks.tasks, tasks.tasks.nodes, Objects(tasks.tasks.nodes)
    ensures tasks.Valid()
    ensures forall k :: 0 <= k < |tasks.tasks.nodes| ==>
              tasks.tasks.nodes[k] in old(tasks.tasks.nodes) || fresh(tasks.tasks.nodes[k])
    ensures forall o :: o in Objects(tasks.tasks.nodes) ==> o in old(Objects(tasks.tasks.nodes)) || fresh(o)
    ensures WellFormed(old(tasks.View()))
    ensures var after := After(System(old(cpu.regs), old(tasks.View()), false), e, boot, program);
            && tasks.View() == after.sched && halted == after.halted
            && (!halted ==> cpu.regs == after.regs && cpu.stack == old(cpu.stack))
  {
    hide Captured, Resumed, Scheduled, Layout;
    ViewWellFormed(tasks);
    halted := false;
    match e {
      case Work(input) => Answer(cpu, tasks, input, boot, program);
      case Interrupt(vector, error) => halted := Passage(cpu, tasks, vector, error, boot, program);
      case Arrival(state) =>
        var task := new Task(state);
        tasks.AddTask(task);
    }
  }

  /** The processor pushes an error code only where it does so. */
  predicate Deliverable(e: Event) {
    e.Interrupt? && e.vector !in {8, 10, 11, 12, 13, 14, 17} ==> e.error == 0
  }

  /** Any sequence of events on the processor and the linked list of tasks is a run of the model. */
  method Live(cpu: Processor, tasks: TaskManager, es: seq<Event>, boot: Registers -> Registers, program: Program)
    returns (halted: bool)
    requires tasks.Valid() && forall k :: 0 <= k < |es| ==> Deliverable(es[k])
    modifies cpu, tasks, tasks.tasks, tasks.tasks.nodes, Objects(tasks.tasks.nodes)
    ensures tasks.Valid() && WellFormed(old(tasks.View()))
    ensures var after := AfterAll(System(old(cpu.regs), old(tasks.View()), false), es, boot, program);
            && tasks.View() == after.sched && halted == after.halted
            && (!halted ==> cpu.regs == after.regs && cpu.stack == old(cpu.stack))
  {
    hide After, Deliverable, WellFormed, DistinctTasks;
    ViewWellFormed(tasks);
    ghost var s := System(cpu.regs, tasks.View(), false);
    halted := false;
    var i := 0;
    assert es[0..] == es;
    while i < |es| && !halted
      invariant 0 <= i <= |es|
      invariant tasks.Valid()
      invariant forall k :: 0 <= k < |tasks.tasks.nodes| ==>
                  tasks.tasks.nodes[k] in old(tasks.tasks.nodes) || fresh(tasks.tasks.nodes[k])
      invariant forall o :: o in Objects(tasks.tasks.nodes) ==> o in old(Objects(tasks.tasks.nodes)) || fresh(o)
      invariant WellFormed(tasks.View())
      invariant !halted ==>
                  var now := System(cpu.regs, tasks.View(), false);
                  AfterAll(now, es[i..], boot, program) == AfterAll(s, es, boot, program)
      invariant !halted ==> cpu.stack == old(cpu.stack)
      invariant halted ==> AfterAll(s, es, boot, program).halted && AfterAll(s, es, boot, program).sched == tasks.View()
    {
      ghost var before := System(cpu.regs, tasks.View(), false);
      assert es[i..][0] == es[i] && es[i..][1..] == es[i + 1..];
      halted := Happen(cpu, tasks, es[i], boot, program);
      ViewWellFormed(tasks);
      if halted {
        HaltedStays(After(before, es[i], boot, program), es[i + 1..], boot, program);
      }
      i := i + 1;
    }
  }

  /** Nothing happens after an exception. */
  lemma {:induction false} HaltedStays(s: System, es: seq<Event>, boot: Registers -> Registers, program: Program)
    requires WellFormed(s.sched) && s.halted
    ensures AfterAll(s, es, boot, program) == s
    decreases |es|
  {
    if es != [] {
      HaltedStays(s, es[1..], boot, program);
    }
  }

  /** Schedule as it affects whose turn it is. */
  datatype Call = Schedule(frame: TaskState) | Append(state: TaskState)

  function AfterCall(s: Sched, c: Call): (t: Sched)
    requires WellFormed(s)
    ensures WellFormed(t)
  {
    match c
    case Schedule(frame) => Scheduled(s, frame)
    case Append(state) => s.(saved := s.saved + [state])
  }

  /** Whether task j is switched to at some point of the calls. */
  predicate GetsTurn(s: Sched, cs: seq<Call>, j: nat)
    requires WellFormed(s)
    decreases |cs|
  {
    cs != [] && ((cs[0].Schedule? && Successor(s) == j) || GetsTurn(AfterCall(s, cs[0]), cs[1..], j))
  }

  function Schedules(cs: seq<Call>): nat {
    if cs == [] then 0 else (if cs[0].Schedule? then 1 else 0) + Schedules(cs[1..])
  }

  function Appends(cs: seq<Call>): nat {
    if cs == [] then 0 else (if cs[0].Append? then 1 else 0) + Appends(cs[1..])
  }

  /** How many calls of Schedule it takes until task j runs, if nothing is appended. */
  function Distance(s: Sched, j: nat): nat
    requires WellFormed(s) && j < |s.saved|
  {
    var n := Successor(s);
    1 + if n <= j then j - n else |s.saved| - n + j
  }

  lemma AppendDistance(s: Sched, state: TaskState, j: nat)
    requires WellFormed(s) && j < |s.saved|
    ensures Distance(AfterCall(s, Append(state)), j) <= Distance(s, j) + 1
  {
  }

  /** Fairness: once the scheduler is active, every task of the list runs within as many calls of Schedule as
      there are tasks, plus one for each task appended in the meantime. */
  lemma {:induction false} EveryTaskRuns(s: Sched, cs: seq<Call>, j: nat)
    requires WellFormed(s) && s.active && j < |s.saved|
    requires Schedules(cs) >= Distance(s, j) + Appends(cs)
    ensures GetsTurn(s, cs, j)
    decreases |cs|
  {
    if cs[0].Append? {
      AppendDistance(s, cs[0].state, j);
    }
    if !(cs[0].Schedule? && Successor(s) == j) {
      EveryTaskRuns(AfterCall(s, cs[0]), cs[1..], j);
    }
  }

  lemma EveryTaskRunsInTime(s: Sched, cs: seq<Call>, j: nat)
    requires WellFormed(s) && s.active && j < |s.saved|
    requires Schedules(cs) >= |s.saved| + Appends(cs)
    ensures GetsTurn(s, cs, j)
  {
    EveryTaskRuns(s, cs, j);
  }

  /** The task that runs after k calls of Schedule on an unchanged list. */
  function Turn(s: Sched, frames: seq<TaskState>, k: nat): nat
    requires WellFormed(s) && k < |frames|
    decreases k
  {
    if k == 0 then Successor(s) else Turn(Scheduled(s, frames[0]), frames[1..], k - 1)
  }

  /** Position a of a list of n, counted round the end once. */
  function Wrapped(a: nat, n: nat): int {
    if a < n then a else a - n
  }

  lemma {:induction false} TurnsCycle(s: Sched, frames: seq<TaskState>, k: nat)
    requires WellFormed(s) && k < |frames| && k < |s.saved|
    ensures Turn(s, frames, k) == Wrapped(Successor(s) + k, |s.saved|)
    decreases k
  {
    if k > 0 {
      TurnsCycle(Scheduled(s, frames[0]), frames[1..], k - 1);
    }
  }

  /** Any n consecutive calls on an unchanged list of n tasks run each task exactly once. */
  lemma RoundRobin(s: Sched, frames: seq<TaskState>, j: nat)
    requires WellFormed(s) && |frames| == |s.saved| && j < |s.saved|
    ensures exists k :: 0 <= k < |frames| && Turn(s, frames, k) == j && forall i :: 0 <= i < |frames| && i != k ==>
              Turn(s, frames, i) != j
  {
    forall k | 0 <= k < |frames|
      ensures Turn(s, frames, k) == Wrapped(Successor(s) + k, |s.saved|)
    {
      TurnsCycle(s, frames, k);
    }
    var k := Distance(s, j) - 1;
    assert Turn(s, frames, k) == j;
  }

  /** A hardware interrupt. */
  predicate Delivery(e: Event) {
    e.Interrupt? && 0x20 <= e.vector <= 0x2F
  }

  function Deliveries(es: seq<Event>): nat {
    if es == [] then 0 else (if Delivery(es[0]) then 1 else 0) + Deliveries(es[1..])
  }

  function Arrivals(es: seq<Event>): nat {
    if es == [] then 0 else (if es[0].Arrival? then 1 else 0) + Arrivals(es[1..])
  }

  /** No exception among the events. */
  predicate Sane(es: seq<Event>) {
    forall k :: 0 <= k < |es| && es[k].Interrupt? ==> 0x20 <= es[k].vector
  }

  /** Event k is a hardware interrupt from which task j returns. */
  predicate Resumes(s: System, es: seq<Event>, k: nat, j: nat, boot: Registers -> Registers, program: Program)
    requires WellFormed(s.sched)
  {
    k < |es| && Delivery(es[k]) &&
    var t := AfterAll(s, es[..k + 1], boot, program);
    t.sched.active && t.sched.running == j
  }

  /** One event, as it affects whose turn it is. */
  lemma EventTurn(s: System, e: Event, boot: Registers -> Registers, program: Program)
    requires WellFormed(s.sched) && !s.halted && (e.Interrupt? ==> 0x20 <= e.vector)
    ensures var t := After(s, e, boot, program);
            && !t.halted && |t.sched.saved| == |s.sched.saved| + (if e.Arrival? then 1 else 0)
            && (if Delivery(e) then t.sched.active && t.sched.running == Successor(s.sched)
                else t.sched.active == s.sched.active && t.sched.running == s.sched.running)
  {
  }

  /** A later event is the same event of the rest. */
  lemma ResumesLater(s: System, es: seq<Event>, k: nat, j: nat, boot: Registers -> Registers, program: Program)
    requires WellFormed(s.sched) && es != []
    ensures Resumes(After(s, es[0], boot, program), es[1..], k, j, boot, program) ==>
              Resumes(s, es, k + 1, j, boot, program)
  {
    hide After;
    if k + 1 < |es| {
      assert es[..k + 2][1..] == es[1..][..k + 1];
    }
  }

  /** Fairness, over whole runs: without exceptions, every task is resumed at some point of any run with as many
      hardware interrupts as there are tasks in the beginning, and one more for each that arrives. */
  lemma {:induction false} EveryTaskResumed(s: System, es: seq<Event>, j: nat, boot: Registers -> Registers,
                                            program: Program)
    returns (k: nat)
    requires WellFormed(s.sched) && !s.halted && j < |s.sched.saved| && Sane(es)
    requires Deliveries(es) >= Distance(s.sched, j) + Arrivals(es)
    ensures Resumes(s, es, k, j, boot, program)
    decreases |es|
  {
    var u := After(s, es[0], boot, program);
    EventTurn(s, es[0], boot, program);
    if Delivery(es[0]) && Successor(s.sched) == j {
      k := 0;
      assert es[..1][0] == es[0] && es[..1][1..] == [];
      assert AfterAll(s, es[..1], boot, program) == AfterAll(u, [], boot, program) == u;
    } else {
      hide After;
      k := EveryTaskResumed(u, es[1..], j, boot, program);
      ResumesLater(s, es, k, j, boot, program);
      k := k + 1;
    }
  }

  /** The task that the first hardware interrupt resumes. */
  function FirstTurn(s: Sched): nat
    requires WellFormed(s)
  {
    if s.active && s.running + 1 < |s.saved| then s.running + 1 else 0
  }

  /** Whose turn it is at the end of a run in which no task arrives. */
  lemma {:induction false} TurnAfter(s: System, es: seq<Event>, boot: Registers -> Registers, program: Program)
    requires WellFormed(s.sched) && !s.halted && Sane(es) && Arrivals(es) == 0
    ensures |AfterAll(s, es, boot, program).sched.saved| == |s.sched.saved|
    ensures 0 < Deliveries(es) <= |s.sched.saved| ==>
              var t := AfterAll(s, es, boot, program).sched;
              t.active && t.running == Wrapped(FirstTurn(s.sched) + Deliveries(es) - 1, |s.sched.saved|)
    ensures Deliveries(es) == 0 ==>
              var t := AfterAll(s, es, boot, program).sched;
              t.active == s.sched.active && t.running == s.sched.running
    decreases |es|
  {
    if es != [] {
      hide After;
      EventTurn(s, es[0], boot, program);
      TurnAfter(After(s, es[0], boot, program), es[1..], boot, program);
    }
  }

  /** The event with the d-th hardware interrupt. */
  lemma {:induction false} NthDelivery(es: seq<Event>, d: nat) returns (k: nat)
    requires 0 < d <= Deliveries(es)
    ensures k < |es| && Delivery(es[k]) && Deliveries(es[..k + 1]) == d
    decreases |es|
  {
    if Delivery(es[0]) && d == 1 {
      k := 0;
      assert es[..1][1..] == [];
    } else {
      k := NthDelivery(es[1..], if Delivery(es[0]) then d - 1 else d);
      assert es[..k + 2][1..] == es[1..][..k + 1];
      k := k + 1;
    }
  }

  /** Cutting a run in two. */
  lemma {:induction false} Prefixes(es: seq<Event>, k: nat)
    requires k <= |es|
    ensures Deliveries(es) == Deliveries(es[..k]) + Deliveries(es[k..])
    ensures Arrivals(es) == Arrivals(es[..k]) + Arrivals(es[k..])
    decreases k
  {
    if k > 0 {
      assert es[..k][1..] == es[1..][..k - 1] && es[k..] == es[1..][k - 1..];
      Prefixes(es[1..], k - 1);
    } else {
      assert es[..0] == [] && es[0..] == es;
    }
  }

  lemma OneDelivery(e: Event)
    ensures Delivery(e) ==> Deliveries([e]) == 1
  {
  }

  /** Later interrupts have a greater number. */
  lemma DeliveriesGrow(es: seq<Event>, i: nat, k: nat)
    requires i < k < |es| && Delivery(es[k])
    ensures Deliveries(es[..i + 1]) < Deliveries(es[..k + 1])
  {
    Prefixes(es[..k + 1], i + 1);
    Prefixes(es[..k + 1], k);
    assert es[..k + 1][..i + 1] == es[..i + 1] && es[..k + 1][k..] == [es[k]] && es[..k + 1][..k] == es[..k];
    Prefixes(es[..k], i + 1);
    assert es[..k][..i + 1] == es[..i + 1];
    OneDelivery(es[k]);
  }

  /** What event k does, by the number of hardware interrupts up to it. */
  lemma ResumesBy(s: System, es: seq<Event>, k: nat, j: nat, boot: Registers -> Registers, program: Program)
    requires WellFormed(s.sched) && !s.halted && Sane(es) && Arrivals(es) == 0
    requires Deliveries(es) <= |s.sched.saved| && k < |es| && Delivery(es[k])
    ensures 0 < Deliveries(es[..k + 1]) <= Deliveries(es)
    ensures Resumes(s, es, k, j, boot, program) <==>
              j == Wrapped(FirstTurn(s.sched) + Deliveries(es[..k + 1]) - 1, |s.sched.saved|)
  {
    hide After, AfterAll, Deliveries, Arrivals, Delivery;
    Prefixes(es, k + 1);
    Prefixes(es[..k + 1], k);
    assert es[..k + 1][k..] == [es[k]];
    OneDelivery(es[k]);
    var upto := es[..k + 1];
    assert Sane(upto);
    TurnAfter(s, upto, boot, program);
  }

  /** Round robin, over whole runs: in any run with as many hardware interrupts as there are tasks, with no exception
      and no arrival, each task is resumed from exactly one. */
  lemma EachResumedOnce(s: System, es: seq<Event>, j: nat, boot: Registers -> Registers, program: Program)
    returns (k: nat)
    requires WellFormed(s.sched) && !s.halted && j < |s.sched.saved| && Sane(es) && Arrivals(es) == 0
    requires Deliveries(es) == |s.sched.saved|
    ensures Resumes(s, es, k, j, boot, program)
    ensures forall i: nat :: Resumes(s, es, i, j, boot, program) ==> i == k
  {
    hide Resumes, Sane;
    var f, n := FirstTurn(s.sched), |s.sched.saved|;
    k := NthDelivery(es, if f <= j then j - f + 1 else n - f + j + 1);
    ResumesBy(s, es, k, j, boot, program);
    forall i: nat | Resumes(s, es, i, j, boot, program)
      ensures i == k
    {
      ResumesDelivery(s, es, i, j, boot, program);
      ResumesBy(s, es, i, j, boot, program);
      if i < k {
        DeliveriesGrow(es, i, k);
      } else if k < i {
        DeliveriesGrow(es, k, i);
      }
    }
  }

  lemma ResumesDelivery(s: System, es: seq<Event>, k: nat, j: nat, boot: Registers -> Registers, program: Program)
    requires WellFormed(s.sched) && Resumes(s, es, k, j, boot, program)
    ensures k < |es| && Delivery(es[k])
  {
  }
}
