/** isrs.asm as a push and pop machine: the frame an interrupt leaves on the stack is a TaskState. */
module Interrupts {

  /** Segment registers hold 16 bits; everything else holds 64 and is only moved about. */
  type Selector = n: nat | n < 0x1_0000

  datatype Registers = Registers(
    rax: nat, rbx: nat, rcx: nat, rdx: nat, rsi: nat, rdi: nat, rbp: nat,
    r8: nat, r9: nat, r10: nat, r11: nat, r12: nat, r13: nat, r14: nat, r15: nat,
    ds: Selector, es: Selector, fs: Selector, gs: Selector,
    rip: nat, cs: Selector, rflags: nat, rsp: nat, ss: Selector)

  /** The structure of task.h, in the order of its fields. */
  datatype TaskState = TaskState(
    ds: nat, es: nat, fs: nat, gs: nat, rax: nat, rbx: nat, rcx: nat, rdx: nat, rsi: nat, rdi: nat, rbp: nat,
    r8: nat, r9: nat, r10: nat, r11: nat, r12: nat, r13: nat, r14: nat, r15: nat,
    interrupt: nat, error: nat, rip: nat, cs: nat, rflags: nat, rsp: nat, ss: nat)

  /** A stack in memory, lowest address first. */
  datatype Stack = Bottom | Word(top: nat, rest: Stack)

  /** The structure as it lies in memory on top of other words, field by field. */
  function Layout(t: TaskState, below: Stack): Stack {
    Word(t.ds, Word(t.es, Word(t.fs, Word(t.gs, General(t, Word(t.interrupt, Word(t.error, ReturnFrame(t, below))))))))
  }

  function General(t: TaskState, below: Stack): Stack {
    Word(t.rax, Word(t.rbx, Word(t.rcx, Word(t.rdx, Word(t.rsi, Word(t.rdi, Word(t.rbp,
    Word(t.r8, Word(t.r9, Word(t.r10, Word(t.r11, Word(t.r12, Word(t.r13, Word(t.r14, Word(t.r15, below)))))))))))))))
  }

  function ReturnFrame(t: TaskState, below: Stack): Stack {
    Word(t.rip, Word(t.cs, Word(t.rflags, Word(t.rsp, Word(t.ss, below)))))
  }

  function Captured(r: Registers, vector: nat, error: nat): TaskState {
    TaskState(r.ds, r.es, r.fs, r.gs, r.rax, r.rbx, r.rcx, r.rdx, r.rsi, r.rdi, r.rbp,
              r.r8, r.r9, r.r10, r.r11, r.r12, r.r13, r.r14, r.r15,
              vector, error, r.rip, r.cs, r.rflags, r.rsp, r.ss)
  }

  /** What a TaskState means once it is back in the registers: selectors lose all but 16 bits. */
  function Resumed(t: TaskState): Registers {
    Registers(t.rax, t.rbx, t.rcx, t.rdx, t.rsi, t.rdi, t.rbp,
              t.r8, t.r9, t.r10, t.r11, t.r12, t.r13, t.r14, t.r15,
              t.ds % 0x1_0000, t.es % 0x1_0000, t.fs % 0x1_0000, t.gs % 0x1_0000,
              t.rip, t.cs % 0x1_0000, t.rflags, t.rsp, t.ss % 0x1_0000)
  }

  /** The vectors for which the processor pushes an error code itself. */
  predicate PushesErrorCode(vector: nat) {
    vector == 8 || 10 <= vector <= 14 || vector == 17
  }

  /** The processor with the stack that interrupts use; the top of the stack comes first. */
  class Processor {
    var regs: Registers
    var stack: Stack

    constructor (regs: Registers)
      ensures this.regs == regs && stack == Bottom
    {
      this.regs, stack := regs, Bottom;
    }

    method Push(w: nat)
      modifies `stack
      ensures stack == Word(w, old(stack))
    {
      stack := Word(w, stack);
    }

    method Pop() returns (w: nat)
      requires stack.Word?
      modifies `stack
      ensures Word(w, stack) == old(stack)
    {
      w := stack.top;
      stack := stack.rest;
    }

    /** The processor's own part of an interrupt, and the stub of the vector: stubs of vectors for which the
        processor pushes no error code push a zero in its place. */
    method Deliver(vector: nat, error: nat)
      requires vector !in {8, 10, 11, 12, 13, 14, 17} ==> error == 0
      modifies `stack
      ensures stack == Word(vector, Word(error, ReturnFrame(Captured(regs, vector, error), old(stack))))
    {
      Push(regs.ss);
      Push(regs.rsp);
      Push(regs.rflags);
      Push(regs.cs);
      Push(regs.rip);
      if PushesErrorCode(vector) {
        Push(error);
      } else {
        Push(0);
      }
      Push(vector);
    }

    /** int_common up to the call of handle_interrupt: what the stub has left becomes a TaskState. */
    method Save(ghost vector: nat, ghost error: nat, ghost below: Stack)
      requires stack == Word(vector, Word(error, ReturnFrame(Captured(regs, vector, error), below)))
      modifies this
      ensures stack == Layout(Captured(old(regs), vector, error), below)
    {
      Push(regs.r15);
      Push(regs.r14);
      Push(regs.r13);
      Push(regs.r12);
      Push(regs.r11);
      Push(regs.r10);
      Push(regs.r9);
      Push(regs.r8);
      Push(regs.rbp);
      Push(regs.rdi);
      Push(regs.rsi);
      Push(regs.rdx);
      Push(regs.rcx);
      Push(regs.rbx);
      Push(regs.rax);
      Push(regs.gs);
      Push(regs.fs);
      regs := regs.(rax := 0);
      regs := regs.(rax := regs.es);
      Push(regs.rax);
      regs := regs.(rax := regs.ds);
      Push(regs.rax);
      var pointer: nat := *;
      regs := regs.(rdi := pointer);
    }

    /** The frame that handle_interrupt is pointed to, read off the stack. */
    method TakeFrame(ghost t: TaskState, ghost below: Stack) returns (frame: TaskState)
      requires stack == Layout(t, below)
      ensures frame == t
    {
      var a := stack;
      var b := a.rest.rest.rest.rest;
      var c := b.rest.rest.rest.rest.rest.rest.rest;
      var d := c.rest.rest.rest.rest.rest.rest.rest.rest;
      frame := TaskState(a.top, a.rest.top, a.rest.rest.top, a.rest.rest.rest.top,
                         b.top, b.rest.top, b.rest.rest.top, b.rest.rest.rest.top, b.rest.rest.rest.rest.top,
                         b.rest.rest.rest.rest.rest.top, b.rest.rest.rest.rest.rest.rest.top,
                         c.top, c.rest.top, c.rest.rest.top, c.rest.rest.rest.top, c.rest.rest.rest.rest.top,
                         c.rest.rest.rest.rest.rest.top, c.rest.rest.rest.rest.rest.rest.top,
                         c.rest.rest.rest.rest.rest.rest.rest.top,
                         d.top, d.rest.top, d.rest.rest.top, d.rest.rest.rest.top, d.rest.rest.rest.rest.top,
                         d.rest.rest.rest.rest.rest.top, d.rest.rest.rest.rest.rest.rest.top);
    }

    /** The frame on the stack overwritten with another one. */
    method PutFrame(frame: TaskState, ghost t: TaskState, ghost below: Stack)
      requires stack == Layout(t, below)
      modifies `stack
      ensures stack == Layout(frame, below)
    {
      var d := stack.rest.rest.rest.rest.rest.rest.rest.rest.rest.rest.rest.rest.rest;
      d := d.rest.rest.rest.rest.rest.rest.rest.rest.rest.rest.rest.rest.rest;
      stack := Layout(frame, d);
    }

    /** int_common after the call: the frame on the stack, whoever wrote it, goes back into the registers. */
    method Restore(ghost t: TaskState, ghost below: Stack)
      requires stack == Layout(t, below)
      modifies this
      ensures stack == below && regs == Resumed(t)
    {
      var w := Pop();
      regs := regs.(rax := w);
      regs := regs.(ds := regs.rax % 0x1_0000);
      w := Pop();
      regs := regs.(rax := w);
      regs := regs.(es := regs.rax % 0x1_0000);
      w := Pop();
      regs := regs.(fs := w % 0x1_0000);
      w := Pop();
      regs := regs.(gs := w % 0x1_0000);
      PopGeneral(t, Word(t.interrupt, Word(t.error, ReturnFrame(t, below))));
      stack := stack.rest.rest;
      Return(t, below);
    }

    /** The fifteen general registers. */
    method PopGeneral(ghost t: TaskState, ghost below: Stack)
      requires stack == General(t, below)
      modifies this
      ensures stack == below
      ensures regs == old(regs).(rax := t.rax, rbx := t.rbx, rcx := t.rcx, rdx := t.rdx,
                                 rsi := t.rsi, rdi := t.rdi, rbp := t.rbp,
                                 r8 := t.r8, r9 := t.r9, r10 := t.r10, r11 := t.r11,
                                 r12 := t.r12, r13 := t.r13, r14 := t.r14, r15 := t.r15)
    {
      var w := Pop();
      regs := regs.(rax := w);
      w := Pop();
      regs := regs.(rbx := w);
      w := Pop();
      regs := regs.(rcx := w);
      w := Pop();
      regs := regs.(rdx := w);
      w := Pop();
      regs := regs.(rsi := w);
      w := Pop();
      regs := regs.(rdi := w);
      w := Pop();
      regs := regs.(rbp := w);
      w := Pop();
      regs := regs.(r8 := w);
      w := Pop();
      regs := regs.(r9 := w);
      w := Pop();
      regs := regs.(r10 := w);
      w := Pop();
      regs := regs.(r11 := w);
      w := Pop();
      regs := regs.(r12 := w);
      w := Pop();
      regs := regs.(r13 := w);
      w := Pop();
      regs := regs.(r14 := w);
      w := Pop();
      regs := regs.(r15 := w);
    }

    /** iretq */
    method Return(ghost t: TaskState, ghost below: Stack)
      requires stack == ReturnFrame(t, below)
      modifies this
      ensures stack == below
      ensures regs == old(regs).(rip := t.rip, cs := t.cs % 0x1_0000, rflags := t.rflags,
                                 rsp := t.rsp, ss := t.ss % 0x1_0000)
    {
      var w := Pop();
      regs := regs.(rip := w);
      w := Pop();
      regs := regs.(cs := w % 0x1_0000);
      w := Pop();
      regs := regs.(rflags := w);
      w := Pop();
      regs := regs.(rsp := w);
      w := Pop();
      regs := regs.(ss := w % 0x1_0000);
    }
  }

  /** An interrupt whose handler leaves the frame alone changes no register. */
  lemma ResumeCaptured(r: Registers, vector: nat, error: nat)
    ensures Resumed(Captured(r, vector, error)) == r
  {
  }
}
