/** The free frames of memory.cpp: a stack threaded through the first word of every free frame. */
module Frames {
  import opened Words
  import opened Translation
  import opened Hardware

  /** The address of frame f as a word in memory. */
  function Pointer(f: Frame): Word {
    ZERO.(frame := f)
  }

  /** As a 64-bit number it is the address of the frame. */
  lemma PointerNumber(f: Frame)
    ensures Encoded(Pointer(f)) == AddressOf(f)
  {
    hide FrameBits;
    JoinedAddress(FrameBits(f));
  }

  lemma JoinedAddress(b: bv40)
    ensures Join(Bits(false, 0, 0, 0, false, 0, b, 0)) == (b as bv64) << 12
  {
  }

  /** The word of its page that the address of a 64-bit field names: bits 3 to 11. */
  function Position(address: Word): (i: Index)
    ensures address == Pointer(address.frame) ==> i == 0
  {
    address.cache as int + 4 * (address.mid as int) + (if address.large then 16 else 0) + 32 * (address.top as int)
  }

  const UINT64_MAX: nat := 0xFFFF_FFFF_FFFF_FFFF

  /** What the word at position k of the chain holds: the next free frame, or the initial stack pointer. */
  function Link(free: seq<Frame>, k: nat, base: Word): Word {
    if k < |free| then Pointer(free[k]) else base
  }

  /** The free stack as it lies in memory, topmost frame first. */
  ghost predicate Chain(m: Memory, stack: Word, free: seq<Frame>, base: Word) {
    && stack == Link(free, 0, base)
    && forall k :: 0 <= k < |free| ==> m[Slot(free[k], 0)] == Link(free, k + 1, base)
  }

  ghost predicate Distinct(free: seq<Frame>) {
    forall j, k :: 0 <= j < k < |free| ==> free[j] != free[k]
  }

  lemma ChainPop(m: Memory, stack: Word, free: seq<Frame>, base: Word)
    requires Chain(m, stack, free, base) && free != []
    ensures Chain(m, m[Slot(free[0], 0)], free[1..], base)
  {
    assert m[Slot(free[0], 0)] == Link(free, 1, base);
    forall k | 0 <= k < |free[1..]|
      ensures m[Slot(free[1..][k], 0)] == Link(free[1..], k + 1, base)
    {
      assert free[1..][k] == free[k + 1];
    }
  }

  lemma ChainKept(a: Memory, b: Memory, stack: Word, free: seq<Frame>, base: Word)
    requires Chain(a, stack, free, base) && forall f :: f in free ==> b[Slot(f, 0)] == a[Slot(f, 0)]
    ensures Chain(b, stack, free, base)
  {
  }

  lemma ChainPush(m: Memory, stack: Word, free: seq<Frame>, base: Word, f: Frame)
    requires Chain(m, stack, free, base) && f !in free
    ensures Chain(m[Slot(f, 0) := stack], Pointer(f), [f] + free, base)
  {
    var b := m[Slot(f, 0) := stack];
    forall k | 0 <= k < |[f] + free|
      ensures b[Slot(([f] + free)[k], 0)] == Link([f] + free, k + 1, base)
    {
      if k > 0 {
        assert ([f] + free)[k] == free[k - 1];
      }
    }
  }

  class MemoryStack {
    const machine: Machine
    /** The address of the field `bottom`. */
    const bottom: Word
    var stack: Word
    var size: nat
    ghost var free: seq<Frame>
    /** What the stack pointer was when nothing had been pushed yet. */
    ghost const base: Word

    constructor (machine: Machine, bottom: Word, base: Word)
      ensures this.machine == machine && this.bottom == bottom && this.base == base
      ensures size == 0 && free == [] && Valid()
    {
      this.machine, this.bottom, this.base := machine, bottom, base;
      stack, size, free := base, 0, [];
    }

    /** The stack pointer and the links make a chain of exactly `size` different frames. */
    ghost predicate Valid()
      reads this, machine
    {
      && Chain(machine.mem, stack, free, base) && Distinct(free) && size == |free|
      && forall k :: 0 <= k < |free| ==> Pointer(free[k]) != bottom
    }

    method Push(address: Frame)
      requires Valid() && address !in free && Pointer(address) != bottom
      requires Settled(machine.mem, machine.tlb, machine.cr3, PageOf(address), address)
      modifies this, machine`mem, machine`tlb
      ensures Valid() && free == [address] + old(free)
      ensures machine.mem == old(machine.mem)[Slot(address, 0) := old(stack)]
      ensures Speculated(old(machine.tlb), machine.tlb, machine.mem, machine.cr3)
    {
      ChainPush(machine.mem, stack, free, base, address);
      machine.Store(PageOf(address), 0, stack, address);
      stack := Pointer(address);
      size := size + 1;
      free := [address] + free;
    }

    /** With nothing pushed, what happens depends on the field `stack`: if it still holds the address of the field
        `bottom`, the processor is halted for good; otherwise the address it holds is handed out, and the word found
        there taken for the next link.  That address is in a page that shows frame `reached`. */
    method Pop(ghost reached: Frame) returns (r: Popped)
      requires Valid()
      requires stack != bottom ==> Settled(machine.mem, machine.tlb, machine.cr3, PageOf(stack.frame), reached)
      requires free != [] ==> reached == free[0]
      modifies this
      ensures old(stack) == bottom ==> r == Stopped && stack == old(stack) && size == old(size) && free == old(free)
      ensures old(free) != [] ==> Valid() && r == Taken(Pointer(old(free)[0])) && free == old(free)[1..]
      ensures old(free) == [] && old(stack) != bottom ==>
                && r == Taken(old(stack)) && free == [] && size == UINT64_MAX
                && stack == machine.mem[Slot(reached, Position(old(stack)))]
    {
      if stack == bottom {
        return Stopped;
      }
      if free != [] {
        ChainPop(machine.mem, stack, free, base);
      }
      var page := stack;
      stack := machine.Load(PageOf(stack.frame), Position(stack), reached);
      size := if size == 0 then UINT64_MAX else size - 1;
      free := if free != [] then free[1..] else [];
      r := Taken(page);
    }
  }

  /** What Pop comes to: the processor is halted, or an address is handed out. */
  datatype Popped = Stopped | Taken(address: Word)

  datatype Allocation = Null | Halted | Granted(frame: Frame)

  class MemoryManager {
    const machine: Machine
    const stack: MemoryStack

    constructor (machine: Machine, stack: MemoryStack)
      requires stack.machine == machine
      ensures this.machine == machine && this.stack == stack
    {
      this.machine, this.stack := machine, stack;
    }

    ghost predicate Valid()
      reads this, stack, machine
    {
      stack.machine == machine && stack.Valid()
    }

    /** Requests for anything but one high frame yield NULL; with no frame left the processor halts. */
    method PAlloc(blocks: nat, low: bool) returns (r: Allocation)
      requires Valid()
      requires stack.free != [] ==>
                 Settled(machine.mem, machine.tlb, machine.cr3, PageOf(stack.free[0]), stack.free[0])
      modifies stack
      ensures Valid()
      ensures low || blocks != 1 ==> r == Null && stack.free == old(stack.free)
      ensures !low && blocks == 1 && old(stack.free) == [] ==> r == Halted && stack.free == []
      ensures !low && blocks == 1 && old(stack.free) != [] ==>
                r == Granted(old(stack.free)[0]) && stack.free == old(stack.free)[1..]
    {
      if low || blocks != 1 {
        return Null;
      }
      if stack.size == 0 {
        return Halted;
      }
      var popped := stack.Pop(if stack.free != [] then stack.free[0] else 0);
      match popped {
        case Taken(address) => r := Granted(address.frame);
        case Stopped => r := Halted;
      }
    }

    /** Giving a frame back writes the link into the frame through the page that bears its address. */
    method PFree(block: Frame)
      requires Valid() && block !in stack.free && Pointer(block) != stack.bottom
      requires Settled(machine.mem, machine.tlb, machine.cr3, PageOf(block), block)
      modifies stack, machine`mem, machine`tlb
      ensures Valid() && stack.free == [block] + old(stack.free)
      ensures machine.mem == old(machine.mem)[Slot(block, 0) := old(stack.stack)]
      ensures Speculated(old(machine.tlb), machine.tlb, machine.mem, machine.cr3)
    {
      stack.Push(block);
    }
  }
}
