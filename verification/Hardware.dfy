/** The processor as far as paging.cpp sees it: physical memory, the register CR3 and a translation
    lookaside buffer that may at any moment load the current translation of any page, may drop any entry,
    and keeps an entry it has loaded until that page is invalidated. */
module Hardware {
  import opened Words
  import opened Translation

  type Tlb = map<Page, Frame>

  /** The buffer holds no translation of p that contradicts the tables. */
  ghost predicate Agrees(m: Memory, tlb: Tlb, cr3: Frame, p: Page) {
    p in tlb ==> Walk(m, cr3, p) == Unmapped || Walk(m, cr3, p).frame == tlb[p]
  }

  /** Every access to p reaches frame f, whether or not the buffer answers it. */
  ghost predicate Settled(m: Memory, tlb: Tlb, cr3: Frame, p: Page, f: Frame) {
    && Walk(m, cr3, p) != Unmapped && Walk(m, cr3, p).frame == f
    && (p in tlb ==> tlb[p] == f)
  }

  /** Buffer b can arise from buffer a while memory m is in force. */
  ghost predicate Speculated(a: Tlb, b: Tlb, m: Memory, cr3: Frame) {
    forall p :: p in b ==> (p in a && a[p] == b[p]) || (Walk(m, cr3, p) != Unmapped && Walk(m, cr3, p).frame == b[p])
  }

  /** The state of the machine that translations depend on. */
  datatype View = View(mem: Memory, tlb: Tlb, cr3: Frame, spaces: set<Frame>)

  class Machine {
    var mem: Memory
    var cr3: Frame
    var tlb: Tlb
    /** The roots of all address spaces. */
    ghost var spaces: set<Frame>

    constructor (mem: Memory, cr3: Frame, ghost spaces: set<Frame>)
      ensures this.mem == mem && this.cr3 == cr3 && tlb == map[] && this.spaces == spaces
    {
      this.mem, this.cr3, this.tlb, this.spaces := mem, cr3, map[], spaces;
    }

    ghost function Now(): View
      reads this
    {
      View(mem, tlb, cr3, spaces)
    }

    /** What the processor may do to its buffer between two instructions. */
    method Speculate()
      modifies `tlb
      ensures Speculated(old(tlb), tlb, mem, cr3)
    {
      var n: nat := *;
      while n > 0
        invariant Speculated(old(tlb), tlb, mem, cr3)
      {
        var p: Page := *;
        var evict: bool := *;
        if evict {
          tlb := tlb - {p};
        } else {
          var t := Walk(mem, cr3, p);
          if t != Unmapped {
            tlb := tlb[p := t.frame];
          }
        }
        n := n - 1;
      }
    }

    method Load(p: Page, i: Index, ghost f: Frame) returns (w: Word)
      requires Settled(mem, tlb, cr3, p, f)
      ensures w == mem[Slot(f, i)]
    {
      var g := if p in tlb then tlb[p] else Walk(mem, cr3, p).frame;
      w := mem[Slot(g, i)];
    }

    method Store(p: Page, i: Index, w: Word, ghost f: Frame)
      requires Settled(mem, tlb, cr3, p, f)
      modifies `mem, `tlb
      ensures mem == old(mem)[Slot(f, i) := w]
      ensures Speculated(old(tlb), tlb, mem, cr3)
    {
      var g := if p in tlb then tlb[p] else Walk(mem, cr3, p).frame;
      mem := mem[Slot(g, i) := w];
      Speculate();
    }

    method Invlpg(p: Page)
      modifies `tlb
      ensures Speculated(old(tlb) - {p}, tlb, mem, cr3)
    {
      tlb := tlb - {p};
      Speculate();
    }
  }
}
