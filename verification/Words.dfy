/** The 64-bit words that physical memory is made of, read as paging entries.

    `PagingStructure` is the class of paging.cpp with its shifts and masks on a 64-bit word.
    `Bits` splits such a word into the fields the hardware looks at, and `Word` is the same split with
    the frame as a number.  Memory holds `Word`s; whatever is stored in a table has gone through
    `PagingStructure` or a constant of the source, and is turned into a `Word` by `EntryOf`. */
module Words {

  /** A physical frame number: bits 12 to 51 of an address. */
  type Frame = n: int | 0 <= n < 0x100_0000_0000

  /** An index into one of the 512-entry tables. */
  type Index = n: int | 0 <= n < 512

  datatype Bits = Bits(present: bool, access: bv2, cache: bv2, mid: bv2, large: bool, top: bv4,
                       frame: bv40, high: bv12)

  datatype Word = Word(present: bool, access: bv2, cache: bv2, mid: bv2, large: bool, top: bv4,
                       frame: Frame, high: bv12)

  const ZERO := Word(false, 0, 0, 0, false, 0, 0, 0)

  const USER_WRITABLE: bv2 := 3
  const WRITE_THROUGH: bv2 := 1

  function Split(w: bv64): Bits {
    Bits(w & 1 != 0, ((w >> 1) & 3) as bv2, ((w >> 3) & 3) as bv2, ((w >> 5) & 3) as bv2, w & 0x80 != 0,
         ((w >> 8) & 15) as bv4, ((w >> 12) & 0xFF_FFFF_FFFF) as bv40, (w >> 52) as bv12)
  }

  function Join(b: Bits): bv64 {
    (if b.present then 1 else 0) | ((b.access as bv64) << 1) | ((b.cache as bv64) << 3) | ((b.mid as bv64) << 5)
    | (if b.large then 0x80 else 0) | ((b.top as bv64) << 8) | ((b.frame as bv64) << 12) | ((b.high as bv64) << 52)
  }

  /** Splitting loses nothing: different words split differently. */
  lemma JoinSplits(w: bv64)
    ensures Join(Split(w)) == w
  {
  }

  /** Joining and splitting are inverse to each other. */
  lemma SplitJoins(b: Bits)
    ensures Split(Join(b)) == b
  {
  }

  predicate Odd(b: bv40) {
    b & 1 == 1
  }

  function Half(b: bv40): bv40 {
    b >> 1
  }

  /** The number that the k low bits of b stand for. */
  function Number(b: bv40, k: nat): (n: nat)
    ensures n < Two(k)
  {
    if k == 0 then 0 else 2 * Number(Half(b), k - 1) + if Odd(b) then 1 else 0
  }

  function Two(k: nat): nat {
    if k == 0 then 1 else 2 * Two(k - 1)
  }

  lemma FramePower()
    ensures Two(40) == 0x100_0000_0000
  {
    assert Two(10) == 1024;
    assert Two(20) == 1024 * 1024;
    assert Two(30) == 1024 * 1024 * 1024;
  }

  function FrameNumber(b: bv40): (f: Frame)
    ensures f == Number(b, 40)
  {
    FramePower();
    Number(b, 40)
  }

  function Numbered(b: Bits): Word {
    Word(b.present, b.access, b.cache, b.mid, b.large, b.top, FrameNumber(b.frame), b.high)
  }

  /** A 64-bit word read as an entry, and an address as the number of its frame. */
  function EntryOf(w: bv64): Word {
    Numbered(Split(w))
  }

  function FrameOf(address: bv64): Frame {
    FrameNumber(Split(address).frame)
  }

  /** c is two to the power k. */
  predicate Power(c: bv40, k: nat) {
    if k == 0 then c == 1 else !Odd(c) && Power(Half(c), k - 1)
  }

  /** A bit more: f is twice what it was, plus the bit. */
  function Appended(b: bv40, odd: bool): bv40 {
    if odd then (b << 1) | 1 else b << 1
  }

  lemma AppendedBits(b: bv40, odd: bool)
    requires b < 0x80_0000_0000
    ensures Half(Appended(b, odd)) == b && (Odd(Appended(b, odd)) <==> odd)
  {
  }

  lemma AppendedBelow(b: bv40, odd: bool, c: bv40)
    requires b < Half(c) && !Odd(c)
    ensures b < 0x80_0000_0000
    ensures Appended(b, odd) < c
  {
    if odd {
      OddBelow(b, c);
    } else {
      EvenBelow(b, c);
    }
  }

  lemma OddBelow(b: bv40, c: bv40)
    requires b < (c >> 1)
    requires c & 1 != 1
    ensures (b << 1) | 1 < c
  {
  }

  lemma EvenBelow(b: bv40, c: bv40)
    requires b < (c >> 1)
    requires c & 1 != 1
    ensures b << 1 < c
  {
  }

  /** The k bits of number f. */
  function LowBits(f: nat, k: nat): bv40 {
    if k == 0 then 0 else Appended(LowBits(f / 2, k - 1), f % 2 == 1)
  }

  lemma {:induction false} LowBitsNumber(f: nat, k: nat, c: bv40)
    requires f < Two(k) && Power(c, k)
    ensures LowBits(f, k) < c && Number(LowBits(f, k), k) == f
    decreases k
  {
    hide Appended, Odd, Half;
    if k > 0 {
      var b := LowBits(f / 2, k - 1);
      LowBitsNumber(f / 2, k - 1, Half(c));
      AppendedBelow(b, f % 2 == 1, c);
      AppendedBits(b, f % 2 == 1);
    }
  }

  lemma PowerUp(c: bv40, k: nat)
    requires Power(c, k) && c < 0x80_0000_0000
    ensures Power(Appended(c, false), k + 1)
  {
    hide Appended, Odd, Half;
    AppendedBits(c, false);
  }

  lemma PowerUp2(c: bv40, k: nat)
    requires Power(c, k) && c < 0x40_0000_0000
    ensures Power(c << 2, k + 2)
  {
    hide Power;
    PowerUp(c, k);
    PowerUp(c << 1, k + 1);
    assert (c << 1) << 1 == c << 2;
  }

  lemma PowerUp4(c: bv40, k: nat)
    requires Power(c, k) && c < 0x10_0000_0000
    ensures Power(c << 4, k + 4)
  {
    hide Power;
    PowerUp2(c, k);
    PowerUp2(c << 2, k + 2);
    assert (c << 2) << 2 == c << 4;
  }

  lemma TopPower()
    ensures Power(0x80_0000_0000, 39)
  {
    assert Power(1, 0);
    hide Power;
    PowerUp4(1, 0);
    PowerUp4(0x10, 4);
    PowerUp4(0x100, 8);
    PowerUp4(0x1000, 12);
    PowerUp4(0x1_0000, 16);
    PowerUp4(0x10_0000, 20);
    PowerUp4(0x100_0000, 24);
    PowerUp4(0x1000_0000, 28);
    PowerUp4(0x1_0000_0000, 32);
    PowerUp2(0x10_0000_0000, 36);
    PowerUp(0x40_0000_0000, 38);
  }

  function FrameBits(f: Frame): (b: bv40)
    ensures FrameNumber(b) == f
  {
    FrameBitsNumber(f);
    LowBits(f, 40)
  }

  lemma FrameBitsNumber(f: Frame)
    ensures Number(LowBits(f, 40), 40) == f
  {
    hide Appended, Odd, Half, Power;
    FramePower();
    TopPower();
    var b := LowBits(f / 2, 39);
    LowBitsNumber(f / 2, 39, 0x80_0000_0000);
    AppendedBits(b, f % 2 == 1);
  }

  /** The address of frame f. */
  function AddressOf(f: Frame): (a: bv64)
    ensures FrameOf(a) == f && Aligned(a)
  {
    var b := FrameBits(f);
    SplitAddress(b);
    (b as bv64) << 12
  }

  lemma SplitAddress(b: bv40)
    ensures Split((b as bv64) << 12) == Bits(false, 0, 0, 0, false, 0, b, 0)
    ensures ((b as bv64) << 12) & 0xFFF0_0000_0000_0FFF == 0
  {
  }

  /** An entry as a 64-bit word. */
  function Encoded(w: Word): (e: bv64)
    ensures EntryOf(e) == w
  {
    var b := Bits(w.present, w.access, w.cache, w.mid, w.large, w.top, FrameBits(w.frame), w.high);
    SplitJoins(b);
    Join(b)
  }

  lemma SameHalves(b: bv40, c: bv40)
    requires Half(b) == Half(c) && (Odd(b) <==> Odd(c))
    ensures b == c
  {
  }

  /** No bit of b lies above the k low ones. */
  predicate Fits(b: bv40, k: nat) {
    if k == 0 then b == 0 else Fits(Half(b), k - 1)
  }

  lemma SameLast(b: bv40, c: bv40, k: nat)
    requires k > 0 && Number(b, k) == Number(c, k)
    ensures Number(Half(b), k - 1) == Number(Half(c), k - 1) && (Odd(b) <==> Odd(c))
  {
    hide Half, Odd;
  }

  /** Different bits stand for different numbers. */
  lemma {:induction false} SameNumber(b: bv40, c: bv40, k: nat)
    requires Fits(b, k) && Fits(c, k) && Number(b, k) == Number(c, k)
    ensures b == c
    decreases k
  {
    hide Odd, Half, Number;
    if k > 0 {
      SameLast(b, c, k);
      SameNumber(Half(b), Half(c), k - 1);
      SameHalves(b, c);
    }
  }

  lemma HalfBelow(b: bv40, p: bv40)
    requires b < p && !Odd(p)
    ensures Half(b) < Half(p)
  {
  }

  lemma NoneBelow(b: bv40)
    ensures b < 1 ==> b == 0
    ensures Half(b) < 0x80_0000_0000
  {
  }

  lemma {:induction false} PowerFits(b: bv40, k: nat, p: bv40)
    requires Power(p, k) && b < p
    ensures Fits(b, k)
    decreases k
  {
    hide Odd, Half;
    if k == 0 {
      NoneBelow(b);
    } else {
      HalfBelow(b, p);
      PowerFits(Half(b), k - 1, Half(p));
    }
  }

  lemma AllFit(b: bv40)
    ensures Fits(b, 40)
  {
    TopPower();
    hide Odd, Half, Power;
    NoneBelow(b);
    PowerFits(Half(b), 39, 0x80_0000_0000);
  }

  lemma SameFrame(b: bv40, c: bv40)
    requires FrameNumber(b) == FrameNumber(c)
    ensures b == c
  {
    hide Number, Fits;
    AllFit(b);
    AllFit(c);
    SameNumber(b, c, 40);
  }

  /** A 64-bit word is the only one that reads as its entry. */
  lemma EncodedEntry(e: bv64)
    ensures Encoded(EntryOf(e)) == e
  {
    hide Split, Join, FrameNumber, FrameBits;
    SameFrame(FrameBits(FrameNumber(Split(e).frame)), Split(e).frame);
    JoinSplits(e);
  }

  function Plus1(b: bv40): bv40 {
    b + 1
  }

  lemma OddEven(b: bv40)
    requires b < 0xFF_FFFF_FFFF
    ensures !Odd(b) ==> Half(Plus1(b)) == Half(b) && Odd(Plus1(b))
    ensures Odd(b) ==> Half(Plus1(b)) == Plus1(Half(b)) && !Odd(Plus1(b))
    ensures Half(b) < 0xFF_FFFF_FFFF
  {
  }

  lemma {:induction false} Successor(b: bv40, k: nat)
    requires b < 0xFF_FFFF_FFFF && Number(b, k) + 1 < Two(k)
    ensures Number(Plus1(b), k) == Number(b, k) + 1
    decreases k
  {
    hide Odd, Half, Plus1;
    OddEven(b);
    if k > 0 && Odd(b) {
      Successor(Half(b), k - 1);
    }
  }

  function Minus1(c: bv40): bv40 {
    c - 1
  }

  lemma OnesBits(c: bv40)
    requires !Odd(c)
    ensures Odd(Minus1(c))
    ensures c != 0 ==> Half(Minus1(c)) == Minus1(Half(c))
  {
  }

  /** All ones stand for the greatest number. */
  lemma {:induction false} Ones(c: bv40, k: nat)
    requires Power(c, k)
    ensures c != 0 && Number(Minus1(c), k) + 1 == Two(k)
    decreases k
  {
    hide Odd, Half, Minus1;
    if k > 0 {
      Ones(Half(c), k - 1);
      OnesBits(c);
      NoHalf(c);
    }
  }

  lemma NoHalf(c: bv40)
    ensures Half(c) != 0 ==> c != 0
  {
  }

  lemma LastFrame()
    ensures FrameNumber(0xFF_FFFF_FFFF) == 0xFF_FFFF_FFFF
  {
    TopPower();
    FramePower();
    LastBits();
    hide Odd, Half, Minus1, Power;
    Ones(0x80_0000_0000, 39);
  }

  lemma LastBits()
    ensures Odd(0xFF_FFFF_FFFF) && Half(0xFF_FFFF_FFFF) == Minus1(0x80_0000_0000)
  {
  }

  /** The address of a frame, as the loader and the kernel add their constants to it. */
  predicate Aligned(a: bv64) {
    a & 0xFFF0_0000_0000_0FFF == 0
  }

  function Plus(a: bv64, constant: bv64): bv64 {
    a + constant
  }

  /** The address of the next frame. */
  function PageAfter(a: bv64): bv64 {
    a + 0x1000
  }

  lemma NextAddress(a: bv64)
    requires Aligned(a) && FrameOf(a) < 0xFF_FFFF_FFFF
    ensures FrameOf(PageAfter(a)) == FrameOf(a) + 1 && Aligned(PageAfter(a))
  {
    hide Split, Plus1, Number, PageAfter, Aligned;
    LastFrame();
    FramePower();
    PageAfterBits(a);
    Successor(Split(a).frame, 40);
  }

  lemma PageAfterBits(a: bv64)
    requires Aligned(a) && Split(a).frame != 0xFF_FFFF_FFFF
    ensures Split(PageAfter(a)).frame == Plus1(Split(a).frame) && Aligned(PageAfter(a))
  {
  }

  lemma Widened(b: bv2)
    ensures (b as bv64) < 4 && (b as bv64) as bv2 == b
  {
  }

  function Without(w: bv64, mask: bv64): bv64 {
    w & !mask
  }

  function With(w: bv64, bits: bv64): bv64 {
    w | bits
  }

  /** One entry of a paging table, with the operations of paging.cpp.  A setter stores twice, first with the bits of
      its field clear; `half` is what it stores first. */
  class PagingStructure {
    var information: bv64

    constructor ()
      ensures Value() == ZERO
    {
      ZeroWord();
      information := 0;
    }

    /** The structure that lies over an entry in memory: its word is the one that reads as the entry. */
    constructor Over(w: Word)
      ensures Value() == w && forall e :: EntryOf(e) == w <==> e == information
    {
      hide EntryOf, Encoded;
      information := Encoded(w);
      forall e | EntryOf(e) == w
        ensures e == Encoded(w)
      {
        EncodedEntry(e);
      }
    }

    function Value(): Word
      reads this
    {
      EntryOf(information)
    }

    method Clear()
      modifies this
      ensures Value() == ZERO
    {
      ZeroWord();
      information := 0;
    }

    method GetAddress() returns (address: bv64)
      ensures Split(address) == Bits(false, 0, 0, 0, false, 0, Split(information).frame, 0)
      ensures FrameOf(address) == Value().frame
    {
      address := information & !0xFFF0000000000FFF;
      AddressBits(information);
    }

    method IsPresent() returns (present: bool)
      ensures present == Value().present
    {
      present := information & 1 != 0;
    }

    method IsBottom() returns (bottom: bool)
      ensures bottom == Value().large
    {
      bottom := information & 0x80 != 0;
    }

    method SetAccess(access: bv64) returns (half: bv64)
      requires access < 4
      modifies this
      ensures EntryOf(half) == old(Value()).(access := 0)
      ensures Value() == old(Value()).(access := access as bv2)
    {
      hide Split, Numbered, EntryOf, FrameOf, With, Without;
      AccessWord(information, access);
      information := Without(information, 3 << 1);
      half := information;
      information := With(information, access << 1);
    }

    method SetAddress(address: bv64) returns (half: bv64)
      modifies this
      ensures EntryOf(half) == old(Value()).(frame := 0)
      ensures Value() == old(Value()).(frame := FrameOf(address))
    {
      hide Split, Numbered, EntryOf, FrameOf, With, Without;
      SetAddressWord(information, address);
      information := Without(information, !0xFFF0000000000FFF);
      half := information;
      information := With(information, !0xFFF0000000000FFF & address);
    }

    method SetCachability(cachability: bv64) returns (half: bv64)
      requires cachability < 4
      modifies this
      ensures EntryOf(half) == old(Value()).(cache := 0)
      ensures Value() == old(Value()).(cache := cachability as bv2)
    {
      hide Split, Numbered, EntryOf, FrameOf, With, Without;
      CacheWord(information, cachability);
      information := Without(information, 3 << 3);
      half := information;
      information := With(information, cachability << 3);
    }

    method SetPresence(present: bool) returns (half: bv64)
      modifies this
      ensures EntryOf(half) == old(Value()).(present := false)
      ensures Value() == old(Value()).(present := present)
    {
      hide Split, Numbered, EntryOf, FrameOf, With, Without;
      PresenceWord(information, present);
      information := Without(information, 1);
      half := information;
      information := With(information, if present then 1 else 0);
    }
  }

  lemma AddressBits(w: bv64)
    ensures Split(w & !0xFFF0000000000FFF) == Bits(false, 0, 0, 0, false, 0, Split(w).frame, 0)
  {
  }

  lemma AddressCleared(w: bv64)
    ensures Split(Without(w, !0xFFF0000000000FFF)) == Split(w).(frame := 0)
  {
  }

  lemma AddressSet(w: bv64, a: bv64)
    ensures Split(With(Without(w, !0xFFF0000000000FFF), !0xFFF0000000000FFF & a)) == Split(w).(frame := Split(a).frame)
  {
  }

  lemma SetAddressWord(w: bv64, a: bv64)
    ensures EntryOf(Without(w, !0xFFF0000000000FFF)) == EntryOf(w).(frame := 0)
    ensures EntryOf(With(Without(w, !0xFFF0000000000FFF), !0xFFF0000000000FFF & a)) == EntryOf(w).(frame := FrameOf(a))
  {
    hide Split, FrameNumber, With, Without;
    AddressCleared(w);
    AddressSet(w, a);
    NoBits();
  }

  lemma NoBits()
    ensures FrameNumber(0) == 0
  {
    NoNumber(40);
  }

  lemma {:induction false} NoNumber(k: nat)
    ensures Number(0, k) == 0
    decreases k
  {
    if k > 0 {
      NoNumber(k - 1);
    }
  }

  lemma AccessCleared(w: bv64)
    ensures Split(Without(w, 3 << 1)) == Split(w).(access := 0)
  {
  }

  lemma AccessSet(w: bv64, a: bv64)
    requires a < 4
    ensures Split(With(Without(w, 3 << 1), a << 1)) == Split(w).(access := a as bv2)
  {
  }

  lemma AccessWord(w: bv64, a: bv64)
    requires a < 4
    ensures EntryOf(Without(w, 3 << 1)) == EntryOf(w).(access := 0)
    ensures EntryOf(With(Without(w, 3 << 1), a << 1)) == EntryOf(w).(access := a as bv2)
  {
    hide Split, FrameNumber, With, Without;
    AccessCleared(w);
    AccessSet(w, a);
  }

  lemma CacheCleared(w: bv64)
    ensures Split(Without(w, 3 << 3)) == Split(w).(cache := 0)
  {
  }

  lemma CacheSet(w: bv64, c: bv64)
    requires c < 4
    ensures Split(With(Without(w, 3 << 3), c << 3)) == Split(w).(cache := c as bv2)
  {
  }

  lemma CacheWord(w: bv64, c: bv64)
    requires c < 4
    ensures EntryOf(Without(w, 3 << 3)) == EntryOf(w).(cache := 0)
    ensures EntryOf(With(Without(w, 3 << 3), c << 3)) == EntryOf(w).(cache := c as bv2)
  {
    hide Split, FrameNumber, With, Without;
    CacheCleared(w);
    CacheSet(w, c);
  }

  lemma PresenceCleared(w: bv64)
    ensures Split(Without(w, 1)) == Split(w).(present := false)
  {
  }

  lemma PresenceSet(w: bv64)
    ensures Split(With(Without(w, 1), 1)) == Split(w).(present := true)
    ensures With(Without(w, 1), 0) == Without(w, 1)
  {
  }

  lemma PresenceWord(w: bv64, present: bool)
    ensures EntryOf(Without(w, 1)) == EntryOf(w).(present := false)
    ensures EntryOf(With(Without(w, 1), if present then 1 else 0)) == EntryOf(w).(present := present)
  {
    hide Split, FrameNumber, With, Without;
    PresenceCleared(w);
    PresenceSet(w);
  }

  lemma ZeroWord()
    ensures EntryOf(0) == ZERO
  {
    hide FrameNumber;
    NoBits();
  }
}
