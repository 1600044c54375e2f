/** The top-down splay of splay.h as a function on the shape of a tree: which node hangs where. */
module SplayShapes {

  /** memory.cpp's MemoryBlock: ordered by address alone, equal only if address and size agree. */
  datatype MemoryBlock = MemoryBlock(address: nat, size: nat)

  predicate Less(a: MemoryBlock, b: MemoryBlock) {
    a.address < b.address
  }

  class SplayTreeNode {
    var Left: SplayTreeNode?
    var Right: SplayTreeNode?
    const Data: MemoryBlock

    constructor (data: MemoryBlock)
      ensures Data == data && Left == null && Right == null
    {
      Data := data;
      Left, Right := null, null;
    }
  }

  datatype Shape = Leaf | Node(left: Shape, node: SplayTreeNode, right: Shape)

  /** One of the two side trees under construction: the nodes along its open edge, innermost first, each with
      the subtree on its closed side. */
  datatype Spine = Nil | Cons(node: SplayTreeNode, sub: Shape, rest: Spine)

  function Inorder(t: Shape): seq<SplayTreeNode> {
    if t.Leaf? then [] else Inorder(t.left) + [t.node] + Inorder(t.right)
  }

  /** The nodes of the left side tree, in order, when nothing hangs at its open end. */
  function InorderL(l: Spine): seq<SplayTreeNode> {
    if l.Nil? then [] else InorderL(l.rest) + Inorder(l.sub) + [l.node]
  }

  function InorderR(r: Spine): seq<SplayTreeNode> {
    if r.Nil? then [] else [r.node] + Inorder(r.sub) + InorderR(r.rest)
  }

  /** The left side tree with t hung at its open end. */
  function AssembleL(l: Spine, t: Shape): Shape {
    if l.Nil? then t else AssembleL(l.rest, Node(l.sub, l.node, t))
  }

  function AssembleR(r: Spine, t: Shape): Shape {
    if r.Nil? then t else AssembleR(r.rest, Node(t, r.node, r.sub))
  }

  function RotateRight(t: Shape): Shape
    requires t.Node? && t.left.Node?
  {
    Node(t.left.left, t.left.node, Node(t.left.right, t.node, t.right))
  }

  function RotateLeft(t: Shape): Shape
    requires t.Node? && t.right.Node?
  {
    Node(Node(t.left, t.node, t.right.left), t.right.node, t.right.right)
  }

  /** The variables of the loop: the two side trees, and the middle tree between them. */
  datatype Cut = Cut(l: Spine, t: Shape, r: Spine)

  /** One round of the loop: where it ends, or where it goes on. */
  datatype Turn = Stop(at: Cut) | Go(at: Cut)

  /** The root joins the right side tree, and its left child becomes the middle tree. */
  function LinkRight(c: Cut): Cut
    requires c.t.Node?
  {
    Cut(c.l, c.t.left, Cons(c.t.node, c.t.right, c.r))
  }

  /** The root joins the left side tree, and its right child becomes the middle tree. */
  function LinkLeft(c: Cut): Cut
    requires c.t.Node?
  {
    Cut(Cons(c.t.node, c.t.left, c.l), c.t.right, c.r)
  }

  function Round(c: Cut, key: MemoryBlock): (u: Turn)
    requires c.t.Node?
    ensures u.at.t.Node? && (u.Go? ==> u.at.t < c.t)
  {
    if Less(key, c.t.node.Data) then
      if c.t.left.Leaf? then Stop(c)
      else if Less(key, c.t.left.node.Data) then
        var d := c.(t := RotateRight(c.t));
        if d.t.left.Leaf? then Stop(d) else Go(LinkRight(d))
      else Go(LinkRight(c))
    else if Less(c.t.node.Data, key) then
      if c.t.right.Leaf? then Stop(c)
      else if Less(c.t.right.node.Data, key) then
        var d := c.(t := RotateLeft(c.t));
        if d.t.right.Leaf? then Stop(d) else Go(LinkLeft(d))
      else Go(LinkLeft(c))
    else Stop(c)
  }

  /** The four assignments after the loop. */
  function Finish(c: Cut): Shape
    requires c.t.Node?
  {
    Node(AssembleL(c.l, c.t.left), c.t.node, AssembleR(c.r, c.t.right))
  }

  function TopDown(c: Cut, key: MemoryBlock): (s: Shape)
    requires c.t.Node?
    ensures s.Node?
    decreases c.t
  {
    match Round(c, key)
    case Stop(d) => Finish(d)
    case Go(d) => TopDown(d, key)
  }

  function Splayed(t: Shape, key: MemoryBlock): (s: Shape)
    ensures s.Node? <==> t.Node?
  {
    if t.Leaf? then Leaf else TopDown(Cut(Nil, t, Nil), key)
  }

  lemma {:induction false} AssembleLInorder(l: Spine, t: Shape)
    ensures Inorder(AssembleL(l, t)) == InorderL(l) + Inorder(t)
    decreases l
  {
    if l.Cons? {
      AssembleLInorder(l.rest, Node(l.sub, l.node, t));
    }
  }

  lemma {:induction false} AssembleRInorder(r: Spine, t: Shape)
    ensures Inorder(AssembleR(r, t)) == Inorder(t) + InorderR(r)
    decreases r
  {
    if r.Cons? {
      AssembleRInorder(r.rest, Node(t, r.node, r.sub));
    }
  }

  /** All nodes at hand, in order. */
  function Sequence(c: Cut): seq<SplayTreeNode> {
    InorderL(c.l) + Inorder(c.t) + InorderR(c.r)
  }

  lemma RotateInorder(t: Shape)
    ensures t.Node? && t.left.Node? ==> Inorder(RotateRight(t)) == Inorder(t)
    ensures t.Node? && t.right.Node? ==> Inorder(RotateLeft(t)) == Inorder(t)
  {
    if t.Node? && t.left.Node? {
      Regroup(Inorder(t.left.left), t.left.node, Inorder(t.left.right), t.node, Inorder(t.right));
    }
    if t.Node? && t.right.Node? {
      Regroup(Inorder(t.left), t.node, Inorder(t.right.left), t.right.node, Inorder(t.right.right));
    }
  }

  lemma Regroup(a: seq<SplayTreeNode>, x: SplayTreeNode, b: seq<SplayTreeNode>, y: SplayTreeNode, c: seq<SplayTreeNode>)
    ensures a + [x] + (b + [y] + c) == (a + [x] + b) + [y] + c
  {
  }

  lemma LinkSequence(c: Cut)
    requires c.t.Node?
    ensures Sequence(LinkRight(c)) == Sequence(c) && Sequence(LinkLeft(c)) == Sequence(c)
  {
  }

  lemma RoundSequence(c: Cut, key: MemoryBlock)
    requires c.t.Node?
    ensures Sequence(Round(c, key).at) == Sequence(c)
  {
    hide Sequence, LinkRight, LinkLeft, Inorder;
    RotateInorder(c.t);
    LinkSequence(c);
    if Less(key, c.t.node.Data) && c.t.left.Node? {
      RotatedSequence(c, RotateRight(c.t));
      LinkSequence(c.(t := RotateRight(c.t)));
    } else if Less(c.t.node.Data, key) && c.t.right.Node? {
      RotatedSequence(c, RotateLeft(c.t));
      LinkSequence(c.(t := RotateLeft(c.t)));
    }
  }

  lemma RotatedSequence(c: Cut, u: Shape)
    requires Inorder(u) == Inorder(c.t)
    ensures Sequence(c.(t := u)) == Sequence(c)
  {
  }

  lemma FinishInorder(c: Cut)
    requires c.t.Node?
    ensures Inorder(Finish(c)) == Sequence(c)
  {
    hide InorderL, InorderR, AssembleL, AssembleR;
    AssembleLInorder(c.l, c.t.left);
    AssembleRInorder(c.r, c.t.right);
    Around(InorderL(c.l), Inorder(c.t.left), c.t.node, Inorder(c.t.right), InorderR(c.r));
  }

  lemma Around(a: seq<SplayTreeNode>, b: seq<SplayTreeNode>, n: SplayTreeNode, c: seq<SplayTreeNode>,
               d: seq<SplayTreeNode>)
    ensures (a + b) + [n] + (c + d) == a + (b + [n] + c) + d
  {
  }

  /** The loop keeps the exact sequence of nodes. */
  lemma {:induction false} TopDownInorder(c: Cut, key: MemoryBlock)
    requires c.t.Node?
    ensures Inorder(TopDown(c, key)) == Sequence(c)
    decreases c.t
  {
    hide Sequence, Round, Inorder;
    RoundSequence(c, key);
    match Round(c, key)
    case Stop(d) => FinishInorder(d);
    case Go(d) => TopDownInorder(d, key);
  }

  /** Splaying keeps the exact in-order sequence of nodes, whatever the keys. */
  lemma SplayedInorder(t: Shape, key: MemoryBlock)
    ensures Inorder(Splayed(t, key)) == Inorder(t)
  {
    if t.Node? {
      TopDownInorder(Cut(Nil, t, Nil), key);
    }
  }

  /** The members of a tree in search order: strictly increasing addresses. */
  ghost predicate Increasing(s: seq<SplayTreeNode>) {
    forall i, j :: 0 <= i < j < |s| ==> Less(s[i].Data, s[j].Data)
  }

  ghost predicate SearchTree(t: Shape) {
    Increasing(Inorder(t))
  }

  ghost predicate AllBelow(s: seq<SplayTreeNode>, key: MemoryBlock) {
    forall i :: 0 <= i < |s| ==> Less(s[i].Data, key)
  }

  ghost predicate AllAbove(s: seq<SplayTreeNode>, key: MemoryBlock) {
    forall i :: 0 <= i < |s| ==> Less(key, s[i].Data)
  }

  lemma IncreasingParts(a: seq<SplayTreeNode>, n: SplayTreeNode, b: seq<SplayTreeNode>)
    requires Increasing(a + [n] + b)
    ensures Increasing(a) && Increasing(b) && AllBelow(a, n.Data) && AllAbove(b, n.Data)
  {
    var s := a + [n] + b;
    forall i, j | 0 <= i < j < |a|
      ensures Less(a[i].Data, a[j].Data)
    {
      assert s[i] == a[i] && s[j] == a[j];
    }
    forall i, j | 0 <= i < j < |b|
      ensures Less(b[i].Data, b[j].Data)
    {
      assert s[|a| + 1 + i] == b[i] && s[|a| + 1 + j] == b[j];
    }
    assert s[|a|] == n;
    forall i | 0 <= i < |a|
      ensures Less(a[i].Data, n.Data)
    {
      assert s[i] == a[i];
    }
    forall i | 0 <= i < |b|
      ensures Less(n.Data, b[i].Data)
    {
      assert s[|a| + 1 + i] == b[i];
    }
  }

  lemma IncreasingJoin(a: seq<SplayTreeNode>, n: SplayTreeNode, b: seq<SplayTreeNode>)
    requires Increasing(a) && Increasing(b) && AllBelow(a, n.Data) && AllAbove(b, n.Data)
    ensures Increasing(a + [n] + b)
  {
  }

  /** Everything left of the root below the key, everything right of it above. */
  ghost predicate SplitAt(t: Shape, key: MemoryBlock) {
    t.Node? && AllBelow(Inorder(t.left), key) && AllAbove(Inorder(t.right), key)
  }

  /** What the loop knows: the middle tree is a search tree, the left side lies below the key, the right above. */
  ghost predicate Narrowing(c: Cut, key: MemoryBlock) {
    c.t.Node? && SearchTree(c.t) && AllBelow(InorderL(c.l), key) && AllAbove(InorderR(c.r), key)
  }

  lemma RootSplits(t: Shape)
    requires t.Node? && SearchTree(t)
    ensures SearchTree(t.left) && SearchTree(t.right)
    ensures AllBelow(Inorder(t.left), t.node.Data) && AllAbove(Inorder(t.right), t.node.Data)
  {
    IncreasingParts(Inorder(t.left), t.node, Inorder(t.right));
  }

  lemma LinkRightNarrows(c: Cut, key: MemoryBlock)
    requires Narrowing(c, key) && Less(key, c.t.node.Data) && c.t.left.Node?
    ensures Narrowing(LinkRight(c), key)
  {
    RootSplits(c.t);
  }

  lemma LinkLeftNarrows(c: Cut, key: MemoryBlock)
    requires Narrowing(c, key) && Less(c.t.node.Data, key) && c.t.right.Node?
    ensures Narrowing(LinkLeft(c), key)
  {
    RootSplits(c.t);
  }

  lemma RoundNarrows(c: Cut, key: MemoryBlock)
    requires Narrowing(c, key)
    ensures Narrowing(Round(c, key).at, key)
    ensures Round(c, key).Stop? ==> SplitAt(Round(c, key).at.t, key)
  {
    hide LinkRight, LinkLeft, Increasing;
    RotateInorder(c.t);
    RootSplits(c.t);
    if Less(key, c.t.node.Data) && c.t.left.Node? {
      if Less(key, c.t.left.node.Data) {
        var d := c.(t := RotateRight(c.t));
        RootSplits(d.t);
        if d.t.left.Node? {
          LinkRightNarrows(d, key);
        }
      } else {
        LinkRightNarrows(c, key);
      }
    } else if Less(c.t.node.Data, key) && c.t.right.Node? {
      if Less(c.t.right.node.Data, key) {
        var d := c.(t := RotateLeft(c.t));
        RootSplits(d.t);
        if d.t.right.Node? {
          LinkLeftNarrows(d, key);
        }
      } else {
        LinkLeftNarrows(c, key);
      }
    }
  }

  lemma FinishSplits(c: Cut, key: MemoryBlock)
    requires Narrowing(c, key) && SplitAt(c.t, key)
    ensures SplitAt(Finish(c), key)
  {
    AssembleLInorder(c.l, c.t.left);
    AssembleRInorder(c.r, c.t.right);
  }

  lemma {:induction false} TopDownSplits(c: Cut, key: MemoryBlock)
    requires Narrowing(c, key)
    ensures SplitAt(TopDown(c, key), key)
    decreases c.t
  {
    hide Round, Inorder, SplitAt;
    RoundNarrows(c, key);
    match Round(c, key)
    case Stop(d) => FinishSplits(d, key);
    case Go(d) => TopDownSplits(d, key);
  }

  /** A search tree stays one, and is split around the key; so the key is at the root if it is there at all. */
  lemma SplayedSplits(t: Shape, key: MemoryBlock)
    requires SearchTree(t) && t.Node?
    ensures SearchTree(Splayed(t, key)) && SplitAt(Splayed(t, key), key)
    ensures forall n :: n in Inorder(t) && n.Data.address == key.address ==> n == Splayed(t, key).node
  {
    SplayedInorder(t, key);
    TopDownSplits(Cut(Nil, t, Nil), key);
  }
}
