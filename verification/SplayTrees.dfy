/** The class SplayTree of splay.h: destructive pointer surgery, node by node, against the functions on shapes. */
module SplayTrees {
  import opened SplayShapes
  import opened SplaySets
  import opened SplayCosts

  function Nodes(t: Shape): set<SplayTreeNode> {
    if t.Leaf? then {} else Nodes(t.left) + {t.node} + Nodes(t.right)
  }

  function NodesOf(s: Spine): set<SplayTreeNode> {
    if s.Nil? then {} else {s.node} + Nodes(s.sub) + NodesOf(s.rest)
  }

  /** The tree of shape t hangs at pointer p. */
  ghost predicate Hangs(p: SplayTreeNode?, t: Shape)
    reads Nodes(t)
  {
    match t
    case Leaf => p == null
    case Node(l, n, r) => p == n && Hangs(n.Left, l) && Hangs(n.Right, r)
  }

  /** No node occurs twice. */
  ghost predicate Proper(t: Shape) {
    t.Leaf? || (Proper(t.left) && Proper(t.right) && t.node !in Nodes(t.left) && t.node !in Nodes(t.right)
                && Nodes(t.left) !! Nodes(t.right))
  }

  ghost predicate ProperSpine(s: Spine) {
    s.Nil? || (Proper(s.sub) && ProperSpine(s.rest) && s.node !in Nodes(s.sub) && s.node !in NodesOf(s.rest)
               && Nodes(s.sub) !! NodesOf(s.rest))
  }

  /** The node at whose open end the next one is linked: the innermost of the spine, or the dummy. */
  function Tip(s: Spine, dummy: SplayTreeNode): (n: SplayTreeNode)
    ensures n in NodesOf(s) + {dummy}
  {
    if s.Nil? then dummy else s.node
  }

  /** The left side tree as it lies in memory, from the dummy's Right pointer down to the open end. */
  ghost predicate HangsL(s: Spine, dummy: SplayTreeNode)
    reads NodesOf(s), dummy`Right
  {
    s.Nil? || (Hangs(s.node.Left, s.sub) && Tip(s.rest, dummy).Right == s.node && HangsL(s.rest, dummy))
  }

  ghost predicate HangsR(s: Spine, dummy: SplayTreeNode)
    reads NodesOf(s), dummy`Left
  {
    s.Nil? || (Hangs(s.node.Right, s.sub) && Tip(s.rest, dummy).Left == s.node && HangsR(s.rest, dummy))
  }

  /** All parts of the loop state are disjoint. */
  ghost predicate Apart(c: Cut, dummy: SplayTreeNode) {
    && Proper(c.t) && ProperSpine(c.l) && ProperSpine(c.r)
    && NodesOf(c.l) !! Nodes(c.t) && NodesOf(c.r) !! Nodes(c.t) && NodesOf(c.l) !! NodesOf(c.r)
    && dummy !in Nodes(c.t) && dummy !in NodesOf(c.l) && dummy !in NodesOf(c.r)
  }

  function AllNodes(c: Cut): set<SplayTreeNode> {
    Nodes(c.t) + NodesOf(c.l) + NodesOf(c.r)
  }

  /** The parts of a proper tree that a rotation touches are all different, and so are those of the outcome. */
  lemma TwoDeep(t: Shape)
    requires t.Node? && Proper(t)
    ensures t.left.Node? ==>
              && t.node != t.left.node && t.left.node !in Nodes(t.right)
              && t.node !in Nodes(t.left.left) && t.node !in Nodes(t.left.right)
              && Proper(RotateRight(t)) && Nodes(RotateRight(t)) == Nodes(t)
    ensures t.right.Node? ==>
              && t.node != t.right.node && t.right.node !in Nodes(t.left)
              && t.node !in Nodes(t.right.left) && t.node !in Nodes(t.right.right)
              && Proper(RotateLeft(t)) && Nodes(RotateLeft(t)) == Nodes(t)
  {
    if t.left.Node? {
      var low := Node(t.left.right, t.node, t.right);
      assert Nodes(t.left) == Nodes(t.left.left) + {t.left.node} + Nodes(t.left.right);
      assert Nodes(low) == Nodes(t.left.right) + {t.node} + Nodes(t.right) && Proper(low);
    }
    if t.right.Node? {
      var low := Node(t.left, t.node, t.right.left);
      assert Nodes(t.right) == Nodes(t.right.left) + {t.right.node} + Nodes(t.right.right);
      assert Nodes(low) == Nodes(t.left) + {t.node} + Nodes(t.right.left) && Proper(low);
    }
  }

  lemma RotatedNodes(c: Cut, d: Cut)
    requires c.l == d.l && c.r == d.r && Nodes(c.t) == Nodes(d.t)
    ensures AllNodes(c) == AllNodes(d)
  {
  }

  /** With t hung at the open end, the left side tree hangs at the dummy's Right pointer. */
  lemma {:induction false} AssembleLHangs(s: Spine, dummy: SplayTreeNode, t: Shape)
    requires HangsL(s, dummy) && Hangs(Tip(s, dummy).Right, t)
    requires ProperSpine(s) && Proper(t) && NodesOf(s) !! Nodes(t)
    ensures Hangs(dummy.Right, AssembleL(s, t)) && Proper(AssembleL(s, t))
    ensures Nodes(AssembleL(s, t)) == NodesOf(s) + Nodes(t)
    decreases s
  {
    if s.Cons? {
      assert Nodes(Node(s.sub, s.node, t)) == Nodes(s.sub) + {s.node} + Nodes(t);
      AssembleLHangs(s.rest, dummy, Node(s.sub, s.node, t));
    }
  }

  lemma {:induction false} AssembleRHangs(s: Spine, dummy: SplayTreeNode, t: Shape)
    requires HangsR(s, dummy) && Hangs(Tip(s, dummy).Left, t)
    requires ProperSpine(s) && Proper(t) && NodesOf(s) !! Nodes(t)
    ensures Hangs(dummy.Left, AssembleR(s, t)) && Proper(AssembleR(s, t))
    ensures Nodes(AssembleR(s, t)) == NodesOf(s) + Nodes(t)
    decreases s
  {
    if s.Cons? {
      assert Nodes(Node(t, s.node, s.sub)) == Nodes(t) + {s.node} + Nodes(s.sub);
      AssembleRHangs(s.rest, dummy, Node(t, s.node, s.sub));
    }
  }

  /** A shape mentions no node that does not exist yet. */
  lemma {:induction false} AllAllocated(t: Shape)
    ensures forall n :: n in Nodes(t) ==> allocated(n)
  {
    if t.Node? {
      AllAllocated(t.left);
      AllAllocated(t.right);
    }
  }

  function Inserted(ops: seq<Op>): set<SplayTreeNode> {
    set op | op in ops && op.Insert? :: op.n
  }

  /** The nodes to be inserted are new and none comes twice. */
  ghost predicate Insertable(t: Shape, ops: seq<Op>)
    reads Inserted(ops)
  {
    && (forall n :: n in Inserted(ops) ==> n !in Nodes(t) && n.Left == null && n.Right == null)
    && forall j, k :: 0 <= j < k < |ops| && ops[j].Insert? && ops[k].Insert? ==> ops[j].n != ops[k].n
  }

  ghost predicate FittingAll(s: set<MemoryBlock>, ops: seq<Op>) {
    forall k :: 0 <= k < |ops| ==> Fitting(SetAfterAll(s, ops[..k]), ops[k])
  }

  lemma NextCall(t: Shape, op: Op, rest: seq<Op>)
    requires Insertable(t, [op] + rest)
    ensures op.Insert? ==> op.n !in Nodes(t) && op.n.Left == null && op.n.Right == null
    ensures Inserted([op] + rest) == Inserted([op]) + Inserted(rest) && Inserted([op]) !! Inserted(rest)
    ensures Insertable(t, rest) && Inserted(rest) !! Nodes(t)
  {
    var ops := [op] + rest;
    assert ops[0] == op && op in ops;
    forall n | n in Inserted(rest)
      ensures n in Inserted(ops) && n !in Inserted([op])
    {
      var k :| 0 <= k < |rest| && rest[k].Insert? && rest[k].n == n;
      assert ops[k + 1] == rest[k];
    }
    forall j, k | 0 <= j < k < |rest| && rest[j].Insert? && rest[k].Insert?
      ensures rest[j].n != rest[k].n
    {
      assert ops[j + 1] == rest[j] && ops[k + 1] == rest[k];
    }
  }

  lemma NoCalls(t: Shape, ops: seq<Op>)
    ensures TreeAfterAll(t, ops[..0]) == t && SetAfterAll(Members(t), ops[..0]) == Members(t) && ops[0..] == ops
    ensures RunCost(t, ops[..0]) == 0
  {
    assert ops[..0] == [];
  }

  /** Both specifications take one more call. */
  lemma LastCall(t: Shape, ops: seq<Op>, i: nat)
    requires i < |ops|
    ensures TreeAfterAll(t, ops[..i + 1]) == TreeAfter(TreeAfterAll(t, ops[..i]), ops[i])
    ensures SetAfterAll(Members(t), ops[..i + 1]) == SetAfter(SetAfterAll(Members(t), ops[..i]), ops[i])
    ensures RunCost(t, ops[..i + 1]) == RunCost(t, ops[..i]) + CallCost(TreeAfterAll(t, ops[..i]), ops[i])
  {
    assert ops[..i + 1][..i] == ops[..i];
  }

  lemma {:induction false} NodesInorder(t: Shape, n: SplayTreeNode)
    ensures n in Nodes(t) <==> n in Inorder(t)
    decreases t
  {
    if t.Node? {
      NodesInorder(t.left, n);
      NodesInorder(t.right, n);
    }
  }

  /** Splaying for a node of a search tree brings its key to the root. */
  lemma NodeFound(t: Shape, n: SplayTreeNode)
    requires SearchTree(t) && n in Nodes(t)
    ensures t.Node? && Splayed(t, n.Data).node.Data == n.Data
  {
    NodesInorder(t, n);
    SearchFinds(t, n.Data);
  }

  /** No call brings in a node but the one it inserts. */
  lemma CallNodes(t: Shape, op: Op)
    ensures forall n :: n in Nodes(TreeAfter(t, op)) ==> n in Nodes(t) || (op.Insert? && n == op.n)
  {
    hide Splayed;
    forall n | n in Nodes(TreeAfter(t, op))
      ensures n in Nodes(t) || (op.Insert? && n == op.n)
    {
      NodesInorder(t, n);
      NodesInorder(TreeAfter(t, op), n);
      match op
      case Insert(m) =>
        if t.Node? {
          AddedInorder(t, m);
        }
      case Find(key) => SplayedInorder(t, key);
      case Delete(key) =>
        SplayedInorder(t, key);
        var s := Splayed(t, key);
        if s.Node? {
          SplayedInorder(s.left, key);
        }
    }
  }

  /** What a call that fits does to the number of nodes. */
  lemma CallCount(t: Shape, op: Op)
    ensures op.Delete? && SearchTree(t) && Fitting(Members(t), op) ==>
              |Inorder(TreeAfter(t, op))| ==
              |Inorder(t)| - if t.Node? && Splayed(t, op.key).node.Data == op.key then 1 else 0
  {
    hide Splayed, Members, Inorder;
    if op.Delete? && SearchTree(t) && Fitting(Members(t), op) {
      SplayedInorder(t, op.key);
      if t.Node? {
        SearchFinds(t, op.key);
        if op.key in Members(t) {
          RemovedCount(t, op.key);
        }
      }
    }
  }

  class SplayTree {
    var Root: SplayTreeNode?
    var Elements: nat
    ghost var shape: Shape
    /** How many rounds the loops of all calls have taken so far. */
    ghost var rounds: nat

    constructor ()
      ensures Valid() && shape == Leaf && Elements == 0 && rounds == 0
    {
      Root, Elements, shape, rounds := null, 0, Leaf, 0;
    }

    ghost predicate Valid()
      reads this, Nodes(shape)
    {
      Hangs(Root, shape) && Proper(shape)
    }

    /** The loop invariant: the pointers realise the cut. */
    ghost predicate Realises(c: Cut, l: SplayTreeNode, r: SplayTreeNode, dummy: SplayTreeNode)
      reads this, Nodes(c.t), NodesOf(c.l), NodesOf(c.r), dummy
    {
      && c.t.Node? && Apart(c, dummy)
      && Hangs(Root, c.t) && HangsL(c.l, dummy) && HangsR(c.r, dummy)
      && l == Tip(c.l, dummy) && r == Tip(c.r, dummy)
    }

    /** Rotates the root to the right. */
    method TurnRight(ghost c: Cut, l: SplayTreeNode, r: SplayTreeNode, dummy: SplayTreeNode)
      requires Realises(c, l, r, dummy) && c.t.left.Node?
      modifies this`Root, c.t.node, c.t.left.node
      ensures Realises(c.(t := RotateRight(c.t)), l, r, dummy)
    {
      TwoDeep(c.t);
      var y := Root.Left;
      assert Hangs(y, c.t.left);
      Root.Left := y.Right;
      y.Right := Root;
      Root := y;
      assert Hangs(y.Right, Node(c.t.left.right, c.t.node, c.t.right));
    }

    /** Rotates the root to the left. */
    method TurnLeft(ghost c: Cut, l: SplayTreeNode, r: SplayTreeNode, dummy: SplayTreeNode)
      requires Realises(c, l, r, dummy) && c.t.right.Node?
      modifies this`Root, c.t.node, c.t.right.node
      ensures Realises(c.(t := RotateLeft(c.t)), l, r, dummy)
    {
      TwoDeep(c.t);
      var y := Root.Right;
      assert Hangs(y, c.t.right);
      Root.Right := y.Left;
      y.Left := Root;
      Root := y;
      assert Hangs(y.Left, Node(c.t.left, c.t.node, c.t.right.left));
    }

    /** Hangs the root at the open end of the right side tree and goes on with its left child. */
    method DescendLeft(ghost c: Cut, l: SplayTreeNode, r: SplayTreeNode, dummy: SplayTreeNode)
      returns (r': SplayTreeNode)
      requires Realises(c, l, r, dummy) && c.t.left.Node?
      modifies this`Root, r`Left
      ensures Realises(LinkRight(c), l, r', dummy)
    {
      r.Left := Root;
      r' := Root;
      Root := Root.Left;
    }

    /** Hangs the root at the open end of the left side tree and goes on with its right child. */
    method DescendRight(ghost c: Cut, l: SplayTreeNode, r: SplayTreeNode, dummy: SplayTreeNode)
      returns (l': SplayTreeNode)
      requires Realises(c, l, r, dummy) && c.t.right.Node?
      modifies this`Root, l`Right
      ensures Realises(LinkLeft(c), l', r, dummy)
    {
      l.Right := Root;
      l' := Root;
      Root := Root.Right;
    }

    /** The four assignments after the loop. */
    method Close(ghost c: Cut, l: SplayTreeNode, r: SplayTreeNode, dummy: SplayTreeNode)
      requires Realises(c, l, r, dummy)
      modifies l`Right, r`Left, c.t.node
      ensures Hangs(Root, Finish(c)) && Proper(Finish(c)) && Nodes(Finish(c)) == AllNodes(c)
    {
      l.Right := Root.Left;
      r.Left := Root.Right;
      AssembleLHangs(c.l, dummy, c.t.left);
      AssembleRHangs(c.r, dummy, c.t.right);
      Root.Left := dummy.Right;
      Root.Right := dummy.Left;
    }

    /** Reading the pointers around the root. */
    lemma RootFacts(c: Cut, l: SplayTreeNode, r: SplayTreeNode, dummy: SplayTreeNode)
      requires Realises(c, l, r, dummy)
      ensures c.t.Node? && Root == c.t.node && (Root.Left == null <==> c.t.left.Leaf?)
              && (Root.Right == null <==> c.t.right.Leaf?)
      ensures c.t.left.Node? ==> Root.Left == c.t.left.node && Nodes(RotateRight(c.t)) == Nodes(c.t)
      ensures c.t.right.Node? ==> Root.Right == c.t.right.node && Nodes(RotateLeft(c.t)) == Nodes(c.t)
      ensures Root in AllNodes(c) && l in AllNodes(c) + {dummy} && r in AllNodes(c) + {dummy}
      ensures Root.Left != null ==> Root.Left in AllNodes(c)
      ensures Root.Right != null ==> Root.Right in AllNodes(c)
      ensures AllNodes(LinkRight(c)) == AllNodes(LinkLeft(c)) == AllNodes(c)
    {
      TwoDeep(c.t);
      assert Hangs(Root.Left, c.t.left) && Hangs(Root.Right, c.t.right);
    }

    /** One round of the loop; stop when it breaks out. */
    method Turn(data: MemoryBlock, ghost c: Cut, l: SplayTreeNode, r: SplayTreeNode, dummy: SplayTreeNode)
      returns (stop: bool, l': SplayTreeNode, r': SplayTreeNode)
      requires Realises(c, l, r, dummy)
      modifies this`Root, AllNodes(c), dummy
      ensures stop <==> Round(c, data).Stop?
      ensures Realises(Round(c, data).at, l', r', dummy) && AllNodes(Round(c, data).at) == AllNodes(c)
    {
      hide Realises, Nodes, NodesOf, AllNodes;
      RootFacts(c, l, r, dummy);
      l', r', stop := l, r, true;
      ghost var d := c;
      if Less(data, Root.Data) {
        if Root.Left == null {
          return;
        }
        if Less(data, Root.Left.Data) {
          TurnRight(c, l, r, dummy);
          d := c.(t := RotateRight(c.t));
          RotatedNodes(c, d);
          RootFacts(d, l, r, dummy);
          if Root.Left == null {
            return;
          }
        }
        r' := DescendLeft(d, l, r, dummy);
        stop := false;
      } else if Less(Root.Data, data) {
        if Root.Right == null {
          return;
        }
        if Less(Root.Right.Data, data) {
          TurnLeft(c, l, r, dummy);
          d := c.(t := RotateLeft(c.t));
          RotatedNodes(c, d);
          RootFacts(d, l, r, dummy);
          if Root.Right == null {
            return;
          }
        }
        l' := DescendRight(d, l, r, dummy);
        stop := false;
      }
    }

    /** The loop and what follows it. */
    method Rounds(data: MemoryBlock, dummy: SplayTreeNode, ghost start: Cut) returns (ghost taken: nat)
      requires Realises(start, dummy, dummy, dummy)
      modifies this`Root, AllNodes(start), dummy
      ensures Hangs(Root, TopDown(start, data)) && Proper(TopDown(start, data))
      ensures Nodes(TopDown(start, data)) == AllNodes(start)
      ensures taken == CostFrom(start, data)
    {
      hide Realises, Nodes, NodesOf, AllNodes, Finish, Hangs, Proper, Round;
      var l: SplayTreeNode, r: SplayTreeNode := dummy, dummy;
      ghost var c := start;
      RootFacts(c, l, r, dummy);
      var stop := false;
      taken := 0;
      while !stop
        invariant c.t.Node? && Realises(c, l, r, dummy) && AllNodes(c) == AllNodes(start)
        invariant TopDown(start, data) == if stop then Finish(c) else TopDown(c, data)
        invariant taken + (if stop then 0 else CostFrom(c, data)) == CostFrom(start, data)
        decreases !stop, c.t
      {
        stop, l, r := Turn(data, c, l, r, dummy);
        taken := taken + 1;
        c := Round(c, data).at;
      }
      RootFacts(c, l, r, dummy);
      Close(c, l, r, dummy);
    }

    method Splay(data: MemoryBlock)
      requires Valid()
      modifies this`Root, this`shape, this`rounds, Nodes(shape)
      ensures Valid() && shape == Splayed(old(shape), data) && Nodes(shape) == old(Nodes(shape))
      ensures rounds == old(rounds) + Cost(old(shape), data)
    {
      if Root == null {
        return;
      }
      AllAllocated(shape);
      var n := new SplayTreeNode(MemoryBlock(0, 0));
      ghost var taken := Rounds(data, n, Cut(Nil, shape, Nil));
      rounds := rounds + taken;
      shape := TopDown(Cut(Nil, shape, Nil), data);
    }

    /** The three branches of Add on the splayed tree. */
    method Graft(data: SplayTreeNode)
      requires Valid() && shape.Node? && (data !in Nodes(shape) || data.Data == shape.node.Data)
      modifies this, Nodes(shape), data
      ensures Valid() && shape == Grafted(old(shape), data)
      ensures Elements == old(Elements) + if data.Data == old(shape).node.Data then 0 else 1
      ensures rounds == old(rounds)
    {
      ghost var s := shape;
      assert Hangs(Root.Right, s.right) && Hangs(Root.Left, s.left);
      if data.Data == Root.Data {
        return;
      } else if Less(data.Data, Root.Data) {
        data.Left := Root.Left;
        data.Right := Root;
        Root.Left := null;
        shape := Node(s.left, data, Node(Leaf, s.node, s.right));
        assert Nodes(shape.right) == {s.node} + Nodes(s.right) && Hangs(data.Right, shape.right);
      } else {
        data.Right := Root.Right;
        data.Left := Root;
        Root.Right := null;
        shape := Node(Node(s.left, s.node, Leaf), data, s.right);
        assert Nodes(shape.left) == {s.node} + Nodes(s.left) && Hangs(data.Left, shape.left);
      }
      Root := data;
      Elements := Elements + 1;
    }

    /** Links a new node, whatever its links are; a node whose key is present already, and in a search tree a node that
        is in the tree itself, changes nothing but the shape. */
    method Add(data: SplayTreeNode)
      requires Valid() && (data in Nodes(shape) ==> SearchTree(shape))
      requires shape.Leaf? ==> data.Left == null && data.Right == null
      modifies this, Nodes(shape), data
      ensures Valid() && shape == Added(old(shape), data)
      ensures Elements == old(Elements) + |Inorder(shape)| - |Inorder(old(shape))|
      ensures rounds == old(rounds) + CallCost(old(shape), Insert(data))
    {
      hide Inorder, Members, Grafted, SearchTree;
      AddedMembers(shape, data);
      if data in Nodes(shape) {
        NodeFound(shape, data);
      }
      if Root == null {
        Root := data;
        shape := Node(Leaf, data, Leaf);
        Elements := Elements + 1;
      } else {
        Splay(data.Data);
        Graft(data);
      }
    }

    /** In a search tree, finds the node exactly if the key is a member, and leaves it at the root. */
    method Search(data: MemoryBlock) returns (n: SplayTreeNode?)
      requires Valid()
      modifies this`Root, this`shape, this`rounds, Nodes(shape)
      ensures Valid() && shape == Splayed(old(shape), data)
      ensures rounds == old(rounds) + CallCost(old(shape), Find(data))
      ensures n != null ==> n == Root && n.Data == data
      ensures SearchTree(old(shape)) ==> (n != null <==> data in Members(old(shape)))
    {
      if Root == null {
        return null;
      }
      if SearchTree(shape) {
        SearchFinds(shape, data);
      }
      Splay(data);
      if Root.Data == data {
        n := Root;
      } else {
        n := null;
      }
    }

    /** The root leaves a tree with a left half: that is splayed in its turn, and the right half of what comes out is
        hung at the node that has left. */
    method Behead(key: MemoryBlock)
      requires Valid() && shape.Node? && shape.left.Node?
      modifies this`Root, this`shape, this`rounds, Nodes(shape)
      ensures rounds == old(rounds) + Cost(old(shape).left, key)
      ensures Valid() && shape == Splayed(old(shape).left, key) && Nodes(shape) == Nodes(old(shape).left)
      ensures Root != null && old(shape).node !in Nodes(shape) && old(shape).node.Right == Root.Right
    {
      var n := Root;
      ghost var s := shape;
      assert Hangs(Root.Left, s.left);
      Root := Root.Left;
      shape := s.left;
      Splay(key);
      n.Right := Root.Right;
    }

    /** Remove as the source has it, down to the assignment into the node that has left the tree. */
    method Remove(data: SplayTreeNode)
      requires Valid() && |Inorder(shape)| <= Elements
      modifies this, Nodes(shape)
      ensures Valid() && |Inorder(shape)| <= Elements
      ensures shape == Removed(old(shape), data.Data)
      ensures rounds == old(rounds) + CallCost(old(shape), Delete(data.Data))
      ensures Elements ==
              old(Elements)
              - if old(shape).Node? && Splayed(old(shape), data.Data).node.Data == data.Data then 1 else 0
      ensures old(shape).Node? ==>
                var s := Splayed(old(shape), data.Data);
                s.node.Data == data.Data && s.left.Node? ==>
                    Root != null && s.node !in Nodes(shape) && s.node.Right == Root.Right
    {
      if Root == null {
        return;
      }
      SplayedInorder(shape, data.Data);
      Splay(data.Data);
      ghost var s := shape;
      assert Hangs(Root.Right, s.right) && Hangs(Root.Left, s.left);
      if Root.Data == data.Data {
        if Root.Left == null {
          Root := Root.Right;
          shape := s.right;
        } else {
          SplayedInorder(s.left, data.Data);
          Behead(data.Data);
        }
        Elements := Elements - 1;
      }
    }

    /** The first call of a run; a key is deleted by way of a node made for the purpose. */
    method Call(op: Op, ghost rest: seq<Op>)
      requires Valid() && |Inorder(shape)| <= Elements && Insertable(shape, [op] + rest)
      modifies this, Nodes(shape), Inserted([op])
      ensures Valid() && |Inorder(shape)| <= Elements && shape == TreeAfter(old(shape), op)
      ensures forall n :: n in Nodes(shape) ==> n in old(Nodes(shape)) || n in Inserted([op])
      ensures Insertable(shape, rest) && rounds == old(rounds) + CallCost(old(shape), op)
      ensures !op.Delete? ==> Elements - |Inorder(shape)| == old(Elements) - |Inorder(old(shape))|
      ensures SearchTree(old(shape)) && Fitting(Members(old(shape)), op) ==>
                && SearchTree(shape) && Members(shape) == SetAfter(Members(old(shape)), op)
                && Elements - |Inorder(shape)| == old(Elements) - |Inorder(old(shape))|
    {
      hide Inorder, Members, Splayed, Added, Removed, SearchTree, Fitting;
      ghost var t := shape;
      NextCall(t, op, rest);
      CallNodes(t, op);
      CallCount(t, op);
      if SearchTree(t) {
        CallRefines(t, op);
      }
      match op {
        case Insert(n) => Add(n);
        case Find(key) =>
          SplayedInorder(t, key);
          var _ := Search(key);
        case Delete(key) =>
          AllAllocated(shape);
          var probe := new SplayTreeNode(key);
          Remove(probe);
      }
    }

    /** Any run of calls.  Without deletions, Elements stays the number of nodes in the tree; with them, it does, and
        the tree stays a faithful picture of the set, as long as every call fits. */
    method Perform(ops: seq<Op>)
      requires Valid() && Elements == |Inorder(shape)| && SearchTree(shape)
      requires Insertable(shape, ops)
      modifies this, Nodes(shape), Inserted(ops)
      ensures Valid() && shape == TreeAfterAll(old(shape), ops) && |Inorder(shape)| <= Elements
      ensures rounds == old(rounds) + RunCost(old(shape), ops)
      ensures old(shape).Leaf? ==> rounds <= old(rounds) + |ops| * (12 * Rank(|ops|) + 2)
      ensures (forall op :: op in ops ==> !op.Delete?) ==> Elements == |Inorder(shape)|
      ensures FittingAll(Members(old(shape)), ops) ==>
                && Elements == |Inorder(shape)| && SearchTree(shape)
                && Members(shape) == SetAfterAll(Members(old(shape)), ops)
    {
      hide Inorder, Members, SearchTree, Fitting, Insertable, Inserted, TreeAfter, SetAfter, Hangs, Proper;
      hide CallCost, RunCost, Rank;
      ghost var t, fit := shape, FittingAll(Members(shape), ops);
      var i := 0;
      NoCalls(t, ops);
      while i < |ops|
        invariant 0 <= i <= |ops|
        invariant Valid() && |Inorder(shape)| <= Elements && shape == TreeAfterAll(t, ops[..i])
        invariant rounds == old(rounds) + RunCost(t, ops[..i])
        invariant forall n :: n in Nodes(shape) ==> n in old(Nodes(shape)) || n in Inserted(ops)
        invariant Insertable(shape, ops[i..]) && Inserted(ops[i..]) <= Inserted(ops)
        invariant (forall op :: op in ops ==> !op.Delete?) ==> Elements == |Inorder(shape)|
        invariant fit ==> Elements == |Inorder(shape)| && SearchTree(shape)
        invariant fit ==> Members(shape) == SetAfterAll(Members(t), ops[..i])
      {
        ghost var u, rest := shape, ops[i + 1..];
        assert ops[i..] == [ops[i]] + rest;
        NextCall(u, ops[i], rest);
        LastCall(t, ops, i);
        Call(ops[i], rest);
        i := i + 1;
      }
      assert ops[..|ops|] == ops;
      RunBounded(ops);
    }
  }
}
