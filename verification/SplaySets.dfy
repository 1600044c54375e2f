/** Add, Search and Remove of splay.h on shapes, and the ordered set they are meant to be. */
module SplaySets {
  import opened SplayShapes

  /** The keys in the tree. */
  function Members(t: Shape): set<MemoryBlock> {
    set n | n in Inorder(t) :: n.Data
  }

  /** What Add makes of the splayed tree s: the new root takes one half, the old root and the other half. */
  function Grafted(s: Shape, n: SplayTreeNode): Shape
    requires s.Node?
  {
    if n.Data == s.node.Data then s
    else if Less(n.Data, s.node.Data) then Node(s.left, n, Node(Leaf, s.node, s.right))
    else Node(Node(s.left, s.node, Leaf), n, s.right)
  }

  function Added(t: Shape, n: SplayTreeNode): Shape {
    if t.Leaf? then Node(Leaf, n, Leaf) else Grafted(Splayed(t, n.Data), n)
  }

  /** Remove(node) as the source has it: the right half is not carried over. */
  function Removed(t: Shape, key: MemoryBlock): Shape {
    var s := Splayed(t, key);
    if s.Leaf? || s.node.Data != key then s
    else if s.left.Leaf? then s.right
    else Splayed(s.left, key)
  }

  /** Remove(node) with the assignment of splay.h:174 turned round: the old right half hangs at the new root. */
  function Joined(t: Shape, key: MemoryBlock): Shape {
    var s := Splayed(t, key);
    if s.Leaf? || s.node.Data != key then s
    else if s.left.Leaf? then s.right
    else
      var u := Splayed(s.left, key);
      Node(u.left, u.node, s.right)
  }

  /** The blocks of one tree agree on the size at every address; with that, the three comparisons are one order. */
  ghost predicate Lawful(t: Shape, key: MemoryBlock) {
    forall n :: n in Inorder(t) && n.Data.address == key.address ==> n.Data == key
  }

  /** Search finds the key exactly if it is a member, and then at the root. */
  lemma SearchFinds(t: Shape, key: MemoryBlock)
    requires SearchTree(t) && t.Node?
    ensures Splayed(t, key).node.Data == key <==> key in Members(t)
  {
    SplayedInorder(t, key);
    SplayedSplits(t, key);
    var s := Splayed(t, key);
    assert s.node in Inorder(s);
    if key in Members(t) {
      var n :| n in Inorder(t) && n.Data == key;
      assert n == s.node;
    }
  }

  /** Splaying adds and removes no member. */
  lemma SplayedMembers(t: Shape, key: MemoryBlock)
    ensures Members(Splayed(t, key)) == Members(t)
  {
    SplayedInorder(t, key);
  }

  /** What Add makes of the splayed tree s: the same sequence with n between the two halves. */
  lemma AddedInorder(t: Shape, n: SplayTreeNode)
    requires t.Node?
    ensures var s := Splayed(t, n.Data);
            && Inorder(t) == Inorder(s.left) + [s.node] + Inorder(s.right)
            && Inorder(Added(t, n)) ==
                 if n.Data == s.node.Data then Inorder(t)
                 else if Less(n.Data, s.node.Data) then Inorder(s.left) + [n] + ([s.node] + Inorder(s.right))
                 else (Inorder(s.left) + [s.node]) + [n] + Inorder(s.right)
  {
    hide Splayed;
    SplayedInorder(t, n.Data);
    var s := Splayed(t, n.Data);
    assert Inorder(Node(Leaf, s.node, s.right)) == [s.node] + Inorder(s.right);
    assert Inorder(Node(s.left, s.node, Leaf)) == Inorder(s.left) + [s.node];
  }

  /** Add puts the key into the set, and a key that is there already changes nothing in it; the number of
      nodes grows by one unless the key was found. */
  lemma AddedMembers(t: Shape, n: SplayTreeNode)
    ensures Members(Added(t, n)) == Members(t) + {n.Data}
    ensures |Inorder(Added(t, n))| == |Inorder(t)| + if t.Node? && n.Data == Splayed(t, n.Data).node.Data then 0 else 1
  {
    hide Splayed;
    if t.Node? {
      AddedInorder(t, n);
    }
  }

  /** Add keeps the search order exactly if no member has the same address with another size. */
  lemma AddedOrder(t: Shape, n: SplayTreeNode)
    requires SearchTree(t)
    ensures SearchTree(Added(t, n)) <==> Lawful(t, n.Data)
  {
    hide Splayed;
    if t.Node? {
      var s := Splayed(t, n.Data);
      AddedInorder(t, n);
      SplayedSplits(t, n.Data);
      RootSplits(s);
      var l, r := Inorder(s.left), Inorder(s.right);
      if Less(n.Data, s.node.Data) {
        IncreasingJoin([], s.node, r);
        assert [] + [s.node] + r == [s.node] + r;
        IncreasingJoin(l, n, [s.node] + r);
      } else if Less(s.node.Data, n.Data) {
        IncreasingJoin(l, s.node, []);
        assert l + [s.node] + [] == l + [s.node];
        IncreasingJoin(l + [s.node], n, r);
      } else if n.Data != s.node.Data {
        assert s.node in Inorder(t);
        if SearchTree(Added(t, n)) {
          IncreasingParts(l + [s.node], n, r);
        }
      }
    }
  }

  ghost predicate Least(t: Shape, key: MemoryBlock) {
    forall m :: m in Members(t) ==> key.address <= m.address
  }

  ghost predicate Greatest(t: Shape, key: MemoryBlock) {
    forall m :: m in Members(t) ==> m.address <= key.address
  }

  /** With the key at the root, the other members are those of the two halves. */
  lemma RootMembers(t: Shape)
    requires t.Node? && SearchTree(t)
    ensures Members(t) - {t.node.Data} == Members(t.left) + Members(t.right)
    ensures Members(t.left) !! Members(t.right) && t.node.Data in Members(t)
    ensures t.left.Leaf? <==> Least(t, t.node.Data)
    ensures t.right.Leaf? <==> Greatest(t, t.node.Data)
  {
    RootSplits(t);
    var l, r := Inorder(t.left), Inorder(t.right);
    assert Inorder(t) == l + [t.node] + r;
    assert t.node in Inorder(t);
    forall n | n in l
      ensures Less(n.Data, t.node.Data) && n.Data in Members(t)
    {
      assert n in Inorder(t);
    }
    forall n | n in r
      ensures Less(t.node.Data, n.Data) && n.Data in Members(t)
    {
      assert n in Inorder(t);
    }
    if t.left.Node? {
      assert t.left.node in l;
    }
    if t.right.Node? {
      assert t.right.node in r;
    }
  }

  /** Remove as written deletes exactly the key if and only if the key is absent, least or greatest. */
  lemma RemovedExactly(t: Shape, key: MemoryBlock)
    requires SearchTree(t)
    ensures Members(Removed(t, key)) == Members(t) - {key} <==> key !in Members(t) || Least(t, key) || Greatest(t, key)
    ensures SearchTree(Removed(t, key))
  {
    hide Splayed, Members, Inorder;
    SplayedInorder(t, key);
    SplayedMembers(t, key);
    var s := Splayed(t, key);
    if t.Node? {
      SearchFinds(t, key);
      if key in Members(t) {
        RootMembers(s);
        RootSplits(s);
        NoMembers(s.right);
        if s.left.Node? {
          SplayedMembers(s.left, key);
          SplayedInorder(s.left, key);
        } else {
          NoMembers(s.left);
        }
      }
    }
    NoMembers(t);
  }

  /** Three nodes, and the middle one removed: the greatest is lost with it. */
  lemma MiddleRemoved(a: SplayTreeNode, b: SplayTreeNode, c: SplayTreeNode)
    requires Less(a.Data, b.Data) && Less(b.Data, c.Data)
    ensures var t := Node(Node(Leaf, a, Leaf), b, Node(Leaf, c, Leaf));
            && SearchTree(t) && c.Data in Members(t) && c.Data != b.Data
            && Removed(t, b.Data) == Node(Leaf, a, Leaf) && c.Data !in Members(Removed(t, b.Data))
  {
    var t := Node(Node(Leaf, a, Leaf), b, Node(Leaf, c, Leaf));
    var low, high := Node(Leaf, a, Leaf), Node(Leaf, c, Leaf);
    OneNode(a);
    OneNode(c);
    assert Inorder(t) == [a] + [b] + [c] == [a, b, c];
    assert c in Inorder(t);
    assert TopDown(Cut(Nil, low, Nil), b.Data) == low;
    assert Splayed(t, b.Data) == t;
  }

  lemma OneNode(n: SplayTreeNode)
    ensures Inorder(Node(Leaf, n, Leaf)) == [n]
  {
    assert Inorder(Node(Leaf, n, Leaf)) == [] + [n] + [];
  }

  /** Two blocks at one address: neither comes before the other, so the tree is no longer ordered. */
  lemma SizesClash(a: SplayTreeNode, b: SplayTreeNode)
    requires a.Data.address == b.Data.address && a.Data.size != b.Data.size
    ensures SearchTree(Node(Leaf, a, Leaf)) && !SearchTree(Added(Node(Leaf, a, Leaf), b))
  {
    var t := Node(Leaf, a, Leaf);
    OneNode(a);
    AddedOrder(t, b);
  }

  /** So the node count falls by exactly one for a key that is present, as Elements does, in the same cases only. */
  lemma RemovedCount(t: Shape, key: MemoryBlock)
    requires SearchTree(t) && key in Members(t)
    ensures |Inorder(Removed(t, key))| == |Inorder(t)| - 1 <==> Least(t, key) || Greatest(t, key)
  {
    hide Splayed, Members;
    SplayedInorder(t, key);
    SplayedMembers(t, key);
    NoMembers(t);
    SearchFinds(t, key);
    var s := Splayed(t, key);
    RootMembers(s);
    if s.left.Node? {
      SplayedInorder(s.left, key);
    }
  }

  lemma NoMembers(t: Shape)
    ensures Members(t) == {} <==> t.Leaf?
  {
    if t.Node? {
      assert t.node in Inorder(t);
      assert t.node.Data in Members(t);
    }
  }

  /** With the join turned round, Remove deletes exactly the key from every search tree and keeps the order. */
  lemma JoinedExactly(t: Shape, key: MemoryBlock)
    requires SearchTree(t)
    ensures Members(Joined(t, key)) == Members(t) - {key} && SearchTree(Joined(t, key))
  {
    hide Splayed;
    SplayedInorder(t, key);
    SplayedMembers(t, key);
    var s := Splayed(t, key);
    if t.Node? {
      SearchFinds(t, key);
      if key in Members(t) {
        RootMembers(s);
        RootSplits(s);
        if s.left.Node? {
          var u := Splayed(s.left, key);
          SplayedSplits(s.left, key);
          SplayedInorder(s.left, key);
          assert Inorder(s.left) == Inorder(u.left) + [u.node] + Inorder(u.right);
          NothingAbove(u, key);
          assert Inorder(Joined(t, key)) == Inorder(s.left) + Inorder(s.right);
          IncreasingAround(Inorder(s.left), s.node, Inorder(s.right));
          assert Members(Joined(t, key)) == Members(s.left) + Members(s.right);
        }
      }
    }
  }

  lemma NothingAbove(u: Shape, key: MemoryBlock)
    requires u.Node? && AllBelow(Inorder(u), key) && AllAbove(Inorder(u.right), key)
    ensures Inorder(u.right) == []
  {
    RootsAreIn(u);
  }

  lemma RootsAreIn(t: Shape)
    requires t.Node?
    ensures t.right.Node? ==> t.right.node in Inorder(t.right) && t.right.node in Inorder(t)
  {
    if t.right.Node? {
      var r := Inorder(t.right);
      assert r[|Inorder(t.right.left)|] == t.right.node;
      assert Inorder(t)[|Inorder(t.left)| + 1 + |Inorder(t.right.left)|] == t.right.node;
    }
  }

  lemma IncreasingAround(a: seq<SplayTreeNode>, n: SplayTreeNode, b: seq<SplayTreeNode>)
    requires Increasing(a) && Increasing(b) && AllBelow(a, n.Data) && AllAbove(b, n.Data)
    ensures Increasing(a + b)
  {
    var s := a + b;
    forall i, j | 0 <= i < j < |s|
      ensures Less(s[i].Data, s[j].Data)
    {
      if i < |a| <= j {
        assert Less(a[i].Data, n.Data) && Less(n.Data, b[j - |a|].Data);
      }
    }
  }

  /** One call on a tree. */
  datatype Op = Insert(n: SplayTreeNode) | Find(key: MemoryBlock) | Delete(key: MemoryBlock)

  function TreeAfter(t: Shape, op: Op): Shape {
    match op
    case Insert(n) => Added(t, n)
    case Find(key) => Splayed(t, key)
    case Delete(key) => Removed(t, key)
  }

  function SetAfter(s: set<MemoryBlock>, op: Op): set<MemoryBlock> {
    match op
    case Insert(n) => s + {n.Data}
    case Find(_) => s
    case Delete(key) => s - {key}
  }

  /** The call does what is meant, judged by the set alone: an inserted key does not meet another size at its
      address, and a deleted key is absent, least or greatest. */
  ghost predicate Fitting(s: set<MemoryBlock>, op: Op) {
    match op
    case Insert(n) => forall m :: m in s && m.address == n.Data.address ==> m == n.Data
    case Find(_) => true
    case Delete(key) =>
      || key !in s
      || (forall m :: m in s ==> key.address <= m.address)
      || (forall m :: m in s ==> m.address <= key.address)
  }

  function TreeAfterAll(t: Shape, ops: seq<Op>): Shape {
    if ops == [] then t else TreeAfter(TreeAfterAll(t, ops[..|ops| - 1]), ops[|ops| - 1])
  }

  function SetAfterAll(s: set<MemoryBlock>, ops: seq<Op>): set<MemoryBlock> {
    if ops == [] then s else SetAfter(SetAfterAll(s, ops[..|ops| - 1]), ops[|ops| - 1])
  }

  lemma CallRefines(t: Shape, op: Op)
    requires SearchTree(t)
    ensures SearchTree(TreeAfter(t, op)) && Members(TreeAfter(t, op)) == SetAfter(Members(t), op) <==>
              Fitting(Members(t), op)
  {
    hide Splayed, Members, Inorder, Added, Removed, SearchTree;
    match op
    case Insert(n) =>
      AddedMembers(t, n);
      AddedOrder(t, n);
      LawfulMembers(t, n.Data);
    case Find(key) =>
      SplayedMembers(t, key);
      SplayedInorder(t, key);
      SameOrder(t, Splayed(t, key));
    case Delete(key) =>
      RemovedExactly(t, key);
  }

  lemma SameOrder(t: Shape, u: Shape)
    requires Inorder(t) == Inorder(u) && SearchTree(t)
    ensures SearchTree(u)
  {
  }

  lemma LawfulMembers(t: Shape, key: MemoryBlock)
    ensures Lawful(t, key) <==> forall m :: m in Members(t) && m.address == key.address ==> m == key
  {
  }

  /** Any run of calls keeps the tree a faithful picture of the set, as long as every call fits. */
  lemma {:induction false} RunRefines(t: Shape, ops: seq<Op>)
    requires SearchTree(t)
    requires forall k :: 0 <= k < |ops| ==> Fitting(SetAfterAll(Members(t), ops[..k]), ops[k])
    ensures SearchTree(TreeAfterAll(t, ops)) && Members(TreeAfterAll(t, ops)) == SetAfterAll(Members(t), ops)
    decreases |ops|
  {
    if ops != [] {
      var last := |ops| - 1;
      forall k | 0 <= k < last
        ensures Fitting(SetAfterAll(Members(t), ops[..last][..k]), ops[..last][k])
      {
        assert ops[..last][..k] == ops[..k];
      }
      RunRefines(t, ops[..last]);
      assert Fitting(SetAfterAll(Members(t), ops[..last]), ops[last]);
      CallRefines(TreeAfterAll(t, ops[..last]), ops[last]);
    }
  }
}
