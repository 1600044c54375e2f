/** What splaying costs: the rounds of its loop, how deep it leaves the nodes it has come by, and what any run of calls
    comes to. */
module SplayCosts {
  import opened SplayShapes
  import opened SplaySets

  /** The rounds of the loop from cut c on. */
  function CostFrom(c: Cut, key: MemoryBlock): nat
    requires c.t.Node?
    decreases c.t
  {
    1 + match Round(c, key)
        case Stop(_) => 0
        case Go(d) => CostFrom(d, key)
  }

  function Cost(t: Shape, key: MemoryBlock): nat {
    if t.Leaf? then 0 else CostFrom(Cut(Nil, t, Nil), key)
  }

  /** Splaying without side trees: from the bottom of the search up, two levels at a time where they go the same way. */
  function Pulled(t: Shape, key: MemoryBlock): (s: Shape)
    ensures s.Node? <==> t.Node?
  {
    if t.Leaf? then t
    else if Less(key, t.node.Data) then
      if t.left.Leaf? then t
      else if Less(key, t.left.node.Data) then
        if t.left.left.Leaf? then RotateRight(t) else TwoRight(Pulled(t.left.left, key), t)
      else OneRight(Pulled(t.left, key), t)
    else if Less(t.node.Data, key) then
      if t.right.Leaf? then t
      else if Less(t.right.node.Data, key) then
        if t.right.right.Leaf? then RotateLeft(t) else TwoLeft(Pulled(t.right.right, key), t)
      else OneLeft(Pulled(t.right, key), t)
    else t
  }

  /** Tree s in place of the left child of t, and t below it on the right. */
  function OneRight(s: Shape, t: Shape): Shape
    requires s.Node? && t.Node?
  {
    Node(s.left, s.node, Node(s.right, t.node, t.right))
  }

  /** Tree s in place of the leftmost grandchild of t: the child and then t come below it on the right. */
  function TwoRight(s: Shape, t: Shape): Shape
    requires s.Node? && t.Node? && t.left.Node?
  {
    Node(s.left, s.node, Node(s.right, t.left.node, Node(t.left.right, t.node, t.right)))
  }

  function OneLeft(s: Shape, t: Shape): Shape
    requires s.Node? && t.Node?
  {
    Node(Node(t.left, t.node, s.left), s.node, s.right)
  }

  function TwoLeft(s: Shape, t: Shape): Shape
    requires s.Node? && t.Node? && t.right.Node?
  {
    Node(Node(Node(t.left, t.node, t.right.left), t.right.node, s.left), s.node, s.right)
  }

  /** The loop with its side trees comes to the same. */
  lemma {:induction false} TopDownPulled(c: Cut, key: MemoryBlock)
    requires c.t.Node?
    ensures TopDown(c, key) == Finish(c.(t := Pulled(c.t, key)))
    decreases c.t
  {
    match Round(c, key)
    case Stop(d) =>
    case Go(d) => TopDownPulled(d, key);
  }

  lemma SplayedPulled(t: Shape, key: MemoryBlock)
    ensures Splayed(t, key) == Pulled(t, key)
  {
    if t.Node? {
      TopDownPulled(Cut(Nil, t, Nil), key);
    }
  }

  /** The rounds do not depend on the side trees. */
  lemma {:induction false} CostMiddle(c: Cut, d: Cut, key: MemoryBlock)
    requires c.t.Node? && c.t == d.t
    ensures CostFrom(c, key) == CostFrom(d, key)
    decreases c.t
  {
    if Round(c, key).Go? {
      CostMiddle(Round(c, key).at, Round(d, key).at, key);
    }
  }

  /** One round, and what is left to do. */
  lemma CostStep(t: Shape, key: MemoryBlock)
    requires t.Node?
    ensures Cost(t, key) ==
            1 + if Less(key, t.node.Data) && t.left.Node? then
                  if Less(key, t.left.node.Data) then Cost(t.left.left, key) else Cost(t.left, key)
                else if Less(t.node.Data, key) && t.right.Node? then
                  if Less(t.right.node.Data, key) then Cost(t.right.right, key) else Cost(t.right, key)
                else 0
  {
    var c := Cut(Nil, t, Nil);
    match Round(c, key)
    case Stop(d) =>
    case Go(d) => CostMiddle(d, Cut(Nil, d.t, Nil), key);
  }

  /** Node n is found in t at most d steps below the root. */
  predicate Within(t: Shape, n: SplayTreeNode, d: nat) {
    t.Node? && (t.node == n || (d > 0 && (Within(t.left, n, d - 1) || Within(t.right, n, d - 1))))
  }

  /** The search for the key comes by node n after d steps. */
  predicate ComesBy(t: Shape, key: MemoryBlock, n: SplayTreeNode, d: nat) {
    t.Node? &&
    if d == 0 then t.node == n
    else if Less(key, t.node.Data) then ComesBy(t.left, key, n, d - 1)
    else Less(t.node.Data, key) && ComesBy(t.right, key, n, d - 1)
  }

  /** Node n is the root of s, or at most l or r steps below its left or right child. */
  predicate Held(s: Shape, n: SplayTreeNode, l: nat, r: nat) {
    s.Node? && (s.node == n || Within(s.left, n, l) || Within(s.right, n, r))
  }

  lemma HeldRight(s: Shape, t: Shape, n: SplayTreeNode, l: nat, r: nat)
    requires s.Node? && t.Node?
    ensures Held(s, n, l, r) || t.node == n ==> Held(OneRight(s, t), n, l, r + 1)
    ensures t.left.Node? && (Held(s, n, l, r) || t.left.node == n) ==> Held(TwoRight(s, t), n, l, r + 1)
    ensures t.left.Node? && t.node == n ==> Held(TwoRight(s, t), n, l, r + 1)
    ensures t.left.Node? && (t.left.node == n || t.node == n) ==> Held(RotateRight(t), n, l, r + 1)
  {
  }

  lemma HeldLeft(s: Shape, t: Shape, n: SplayTreeNode, l: nat, r: nat)
    requires s.Node? && t.Node?
    ensures Held(s, n, l, r) || t.node == n ==> Held(OneLeft(s, t), n, l + 1, r)
    ensures t.right.Node? && (Held(s, n, l, r) || t.right.node == n) ==> Held(TwoLeft(s, t), n, l + 1, r)
    ensures t.right.Node? && t.node == n ==> Held(TwoLeft(s, t), n, l + 1, r)
    ensures t.right.Node? && (t.right.node == n || t.node == n) ==> Held(RotateLeft(t), n, l + 1, r)
  {
  }

  /** How deep the search leaves node n, d steps down from the root, on a side that it does or does not leave first. */
  function Deep(d: nat, first: bool): nat {
    (if first then d + 2 else d + 1) / 2
  }

  lemma {:induction false} HalvesDepth(t: Shape, key: MemoryBlock, n: SplayTreeNode, d: nat, l: nat, r: nat)
    requires ComesBy(t, key, n, d) && Deep(d, Less(t.node.Data, key)) <= l && Deep(d, Less(key, t.node.Data)) <= r
    ensures Held(Pulled(t, key), n, l, r)
    decreases t
  {
    hide Within, OneRight, TwoRight, OneLeft, TwoLeft, RotateRight, RotateLeft;
    if Less(key, t.node.Data) && t.left.Node? {
      var two := Less(key, t.left.node.Data);
      var u := if two then t.left.left else t.left;
      if d > (if two then 1 else 0) {
        HalvesDepth(u, key, n, if two then d - 2 else d - 1, l, r - 1);
      }
      HeldRight(if u.Node? then Pulled(u, key) else t, t, n, l, r - 1);
    } else if Less(t.node.Data, key) && t.right.Node? {
      var two := Less(t.right.node.Data, key);
      var u := if two then t.right.right else t.right;
      if d > (if two then 1 else 0) {
        HalvesDepth(u, key, n, if two then d - 2 else d - 1, l - 1, r);
      }
      HeldLeft(if u.Node? then Pulled(u, key) else t, t, n, l - 1, r);
    }
  }

  /** The depth law: every node that the search comes by ends at most half as deep as it was, plus two. */
  lemma DepthHalved(t: Shape, key: MemoryBlock, n: SplayTreeNode, d: nat)
    requires ComesBy(t, key, n, d)
    ensures Within(Splayed(t, key), n, d / 2 + 2)
  {
    SplayedPulled(t, key);
    HalvesDepth(t, key, n, d, d / 2 + 1, d / 2 + 1);
  }

  /** A chain of three to the left, and its last node splayed. */
  lemma ChainSplayed(a: SplayTreeNode, b: SplayTreeNode, c: SplayTreeNode)
    requires Less(a.Data, b.Data) && Less(b.Data, c.Data)
    ensures Splayed(Node(Node(Node(Leaf, a, Leaf), b, Leaf), c, Leaf), a.Data) ==
            Node(Leaf, a, Node(Leaf, b, Node(Leaf, c, Leaf)))
  {
    var t := Node(Node(Node(Leaf, a, Leaf), b, Leaf), c, Leaf);
    SplayedPulled(t, a.Data);
    assert Pulled(t.left.left, a.Data) == t.left.left;
  }

  function Count(t: Shape): nat {
    if t.Leaf? then 0 else Count(t.left) + 1 + Count(t.right)
  }

  lemma {:induction false} CountInorder(t: Shape)
    ensures Count(t) == |Inorder(t)|
    decreases t
  {
    if t.Node? {
      CountInorder(t.left);
      CountInorder(t.right);
    }
  }

  lemma PulledCount(t: Shape, key: MemoryBlock)
    ensures Count(Pulled(t, key)) == Count(t)
  {
    SplayedPulled(t, key);
    SplayedInorder(t, key);
    CountInorder(t);
    CountInorder(Pulled(t, key));
  }

  /** The logarithm of n to the base two, rounded down. */
  function Rank(n: nat): nat {
    if n < 2 then 0 else 1 + Rank(n / 2)
  }

  function Power(k: nat): nat {
    if k == 0 then 1 else 2 * Power(k - 1)
  }

  lemma {:induction false} RankPower(n: nat)
    requires n > 0
    ensures Power(Rank(n)) <= n < 2 * Power(Rank(n))
    decreases n
  {
    if n >= 2 {
      RankPower(n / 2);
    }
  }

  lemma {:induction false} RankGrows(m: nat, n: nat)
    requires m <= n
    ensures Rank(m) <= Rank(n)
    decreases n
  {
    if m >= 2 {
      RankGrows(m / 2, n / 2);
    }
  }

  /** Of two parts of n, not both have its rank. */
  lemma {:induction false} RankParts(a: nat, b: nat, n: nat)
    requires 0 < a <= b && a + b <= n
    ensures Rank(a) < Rank(n)
    decreases a
  {
    if a >= 2 {
      RankParts(a / 2, b / 2, n / 2);
    }
  }

  /** What a tree has saved up for later calls: twice the sum of the ranks of all its subtrees. */
  function Potential(t: Shape): nat {
    if t.Leaf? then 0 else Potential(t.left) + Potential(t.right) + 2 * Rank(Count(t))
  }

  predicate Saved(t: Shape) {
    t.Node? && Potential(t) == Potential(t.left) + Potential(t.right) + 2 * Rank(Count(t))
  }

  function Halves(s: Shape): nat
    requires s.Node?
  {
    Potential(s.left) + Potential(s.right)
  }

  /** Splaying a tree takes at most this, if it is counted without the root of what comes out. */
  predicate Affords(t: Shape, key: MemoryBlock)
    requires t.Node?
  {
    Cost(t, key) + Halves(Pulled(t, key)) <= Potential(t) + 4 * Rank(Count(t)) + 1
  }

  /** Two levels the same way: m nodes are left in the middle, of y below the child and n below the root; the child
      keeps p nodes and the root q. */
  lemma {:induction false} TwoLevels(m: nat, y: nat, p: nat, q: nat, n: nat)
    requires 0 < m <= y <= n && p <= n && 0 < q && q + m <= n
    ensures 1 + 4 * Rank(m) + 2 * Rank(p) + 2 * Rank(q) <= 2 * Rank(y) + 6 * Rank(n)
  {
    hide Rank;
    RankGrows(m, y);
    RankGrows(y, n);
    RankGrows(p, n);
    RankGrows(q, n);
    if Rank(m) == Rank(n) {
      if q <= m {
        RankParts(q, m, n);
      } else {
        RankParts(m, q, n);
      }
    }
  }

  /** One level each way: p and q nodes are kept on the two sides. */
  lemma {:induction false} Bend(m: nat, y: nat, p: nat, q: nat, n: nat)
    requires 0 < m <= y <= n && 0 < p <= y && 0 < q && p + q <= n
    ensures 2 + 4 * Rank(m) + 2 * Rank(p) + 2 * Rank(q) <= 2 * Rank(y) + 6 * Rank(n)
  {
    hide Rank;
    RankGrows(m, y);
    RankGrows(y, n);
    RankGrows(p, y);
    RankGrows(q, n);
    if Rank(m) == Rank(n) {
      if q <= p {
        RankParts(q, p, n);
      } else {
        RankParts(p, q, n);
      }
    }
  }

  /** One level one way and two the other: o and p nodes are kept on one side and q on the other. */
  lemma {:induction false} LongBend(m: nat, z: nat, y: nat, o: nat, p: nat, q: nat, n: nat)
    requires 0 < m <= z <= y <= n && o <= y && 0 < p && p + m <= n && q <= n
    ensures 2 + 4 * Rank(m) + 2 * Rank(o) + 2 * Rank(p) + 2 * Rank(q) <= 2 * Rank(y) + 2 * Rank(z) + 6 * Rank(n)
  {
    hide Rank;
    RankGrows(m, z);
    RankGrows(z, y);
    RankGrows(y, n);
    RankGrows(o, y);
    RankGrows(p, n);
    RankGrows(q, n);
    if Rank(m) == Rank(n) {
      if p <= m {
        RankParts(p, m, n);
      } else {
        RankParts(m, p, n);
      }
    }
  }

  /** The loop ends in this round: at the root, or at a child that has no child to go on to. */
  predicate Ends(t: Shape, key: MemoryBlock)
    requires t.Node?
  {
    && (Less(key, t.node.Data) && t.left.Node? ==> Less(key, t.left.node.Data) && t.left.left.Leaf?)
    && (Less(t.node.Data, key) && t.right.Node? ==> Less(t.right.node.Data, key) && t.right.right.Leaf?)
  }

  lemma {:induction false} EndsPay(t: Shape, key: MemoryBlock)
    requires t.Node? && Ends(t, key)
    ensures Cost(t, key) == 1 && Halves(Pulled(t, key)) <= Potential(t) && Affords(t, key)
  {
    hide Splayed, Round, CostFrom, Rank;
    CostStep(t, key);
    assert Saved(t);
    if Less(key, t.node.Data) && t.left.Node? {
      var x := Node(t.left.right, t.node, t.right);
      RankGrows(Count(x), Count(t));
      assert Pulled(t, key) == Node(Leaf, t.left.node, x);
      assert Saved(t.left) && Saved(x);
    } else if Less(t.node.Data, key) && t.right.Node? {
      var x := Node(t.left, t.node, t.right.left);
      assert Count(t.right) >= Count(t.right.left);
      RankGrows(Count(x), Count(t));
      assert Pulled(t, key) == Node(x, t.right.node, Leaf);
      assert Saved(t.right) && Saved(x);
    }
  }

  lemma {:induction false} TwoRightPays(t: Shape, key: MemoryBlock)
    requires t.Node? && t.left.Node? && t.left.left.Node?
    requires Less(key, t.node.Data) && Less(key, t.left.node.Data) && Affords(t.left.left, key)
    ensures Affords(t, key)
  {
    hide Splayed, Round, CostFrom, Cost, Rank;
    var u := t.left.left;
    var s := Pulled(u, key);
    CostStep(t, key);
    PulledCount(u, key);
    var x := Node(t.left.right, t.node, t.right);
    var y := Node(s.right, t.left.node, x);
    TwoLevels(Count(u), Count(t.left), Count(y), Count(x), Count(t));
    assert Saved(t.left);
    assert Saved(x);
  }

  /** The search turns round, or ends, after one level. */
  lemma {:induction false} OneRightEnds(t: Shape, key: MemoryBlock)
    requires t.Node? && t.left.Node? && Less(key, t.node.Data) && !Less(key, t.left.node.Data)
    requires Ends(t.left, key)
    ensures Affords(t, key)
  {
    hide Splayed, Round, CostFrom, Cost;
    CostStep(t, key);
    EndsPay(t.left, key);
    var s := Pulled(t.left, key);
    PulledCount(t.left, key);
    assert Pulled(t, key) == OneRight(s, t);
    var x := Node(s.right, t.node, t.right);
    RankGrows(2, Count(t));
    RankGrows(Count(x), Count(t));
    assert Saved(x);
  }

  lemma {:induction false} OneRightPays(t: Shape, key: MemoryBlock)
    requires t.Node? && t.left.Node? && t.left.right.Node?
    requires Less(key, t.node.Data) && Less(t.left.node.Data, key)
    requires !Less(t.left.right.node.Data, key) && Affords(t.left.right, key)
    ensures Affords(t, key)
  {
    hide Splayed, Round, CostFrom, Cost, Rank;
    var u := t.left.right;
    var s := Pulled(u, key);
    assert Pulled(t, key) == OneRight(OneLeft(s, t.left), t);
    CostStep(t, key);
    CostStep(t.left, key);
    PulledCount(u, key);
    var x := Node(s.right, t.node, t.right);
    var y := Node(t.left.left, t.left.node, s.left);
    Bend(Count(u), Count(t.left), Count(y), Count(x), Count(t));
    assert Saved(t.left);
    assert Saved(x);
    assert Saved(y);
  }

  lemma {:induction false} OneRightTwoLeftPays(t: Shape, key: MemoryBlock)
    requires t.Node? && t.left.Node? && t.left.right.Node? && t.left.right.right.Node?
    requires Less(key, t.node.Data) && Less(t.left.node.Data, key)
    requires Less(t.left.right.node.Data, key) && Affords(t.left.right.right, key)
    ensures Affords(t, key)
  {
    hide Splayed, Round, CostFrom, Cost, Rank;
    var u, z := t.left.right.right, t.left.right;
    var s := Pulled(u, key);
    assert Pulled(t, key) == OneRight(TwoLeft(s, t.left), t);
    CostStep(t, key);
    CostStep(t.left, key);
    PulledCount(u, key);
    var x := Node(s.right, t.node, t.right);
    var y := Node(t.left.left, t.left.node, z.left);
    var w := Node(y, z.node, s.left);
    LongBend(Count(u), Count(z), Count(t.left), Count(w), Count(y), Count(x), Count(t));
    assert Saved(t.left);
    assert Saved(z);
    assert Saved(x);
    assert Saved(y);
    assert Saved(w);
  }

  lemma {:induction false} TwoLeftPays(t: Shape, key: MemoryBlock)
    requires t.Node? && t.right.Node? && t.right.right.Node?
    requires Less(t.node.Data, key) && Less(t.right.node.Data, key) && Affords(t.right.right, key)
    ensures Affords(t, key)
  {
    hide Splayed, Round, CostFrom, Cost, Rank;
    var u := t.right.right;
    var s := Pulled(u, key);
    CostStep(t, key);
    PulledCount(u, key);
    var x := Node(t.left, t.node, t.right.left);
    var y := Node(x, t.right.node, s.left);
    TwoLevels(Count(u), Count(t.right), Count(y), Count(x), Count(t));
    assert Saved(t.right);
    assert Saved(x);
  }

  /** The search turns round, or ends, after one level. */
  lemma {:induction false} OneLeftEnds(t: Shape, key: MemoryBlock)
    requires t.Node? && t.right.Node? && Less(t.node.Data, key) && !Less(t.right.node.Data, key)
    requires Ends(t.right, key)
    ensures Affords(t, key)
  {
    hide Splayed, Round, CostFrom, Cost;
    CostStep(t, key);
    EndsPay(t.right, key);
    var s := Pulled(t.right, key);
    PulledCount(t.right, key);
    assert Pulled(t, key) == OneLeft(s, t);
    var x := Node(t.left, t.node, s.left);
    RankGrows(2, Count(t));
    RankGrows(Count(x), Count(t));
    assert Saved(x);
  }

  lemma {:induction false} OneLeftPays(t: Shape, key: MemoryBlock)
    requires t.Node? && t.right.Node? && t.right.left.Node?
    requires Less(t.node.Data, key) && Less(key, t.right.node.Data)
    requires !Less(key, t.right.left.node.Data) && Affords(t.right.left, key)
    ensures Affords(t, key)
  {
    hide Splayed, Round, CostFrom, Cost, Rank;
    var u := t.right.left;
    var s := Pulled(u, key);
    assert Pulled(t, key) == OneLeft(OneRight(s, t.right), t);
    CostStep(t, key);
    CostStep(t.right, key);
    PulledCount(u, key);
    var x := Node(t.left, t.node, s.left);
    var y := Node(s.right, t.right.node, t.right.right);
    Bend(Count(u), Count(t.right), Count(y), Count(x), Count(t));
    assert Saved(t.right);
    assert Saved(x);
    assert Saved(y);
  }

  lemma {:induction false} OneLeftTwoRightPays(t: Shape, key: MemoryBlock)
    requires t.Node? && t.right.Node? && t.right.left.Node? && t.right.left.left.Node?
    requires Less(t.node.Data, key) && Less(key, t.right.node.Data)
    requires Less(key, t.right.left.node.Data) && Affords(t.right.left.left, key)
    ensures Affords(t, key)
  {
    hide Splayed, Round, CostFrom, Cost, Rank;
    var u, z := t.right.left.left, t.right.left;
    var s := Pulled(u, key);
    assert Pulled(t, key) == OneLeft(TwoRight(s, t.right), t);
    CostStep(t, key);
    CostStep(t.right, key);
    PulledCount(u, key);
    var x := Node(t.left, t.node, s.left);
    var y := Node(z.right, t.right.node, t.right.right);
    var w := Node(s.right, z.node, y);
    LongBend(Count(u), Count(z), Count(t.right), Count(w), Count(y), Count(x), Count(t));
    assert Saved(t.right);
    assert Saved(z);
    assert Saved(x);
    assert Saved(y);
    assert Saved(w);
  }

  lemma {:induction false} AllAfford(t: Shape, key: MemoryBlock)
    requires t.Node?
    ensures Affords(t, key)
    decreases t
  {
    hide Affords;
    if Less(key, t.node.Data) && t.left.Node? {
      var y := t.left;
      if Less(key, y.node.Data) {
        if y.left.Leaf? {
          EndsPay(t, key);
        } else {
          AllAfford(y.left, key);
          TwoRightPays(t, key);
        }
      } else if Less(y.node.Data, key) && y.right.Node? && !Less(y.right.node.Data, key) {
        AllAfford(y.right, key);
        OneRightPays(t, key);
      } else if Less(y.node.Data, key) && y.right.Node? && y.right.right.Node? {
        AllAfford(y.right.right, key);
        OneRightTwoLeftPays(t, key);
      } else {
        OneRightEnds(t, key);
      }
    } else if Less(t.node.Data, key) && t.right.Node? {
      var y := t.right;
      if Less(y.node.Data, key) {
        if y.right.Leaf? {
          EndsPay(t, key);
        } else {
          AllAfford(y.right, key);
          TwoLeftPays(t, key);
        }
      } else if Less(key, y.node.Data) && y.left.Node? && !Less(key, y.left.node.Data) {
        AllAfford(y.left, key);
        OneLeftPays(t, key);
      } else if Less(key, y.node.Data) && y.left.Node? && y.left.left.Node? {
        AllAfford(y.left.left, key);
        OneLeftTwoRightPays(t, key);
      } else {
        OneLeftEnds(t, key);
      }
    } else {
      EndsPay(t, key);
    }
  }

  /** The amortised cost of one splay: the rounds it takes, and what it adds to the potential, come to at most six times
      the logarithm of the number of nodes, plus one. */
  lemma {:induction false} SplayAmortised(t: Shape, key: MemoryBlock)
    ensures Cost(t, key) + Potential(Splayed(t, key)) <= Potential(t) + 6 * Rank(Count(t)) + 1
  {
    SplayedPulled(t, key);
    if t.Node? {
      hide Splayed, Cost, Pulled;
      AllAfford(t, key);
      PulledCount(t, key);
      assert Saved(Pulled(t, key));
    }
  }

  /** The rounds of all splays of one call. */
  function CallCost(t: Shape, op: Op): nat {
    match op
    case Insert(n) => Cost(t, n.Data)
    case Find(key) => Cost(t, key)
    case Delete(key) =>
      var s := Splayed(t, key);
      Cost(t, key) + if s.Node? && s.node.Data == key then Cost(s.left, key) else 0
  }

  function RunCost(t: Shape, ops: seq<Op>): nat {
    if ops == [] then 0 else
    RunCost(t, ops[..|ops| - 1]) + CallCost(TreeAfterAll(t, ops[..|ops| - 1]), ops[|ops| - 1])
  }

  lemma SplayedCount(t: Shape, key: MemoryBlock)
    ensures Count(Splayed(t, key)) == Count(t)
  {
    SplayedPulled(t, key);
    PulledCount(t, key);
  }

  /** The new root saves at most its own rank and that of the old root below it. */
  lemma {:induction false} GraftedPotential(s: Shape, n: SplayTreeNode)
    requires s.Node?
    ensures Count(Grafted(s, n)) <= Count(s) + 1
    ensures Potential(Grafted(s, n)) <= Potential(s) + 2 * Rank(Count(s) + 1)
  {
    hide Rank;
    var l, r := Node(s.left, s.node, Leaf), Node(Leaf, s.node, s.right);
    assert Count(s) == Count(s.left) + 1 + Count(s.right);
    assert Count(l) == Count(s.left) + 1 && Count(r) == 1 + Count(s.right);
    RankGrows(Count(l), Count(s));
    RankGrows(Count(r), Count(s));
    assert Saved(s) && Saved(l) && Saved(r) && Saved(Grafted(s, n));
  }

  /** A tree that loses its root and one half saves no more than before. */
  lemma {:induction false} PartPotential(s: Shape)
    requires s.Node?
    ensures Potential(s.left) <= Potential(s) && Potential(s.right) <= Potential(s)
    ensures Count(s.left) < Count(s) && Count(s.right) < Count(s)
  {
  }

  lemma {:induction false} DeleteAmortised(t: Shape, key: MemoryBlock)
    ensures Count(Removed(t, key)) <= Count(t)
    ensures CallCost(t, Delete(key)) + Potential(Removed(t, key)) <= Potential(t) + 12 * Rank(Count(t)) + 2
  {
    var s := Splayed(t, key);
    SplayAmortised(t, key);
    SplayedCount(t, key);
    hide Rank, Cost, Splayed, Count, Potential;
    if s.Node? {
      PartPotential(s);
      SplayAmortised(s.left, key);
      SplayedCount(s.left, key);
      RankGrows(Count(s.left), Count(t));
    }
  }

  lemma {:induction false} InsertAmortised(t: Shape, n: SplayTreeNode)
    ensures Count(Added(t, n)) <= Count(t) + 1
    ensures CallCost(t, Insert(n)) + Potential(Added(t, n)) <= Potential(t) + 8 * Rank(Count(t) + 1) + 2
  {
    if t.Leaf? {
      assert Saved(Added(t, n));
    } else {
      hide Rank, Cost, Grafted, Splayed, Count, Potential;
      SplayAmortised(t, n.Data);
      SplayedCount(t, n.Data);
      GraftedPotential(Splayed(t, n.Data), n);
      RankGrows(Count(t), Count(t) + 1);
    }
  }

  lemma {:induction false} CallAmortised(t: Shape, op: Op)
    ensures Count(TreeAfter(t, op)) <= Count(t) + 1
    ensures CallCost(t, op) + Potential(TreeAfter(t, op)) <= Potential(t) + 12 * Rank(Count(t) + 1) + 2
  {
    hide Rank, Cost, Splayed, Count, Potential, Removed, Added;
    RankGrows(Count(t), Count(t) + 1);
    match op
    case Insert(n) => InsertAmortised(t, n);
    case Find(key) =>
      SplayAmortised(t, key);
      SplayedCount(t, key);
    case Delete(key) => DeleteAmortised(t, key);
  }

  /** What a run of calls takes together with what it leaves for later calls. */
  lemma {:induction false} RunAmortised(t: Shape, ops: seq<Op>)
    ensures Count(TreeAfterAll(t, ops)) <= Count(t) + |ops|
    ensures RunCost(t, ops) + Potential(TreeAfterAll(t, ops)) <=
            Potential(t) + |ops| * (12 * Rank(Count(t) + |ops|) + 2)
    decreases |ops|
  {
    hide Rank, CallCost, TreeAfter;
    if ops != [] {
      var before, last := ops[..|ops| - 1], ops[|ops| - 1];
      var u := TreeAfterAll(t, before);
      RunAmortised(t, before);
      CallAmortised(u, last);
      RankGrows(Count(t) + |before|, Count(t) + |ops|);
      RankGrows(Count(u) + 1, Count(t) + |ops|);
      Times(|before|, 12 * Rank(Count(t) + |before|) + 2, 12 * Rank(Count(t) + |ops|) + 2);
    }
  }

  lemma Times(m: nat, a: nat, b: nat)
    requires a <= b
    ensures m * a <= m * b && (m + 1) * b == m * b + b
  {
  }

  /** Any m calls on an empty tree take at most m times twelve times the logarithm of m, plus two for each call. */
  lemma {:induction false} RunBounded(ops: seq<Op>)
    ensures RunCost(Leaf, ops) <= |ops| * (12 * Rank(|ops|) + 2)
  {
    hide RunCost, TreeAfterAll, Rank;
    RunAmortised(Leaf, ops);
  }
}
