/** List and ListNode of list.h: a doubly linked list with an owner that knows both ends. */
module TaskList {

  class ListNode<T> {
    var Previous: ListNode?<T>
    var Next: ListNode?<T>
    const Data: T

    constructor (data: T)
      ensures Data == data && Previous == null && Next == null
    {
      Data := data;
      Previous, Next := null, null;
    }
  }

  /** The sequence s without its element at position k. */
  function Without<X>(s: seq<X>, k: nat): seq<X>
    requires k < |s|
  {
    s[..k] + s[k + 1..]
  }

  lemma WithoutDiffers<X>(s: seq<X>, k: nat)
    requires k < |s| && forall i, j :: 0 <= i < j < |s| ==> s[i] != s[j]
    ensures var t := Without(s, k);
            && |t| == |s| - 1 && (forall i :: 0 <= i < |t| ==> t[i] == s[if i < k then i else i + 1])
            && forall i, j :: 0 <= i < j < |t| ==> t[i] != t[j]
  {
  }

  class List<T(==)> {
    var start: ListNode?<T>
    var end: ListNode?<T>
    /** Never changed after construction: the source forgets to count. */
    var elements: nat
    ghost var nodes: seq<ListNode<T>>

    constructor ()
      ensures Valid() && nodes == []
    {
      start, end, elements, nodes := null, null, 0, [];
    }

    /** Both directions of links agree with one sequence of different nodes. */
    ghost predicate Valid()
      reads this, nodes
    {
      && (forall i, j :: 0 <= i < j < |nodes| ==> nodes[i] != nodes[j])
      && start == (if nodes == [] then null else nodes[0])
      && end == (if nodes == [] then null else nodes[|nodes| - 1])
      && (forall i {:trigger nodes[i].Next} :: 0 <= i < |nodes| ==>
           nodes[i].Next == if i + 1 < |nodes| then nodes[i + 1] else null)
      && (forall i {:trigger nodes[i].Previous} :: 0 <= i < |nodes| ==>
           nodes[i].Previous == if i > 0 then nodes[i - 1] else null)
    }

    /** Add with the default index. */
    method Add(data: ListNode<T>)
      requires Valid() && data !in nodes && data.Previous == null && data.Next == null
      modifies this, data, nodes
      ensures Valid() && nodes == old(nodes) + [data] && elements == old(elements)
    {
      if start == null {
        start := data;
        end := data;
      } else {
        end.Next := data;
        data.Previous := end;
        end := data;
      }
      nodes := nodes + [data];
    }

    /** The neighbours of a node are linked past it. */
    method Bypass(data: ListNode<T>, ghost k: nat)
      requires Valid() && k < |nodes| && data == nodes[k]
      modifies nodes
      ensures forall i {:trigger nodes[i].Next} :: 0 <= i < |nodes| ==>
                nodes[i].Next == if i + 1 == k then old(data.Next) else old(nodes[i].Next)
      ensures forall i {:trigger nodes[i].Previous} :: 0 <= i < |nodes| ==>
                nodes[i].Previous == if i == k + 1 then old(data.Previous) else old(nodes[i].Previous)
    {
      if data.Previous != null {
        data.Previous.Next := data.Next;
      }
      if data.Next != null {
        data.Next.Previous := data.Previous;
      }
    }

    /** With the neighbours linked past it, the other nodes form a list. */
    lemma Relinked(before: seq<ListNode<T>>, after: seq<ListNode<T>>, k: nat)
      requires k < |before| && |after| == |before| - 1
      requires forall i :: 0 <= i < |after| ==> after[i] == before[if i < k then i else i + 1]
      requires forall i {:trigger before[i].Next} :: 0 <= i < |before| && i != k ==>
                 before[i].Next ==
                 var j := if i + 1 == k then i + 2 else i + 1; if j < |before| then before[j] else null
      requires forall i {:trigger before[i].Previous} :: 0 <= i < |before| && i != k ==>
                 before[i].Previous ==
                 var j := if i == k + 1 then i - 2 else i - 1; if j >= 0 then before[j] else null
      ensures forall i {:trigger after[i].Next} :: 0 <= i < |after| ==>
                after[i].Next == if i + 1 < |after| then after[i + 1] else null
      ensures forall i {:trigger after[i].Previous} :: 0 <= i < |after| ==>
                after[i].Previous == if i > 0 then after[i - 1] else null
    {
    }

    /** Unlinks a node of the list; the node keeps its own links. */
    method Remove(data: ListNode?<T>, ghost k: nat)
      requires Valid() && (data != null ==> k < |nodes| && data == nodes[k])
      modifies this, nodes
      ensures Valid()
      ensures nodes == if data == null then old(nodes) else Without(old(nodes), k)
      ensures data != null ==> data.Previous == old(data.Previous) && data.Next == old(data.Next)
    {
      if data == null || start == null {
        return;
      }
      Bypass(data, k);
      if data == start {
        start := data.Next;
      }
      if data == end {
        end := data.Previous;
      }
      ghost var before := nodes;
      WithoutDiffers(before, k);
      Relinked(before, Without(before, k), k);
      nodes := Without(nodes, k);
      hide Without;
    }

    /** The first node with the data, or the last one when searching in reverse; null if there is none. */
    method Search(data: T, reverse: bool) returns (n: ListNode?<T>)
      requires Valid()
      ensures n == null <==> forall i :: 0 <= i < |nodes| ==> nodes[i].Data != data
      ensures n != null ==> n.Data == data && exists k ::
                && 0 <= k < |nodes| && nodes[k] == n
                && forall i :: (if reverse then k < i < |nodes| else 0 <= i < k) ==> nodes[i].Data != data
    {
      if start == null {
        return null;
      }
      var I: ListNode<T>;
      ghost var k;
      if reverse {
        I, k := end, |nodes| - 1;
        while I.Data != data && I.Previous != null
          invariant 0 <= k < |nodes| && I == nodes[k]
          invariant forall i :: k < i < |nodes| ==> nodes[i].Data != data
          decreases k
        {
          I, k := I.Previous, k - 1;
        }
      } else {
        I, k := start, 0;
        while I.Data != data && I.Next != null
          invariant 0 <= k < |nodes| && I == nodes[k]
          invariant forall i :: 0 <= i < k ==> nodes[i].Data != data
          decreases |nodes| - k
        {
          I, k := I.Next, k + 1;
        }
      }
      if I.Data != data {
        return null;
      }
      n := I;
    }
  }
}
