// A generic singly-linked list with a value-less "before-begin" sentinel node
// and a separately kept element count, modelled on the heap: nodes are
// objects, `next` links are mutable fields, and every mutator works in place.
module LinkedList {

  import opened Chain

  /**
   * A cursor on a node: the sentinel for before-begin, null for end.
   * Two iterators compare equal exactly when they reference the same node,
   * which is written below as `a.node == b.node`.
   */
  class Iterator<T(0)> {
    var node: Node?<T>

    constructor (n: Node?<T>)
      ensures node == n
    {
      node := n;
    }

    /** Prefix `++`: move to the successor; an end iterator stays at end. */
    method Increment()
      modifies this
      ensures old(node) == null ==> node == null
      ensures old(node) != null ==> node == old(node.next)
    {
      if node != null {
        node := node.next;
      }
    }

    /** Postfix `++`: advance, handing back a cursor on the old position. */
    method PostIncrement() returns (previous: Iterator<T>)
      modifies this
      ensures fresh(previous) && previous.node == old(node)
      ensures old(node) == null ==> node == null
      ensures old(node) != null ==> node == old(node.next)
    {
      previous := new Iterator(node);
      Increment();
    }
  }

  class SingleLinkedList<T(0)> {
    // implementation
    const head: Node<T>          // the before-begin sentinel
    var size: nat                // the element counter

    // public view
    ghost var nodes: seq<Node<T>>  // the value-bearing nodes, in chain order
    ghost var elems: seq<T>        // their values

    /** The objects this list owns: itself, the sentinel and the nodes. */
    ghost function Repr(): set<object>
      reads this
    {
      {this, head} + NodeSet(nodes)
    }


    /**
     * The chain hanging off the sentinel is exactly `nodes`: each node links
     * to the next, the last one to null, no node repeats (so the chain is
     * acyclic), and `elems` lists their values. Says nothing about `size`.
     */
    ghost predicate Linked()
      reads this, Repr()
    {
      head !in nodes && Distinct(nodes)
      && head.next == Start(nodes, null)
      && Segment(nodes, elems, null)
    }

    /** The class invariant: a well-formed chain whose length is the counter. */
    ghost predicate Valid()
      reads this, Repr()
    {
      Linked() && size == |nodes|
    }

    /**
     * Two distinct lists whose sentinels differ and lie outside each
     * other's chain, so relinking one sentinel leaves the other chain as it is.
     */
    ghost predicate Apart(other: SingleLinkedList<T>)
      reads this, other
    {
      this != other && head != other.head && head !in other.nodes && other.head !in nodes
    }

    /** `pos` names a place of this list: the sentinel or one of its nodes. */
    ghost predicate IsPosition(pos: Node?<T>)
      reads this
    {
      pos == head || pos in nodes
    }

    /** How many elements precede the gap right after `pos`. */
    ghost function Offset(pos: Node<T>): (k: nat)
      reads this, Repr()
      requires Linked() && IsPosition(pos)
      ensures k <= |nodes|
      ensures k == 0 <==> pos == head
      ensures k > 0 ==> nodes[k - 1] == pos
      ensures pos.next == (if k < |nodes| then nodes[k] else null)
    {
      if pos == head then 0 else IndexOf(nodes, pos) + 1
    }

    /** The default constructor: an empty list. */
    constructor ()
      ensures Valid() && fresh(Repr())
      ensures elems == [] && size == 0
    {
      head := new Node.Sentinel();
      size := 0;
      nodes, elems := [], [];
      new;
    }

    /**
     * Construction from an initializer list: the counter is set to the
     * number of values first, then the values are pushed at the front from
     * the last one to the first.
     */
    constructor FromValues(values: seq<T>)
      ensures Valid() && fresh(Repr())
      ensures elems == values && size == |values|
    {
      head := new Node.Sentinel();
      size := |values|;
      nodes, elems := [], [];
      new;
      var i := |values|;
      while i > 0
        invariant 0 <= i <= |values|
        invariant Linked() && fresh(Repr())
        invariant elems == values[i..] && size == |values|
      {
        i := i - 1;
        PushValue(values[i]);
      }
    }

    /**
     * The copy constructor as its evident design intends: the copied chain is
     * built behind the temporary's sentinel and then swapped in. The source
     * links the copies behind this object's own sentinel instead; see
     * CopyAsWritten.
     */
    constructor Copy(other: SingleLinkedList<T>)
      requires other.Valid()
      ensures Valid() && fresh(head) && forall n :: n in nodes ==> fresh(n)
      ensures elems == other.elems && size == other.size
    {
      head := new Node.Sentinel();
      size := 0;
      nodes, elems := [], [];
      new;
      var temp := new SingleLinkedList();
      temp.size := other.size;
      if other.head.next != null {
        temp.LinkCopyOf(other);
      }
      Swap(temp);
    }

    /**
     * The copy constructor as written: the counter is set on the temporary,
     * the copies are linked behind this object's sentinel, and the swap then
     * hands the copies to the temporary and its empty chain and copied
     * counter to this object. The result claims other.size elements but has
     * none.
     */
    constructor CopyAsWritten(other: SingleLinkedList<T>)
      requires other.Linked()
      ensures Linked() && fresh(head)
      ensures elems == [] && size == other.size
      ensures other.size > 0 ==> !Valid()
    {
      head := new Node.Sentinel();
      size := 0;
      nodes, elems := [], [];
      new;
      var temp := new SingleLinkedList();
      temp.size := other.size;
      if other.head.next != null {
        LinkCopyOf(other);
      }
      Swap(temp);
    }

    /**
     * The loop of the copy constructor: for each element of `other`, in
     * order, a new node holding it is linked behind the previous one,
     * starting at this list's sentinel. The counter is not touched.
     */
    method LinkCopyOf(other: SingleLinkedList<T>)
      requires Linked() && nodes == []
      requires other.Linked() && this != other && head !in other.nodes
      modifies this, head`next
      ensures Linked() && forall n :: n in nodes ==> fresh(n)
      ensures elems == other.elems && size == old(size)
    {
      ghost var on, oe := other.nodes, other.elems;
      var prev := head;
      var it := new Iterator(other.head.next);
      ghost var i := 0;
      while it.node != null
        invariant 0 <= i <= |on| && |nodes| == i
        invariant it.node == (if i < |on| then on[i] else null)
        invariant Linked() && (forall n :: n in nodes ==> fresh(n)) && it !in Repr()
        invariant Segment(on, oe, null) && head !in on
        invariant elems == oe[..i] && size == old(size)
        invariant prev == (if i == 0 then head else nodes[i - 1])
        invariant prev == head || fresh(prev)
        decreases |on| - i
      {
        SegmentAt(on, oe, null, i);
        ghost var v := oe[i];
        prev := LinkLast(prev, it.node.value);
        assert Segment(on, oe, null) && elems == oe[..i] + [v];
        it.Increment();
        i := i + 1;
      }
    }

    /**
     * One step of the copy loop: a new node holding `v` is linked behind
     * `prev`, the last node of the chain (or the sentinel when the chain is
     * empty), and becomes the new last node.
     */
    method LinkLast(prev: Node<T>, v: T) returns (next: Node<T>)
      requires Linked() && prev == (if nodes == [] then head else nodes[|nodes| - 1])
      modifies this, prev`next
      ensures Linked() && size == old(size) && fresh(next)
      ensures nodes == old(nodes) + [next] && elems == old(elems) + [v]
      ensures Repr() == old(Repr()) + {next}
    {
      ghost var ns, es, k := nodes, elems, |nodes|;
      Around(ns, es, k);
      next := new Node(v, null);
      prev.next := next;
      nodes, elems := ns + [next], es + [v];
      assert Segment(nodes, elems, null) && Distinct(nodes) && NodeSet(nodes) == NodeSet(ns) + {next} by {
        assert Segment(ns[k..], es[k..], null);
        assert k > 0 ==> Segment(ns[..k - 1], es[..k - 1], prev);
        SegmentInsert(ns, es, k, prev, next, v);
        assert ns[..k] + [next] + ns[k..] == nodes && es[..k] + [v] + es[k..] == elems;
      }
    }

    /**
     * Copy assignment: unless assigning to itself, copy `rhs` into a
     * temporary and swap it in.
     */
    method Assign(rhs: SingleLinkedList<T>)
      requires Valid() && rhs.Valid()
      requires this == rhs || Apart(rhs)
      modifies this, head`next
      ensures Valid() && elems == old(rhs.elems)
      ensures rhs.Valid() && rhs.nodes == old(rhs.nodes) && rhs.elems == old(rhs.elems)
      ensures this == rhs ==> nodes == old(nodes)
      ensures this != rhs ==> fresh(Repr() - {this, head})
    {
      if this != rhs {
        var temp := new SingleLinkedList.Copy(rhs);
        assert old(allocated(head));
        Swap(temp);
      }
    }

    /** Copy assignment over the copy constructor as written. */
    method AssignAsWritten(rhs: SingleLinkedList<T>)
      requires Linked() && rhs.Linked()
      requires this == rhs || Apart(rhs)
      modifies this, head`next
      ensures Linked()
      ensures this == rhs ==> nodes == old(nodes) && elems == old(elems) && size == old(size)
      ensures this != rhs ==> elems == [] && size == old(rhs.size)
      ensures rhs.Linked() && rhs.nodes == old(rhs.nodes) && rhs.elems == old(rhs.elems) && rhs.size == old(rhs.size)
    {
      if this != rhs {
        var temp := new SingleLinkedList.CopyAsWritten(rhs);
        Swap(temp);
      }
    }

    /** The counter, which on a valid list is the number of elements. */
    function GetSize(): (n: nat)
      reads this, Repr()
      ensures Valid() ==> n == |elems|
    {
      size
    }

    /** Emptiness is read from the counter. */
    function IsEmpty(): (empty: bool)
      reads this, Repr()
      ensures empty <==> GetSize() == 0
      ensures Valid() ==> (empty <==> elems == [])
    {
      size == 0
    }

    method Begin() returns (it: Iterator<T>)
      requires Linked()
      ensures fresh(it)
      ensures it.node == (if nodes == [] then null else nodes[0])
    {
      it := new Iterator(head.next);
    }

    method End() returns (it: Iterator<T>)
      ensures fresh(it) && it.node == null
    {
      it := new Iterator(null);
    }

    method BeforeBegin() returns (it: Iterator<T>)
      ensures fresh(it) && it.node == head
    {
      it := new Iterator(head);
    }

    /**
     * A range-for over the list: from begin(), dereference and advance until
     * the cursor compares equal to end(). Yields the elements in chain order.
     */
    method Values() returns (s: seq<T>)
      requires Linked()
      ensures s == elems
    {
      s := [];
      var it := Begin();
      var last := End();
      ghost var i := 0;
      while it.node != last.node
        invariant 0 <= i <= |nodes|
        invariant it.node == (if i < |nodes| then nodes[i] else null)
        invariant last.node == null
        invariant s == elems[..i]
        decreases |nodes| - i
      {
        ChainAt(i);
        s := s + [it.node.value];
        it.Increment();
        i := i + 1;
      }
    }

    /**
     * Exchanges the two chains (the sentinels' successors) and the two
     * counters. No node is created, destroyed or relinked, and the sentinels
     * stay with their lists.
     */
    method Swap(other: SingleLinkedList<T>)
      requires Linked() && other.Linked()
      requires this == other || Apart(other)
      modifies this, other, head`next, other.head`next
      ensures Linked() && other.Linked()
      ensures head.next == old(other.head.next) && other.head.next == old(head.next)
      ensures size == old(other.size) && other.size == old(size)
      ensures nodes == old(other.nodes) && other.nodes == old(nodes)
      ensures elems == old(other.elems) && other.elems == old(elems)
    {
      ghost var ns, es, ons, oes := nodes, elems, other.nodes, other.elems;
      head.next, other.head.next := other.head.next, head.next;
      size, other.size := other.size, size;
      // the sentinels lie outside both chains, so both runs survive the relink
      assert Segment(ons, oes, null) && Segment(ns, es, null);
      nodes, other.nodes, elems, other.elems := ons, ns, oes, es;
    }

    /** Links a new node holding `v` first, leaving the counter alone. */
    method PushValue(v: T)
      requires Linked()
      modifies this, head`next
      ensures Linked() && size == old(size)
      ensures |nodes| == |old(nodes)| + 1 && fresh(nodes[0])
      ensures nodes[1..] == old(nodes) && elems == [v] + old(elems)
      ensures Repr() == old(Repr()) + {nodes[0]}
    {
      ghost var ns, es := nodes, elems;
      var n := LinkAfter(head, 0, v);
      assert nodes == [n] + ns && elems == [v] + es;
    }

    /**
     * The statement shared by PushValue and InsertAfter: a new node holding
     * `v` takes the place of `p`'s successor and links to the old one. `p`
     * is the sentinel (k == 0) or the k-th node.
     */
    method LinkAfter(p: Node<T>, ghost k: nat, v: T) returns (n: Node<T>)
      requires Linked() && k <= |nodes| && p == (if k == 0 then head else nodes[k - 1])
      modifies this, p`next
      ensures Linked() && size == old(size) && fresh(n) && p.next == n && n.value == v
      ensures nodes == old(nodes[..k]) + [n] + old(nodes[k..])
      ensures elems == old(elems[..k]) + [v] + old(elems[k..])
      ensures Repr() == old(Repr()) + {n}
    {
      ghost var ns, es := nodes, elems;
      Around(ns, es, k);
      n := new Node(v, p.next);
      p.next := n;
      nodes, elems := ns[..k] + [n] + ns[k..], es[..k] + [v] + es[k..];
      assert Segment(nodes, elems, null) && Distinct(nodes) && NodeSet(nodes) == NodeSet(ns) + {n} by {
        assert Segment(ns[k..], es[k..], null);
        assert k > 0 ==> Segment(ns[..k - 1], es[..k - 1], p);
        SegmentInsert(ns, es, k, p, n, v);
      }
    }

    method PushFront(v: T)
      requires Linked()
      modifies this, head`next
      ensures Linked() && size == old(size) + 1
      ensures old(Valid()) ==> Valid()
      ensures |nodes| == |old(nodes)| + 1 && fresh(nodes[0])
      ensures nodes[1..] == old(nodes) && elems == [v] + old(elems)
      ensures Repr() == old(Repr()) + {nodes[0]}
    {
      PushValue(v);
      size := size + 1;
    }

    /**
     * Unlinks the first node; does nothing when the counter is zero. A
     * non-zero counter needs a first node to unlink.
     */
    method PopFront()
      requires Linked() && (size > 0 ==> nodes != [])
      modifies this, head`next
      ensures Linked() && Repr() <= old(Repr())
      ensures old(Valid()) ==> Valid()
      ensures old(size) > 0 ==> size == old(size) - 1 && nodes == old(nodes[1..]) && elems == old(elems[1..])
      ensures old(size) == 0 ==> size == 0 && nodes == old(nodes) && elems == old(elems)
    {
      if size > 0 {
        UnlinkAfter(head, 0);
        size := size - 1;
      }
    }

    /**
     * Links a new node holding `v` right after the node `pos` references and
     * returns a cursor on it. `pos` must not be end.
     */
    method InsertAfter(pos: Iterator<T>, v: T) returns (it: Iterator<T>)
      requires Linked()
      requires pos.node != null && IsPosition(pos.node)
      modifies this, pos.node`next
      ensures Linked() && size == old(size) + 1
      ensures old(Valid()) ==> Valid()
      ensures fresh(it) && fresh(it.node) && it.node.value == v && pos.node.next == it.node
      ensures Repr() == old(Repr()) + {it.node}
      ensures var k := old(Offset(pos.node));
              nodes == old(nodes[..k]) + [it.node] + old(nodes[k..])
              && elems == old(elems[..k]) + [v] + old(elems[k..])
    {
      ghost var k := Offset(pos.node);
      var p := pos.node;
      var n := LinkAfter(p, k, v);
      size := size + 1;
      it := new Iterator(p.next);
    }

    /**
     * Unlinks the node right after the node `pos` references and returns a
     * cursor on `pos`'s new successor. `pos` must not be end and, unless the
     * counter is zero, must have a successor; at a zero counter nothing
     * changes.
     */
    method EraseAfter(pos: Iterator<T>) returns (it: Iterator<T>)
      requires Linked()
      requires pos.node != null && IsPosition(pos.node)
      requires size > 0 ==> pos.node.next != null
      modifies this, pos.node`next
      ensures Linked() && Repr() <= old(Repr())
      ensures old(Valid()) ==> Valid()
      ensures fresh(it) && it.node == pos.node.next
      ensures old(size) == 0 ==> size == 0 && nodes == old(nodes) && elems == old(elems)
      ensures old(size) > 0 ==>
                var k := old(Offset(pos.node));
                k < |old(nodes)|
                && size == old(size) - 1
                && nodes == old(nodes[..k]) + old(nodes[k + 1..])
                && elems == old(elems[..k]) + old(elems[k + 1..])
                && it.node == (if k < |nodes| then nodes[k] else null)
    {
      ghost var k := Offset(pos.node);
      var p := pos.node;
      if size > 0 {
        UnlinkAfter(p, k);
        size := size - 1;
      }
      it := new Iterator(p.next);
    }

    /**
     * Unlinks the first node until the sentinel has no successor, then
     * zeroes the counter. Works on any well-formed chain, whatever the
     * counter says.
     */
    method Clear()
      requires Linked()
      modifies this, head`next
      ensures Valid() && Repr() == {this, head}
      ensures nodes == [] && elems == [] && size == 0
    {
      while head.next != null
        invariant Linked()
        decreases |nodes|
      {
        UnlinkAfter(head, 0);
      }
      size := 0;
    }

    /** The i-th node holds the i-th element and links to the next node, or to null. */
    lemma ChainAt(i: nat)
      requires Linked() && i < |nodes|
      ensures nodes[i].value == elems[i]
      ensures nodes[i].next == (if i + 1 < |nodes| then nodes[i + 1] else null)
    {
      SegmentAt(nodes, elems, null, i);
    }

    /**
     * The statement shared by PopFront, EraseAfter and Clear: `p`'s
     * successor is unlinked and `p` links to the node after it. `p` is the
     * sentinel (k == 0) or the k-th node. The counter is left alone.
     */
    method UnlinkAfter(p: Node<T>, ghost k: nat)
      requires Linked() && k < |nodes| && p == (if k == 0 then head else nodes[k - 1])
      modifies this, p`next
      ensures Linked() && size == old(size)
      ensures nodes == old(nodes[..k]) + old(nodes[k + 1..])
      ensures elems == old(elems[..k]) + old(elems[k + 1..])
      ensures p.next == (if k < |nodes| then nodes[k] else null)
      ensures Repr() == old(Repr()) - {old(nodes[k])}
    {
      ghost var ns, es := nodes, elems;
      Around(ns, es, k);
      var removed := p.next;
      p.next := removed.next;
      nodes, elems := ns[..k] + ns[k + 1..], es[..k] + es[k + 1..];
      assert Segment(nodes, elems, null) && Distinct(nodes) && NodeSet(nodes) == NodeSet(ns) - {ns[k]} by {
        assert Segment(ns[k + 1..], es[k + 1..], null);
        assert k > 0 ==> Segment(ns[..k - 1], es[..k - 1], p);
        assert p.next == Start(ns[k + 1..], null);
        SegmentRemove(ns, es, k, p);
      }
    }
  }

  /** The free `swap`: delegates to the member. */
  method Swap<T(0)>(lhs: SingleLinkedList<T>, rhs: SingleLinkedList<T>)
    requires lhs.Linked() && rhs.Linked()
    requires lhs == rhs || lhs.Apart(rhs)
    modifies lhs, rhs, lhs.head`next, rhs.head`next
    ensures lhs.Linked() && rhs.Linked()
    ensures old(lhs.Valid()) && old(rhs.Valid()) ==> lhs.Valid() && rhs.Valid()
    ensures lhs.nodes == old(rhs.nodes) && rhs.nodes == old(lhs.nodes)
    ensures lhs.elems == old(rhs.elems) && rhs.elems == old(lhs.elems)
    ensures lhs.size == old(rhs.size) && rhs.size == old(lhs.size)
  {
    lhs.Swap(rhs);
  }
}
