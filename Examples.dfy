// Small client programs over the list, each with the outcome it is known to
// have stated as a postcondition.
module Examples {

  import opened LinkedList
  import opened Comparison

  /** Pushing 3, 2, 1 at the front gives [1, 2, 3]; popping drops the 1. */
  method PushThenPop() returns (before: seq<int>, after: seq<int>, n: nat)
    ensures before == [1, 2, 3] && after == [2, 3] && n == 2
  {
    var l := new SingleLinkedList<int>();
    l.PushFront(3);
    assert l.elems == [3];
    l.PushFront(2);
    assert l.elems == [2, 3];
    l.PushFront(1);
    before := l.Values();
    l.PopFront();
    after := l.Values();
    n := l.GetSize();
  }

  /** Popping an empty list changes nothing. */
  method PopEmpty() returns (s: seq<int>, empty: bool)
    ensures s == [] && empty
  {
    var l := new SingleLinkedList<int>();
    l.PopFront();
    s := l.Values();
    empty := l.IsEmpty();
  }

  /** An initializer list is kept in order, and its length is the size. */
  method FromInitializerList() returns (s: seq<int>, n: nat)
    ensures s == [1, 2, 3] && n == 3
  {
    var l := new SingleLinkedList.FromValues([1, 2, 3]);
    s := l.Values();
    n := l.GetSize();
  }

  /** Inserting after before-begin is pushing at the front. */
  method InsertAtFront() returns (s: seq<int>, first: int)
    ensures s == [0, 1, 2] && first == 0
  {
    var l := new SingleLinkedList.FromValues([1, 2]);
    var pos := l.BeforeBegin();
    var it := l.InsertAfter(pos, 0);
    first := it.node.value;
    s := l.Values();
  }

  /** Inserting after the first element puts the value second. */
  method InsertInMiddle() returns (s: seq<int>)
    ensures s == [1, 5, 2]
  {
    var l := new SingleLinkedList.FromValues([1, 2]);
    var pos := l.Begin();
    assert pos.node in l.Repr();
    var it := l.InsertAfter(pos, 5);
    s := l.Values();
  }

  /**
   * Erasing after before-begin drops the first element and hands back a
   * cursor on the new first one; erasing after the last but one drops the
   * last and hands back end.
   */
  method EraseSome() returns (s: seq<int>, next: int, atEnd: bool)
    ensures s == [2] && next == 2 && atEnd
  {
    var l := new SingleLinkedList.FromValues([1, 2, 3]);
    var pos := l.BeforeBegin();
    var it := l.EraseAfter(pos);
    next := it.node.value;
    l.ChainAt(0);
    assert it.node in l.Repr();
    it := l.EraseAfter(it);
    atEnd := it.node == null;
    s := l.Values();
  }

  /** Erasing after the second element of [1, 2, 3] drops the 3. */
  method EraseLast() returns (s: seq<int>, atEnd: bool)
    ensures s == [1, 2] && atEnd
  {
    var l := new SingleLinkedList.FromValues([1, 2, 3]);
    var pos := l.Begin();
    l.ChainAt(0);
    pos.Increment();
    l.ChainAt(1);
    assert pos.node in l.Repr();
    var it := l.EraseAfter(pos);
    atEnd := it.node == null;
    s := l.Values();
  }

  /** Clearing empties the list; clearing again changes nothing. */
  method ClearTwice() returns (s: seq<int>, empty: bool)
    ensures s == [] && empty
  {
    var l := new SingleLinkedList.FromValues([1, 2, 3]);
    l.Clear();
    l.Clear();
    s := l.Values();
    empty := l.IsEmpty();
  }

  /** Advancing an end cursor leaves it at end. */
  method AdvanceEnd() returns (atEnd: bool)
    ensures atEnd
  {
    var l := new SingleLinkedList<int>();
    var it := l.End();
    it.Increment();
    var previous := it.PostIncrement();
    atEnd := it.node == null && previous.node == null;
  }

  /** Swapping exchanges the contents and the sizes. */
  method SwapTwo() returns (a: seq<int>, b: seq<int>, n: nat, m: nat)
    ensures a == [3] && b == [1, 2] && n == 1 && m == 2
  {
    var l := new SingleLinkedList.FromValues([1, 2]);
    var r := new SingleLinkedList.FromValues([3]);
    Swap(l, r);
    a := l.Values();
    b := r.Values();
    n := l.GetSize();
    m := r.GetSize();
  }

  /**
   * A copy made by the intended copy constructor holds the same elements,
   * and pushing onto the copy leaves the original as it was.
   */
  method CopyIsIndependent() returns (copied: seq<int>, changed: seq<int>, original: seq<int>)
    ensures copied == [1, 2, 3] && changed == [0, 1, 2, 3] && original == [1, 2, 3]
  {
    var l := new SingleLinkedList.FromValues([1, 2, 3]);
    var c := new SingleLinkedList.Copy(l);
    copied := c.Values();
    c.PushFront(0);
    changed := c.Values();
    original := l.Values();
  }

  /**
   * The copy constructor as written: the copy reports the original's size
   * but has no elements, and `copy == original` still answers true, because
   * the sizes agree and the copy's empty range matches any range.
   */
  method CopyAsWrittenIsEmpty() returns (n: nat, copied: seq<int>, same: bool)
    ensures n == 3 && copied == [] && same
  {
    var l := new SingleLinkedList.FromValues([1, 2, 3]);
    var c := new SingleLinkedList.CopyAsWritten(l);
    n := c.GetSize();
    copied := c.Values();
    same := ListEqual(c, l);
  }

  /**
   * The broken copy propagates: assigning a list into its as-written copy
   * and copying that again keeps the size 3 and no elements, and `!=`
   * against the original answers false.
   */
  method BrokenCopyPropagates() returns (n: nat, copied: seq<int>, differ: bool)
    ensures n == 3 && copied == [] && !differ
  {
    var a := new SingleLinkedList.FromValues([1, 2, 3]);
    var b := new SingleLinkedList.CopyAsWritten(a);
    b.AssignAsWritten(a);
    var c := new SingleLinkedList.CopyAsWritten(b);
    n := c.GetSize();
    copied := c.Values();
    differ := ListNotEqual(c, a);
  }

  /**
   * The list the copy as written leaves behind still takes pushes and
   * inserts: each adds a node and one to the wrong counter.
   */
  method GrowBrokenCopy() returns (pushed: seq<int>, inserted: seq<int>, n: nat)
    ensures pushed == [0] && inserted == [7, 0] && n == 5
  {
    var a := new SingleLinkedList.FromValues([1, 2, 3]);
    var b := new SingleLinkedList.CopyAsWritten(a);
    assert b.elems == [];
    b.PushFront(0);
    assert b.elems == [0] && b.size == 4;
    pushed := b.Values();
    var pos := b.BeforeBegin();
    var it := b.InsertAfter(pos, 7);
    assert b.elems == [7, 0];
    inserted := b.Values();
    n := b.GetSize();
  }

  /** Popping the broken copy trusts the counter while a first node exists. */
  method PopBrokenCopy() returns (popped: seq<int>, n: nat)
    ensures popped == [] && n == 3
  {
    var a := new SingleLinkedList.FromValues([1, 2, 3]);
    var b := new SingleLinkedList.CopyAsWritten(a);
    b.PushFront(0);
    assert b.elems == [0] && b.size == 4;
    b.PopFront();
    popped := b.Values();
    n := b.GetSize();
  }

  /**
   * Comparing {1, 2, 3} with the broken copy of {1, 2} after pushing 5: the
   * counters agree, and the walk stops at the first element, 1 against 5,
   * before running off the shorter chain.
   */
  method EqualStopsAtMismatch() returns (same: bool, differ: bool)
    ensures !same && differ
  {
    var a := new SingleLinkedList.FromValues([1, 2]);
    var b := new SingleLinkedList.CopyAsWritten(a);
    b.PushFront(5);
    assert b.elems == [5] && b.size == 3;
    var c := new SingleLinkedList.FromValues([1, 2, 3]);
    assert c.elems[..|b.elems|] == [1];
    same := ListEqual(c, b);
    differ := ListNotEqual(c, b);
  }

  /** Assignment copies the right-hand side and leaves it as it was. */
  method AssignKeepsSource() returns (target: seq<int>, source: seq<int>)
    ensures target == [1, 2, 3] && source == [1, 2, 3]
  {
    var a := new SingleLinkedList.FromValues([1, 2, 3]);
    var b := new SingleLinkedList.FromValues([4]);
    b.Assign(a);
    target := b.Values();
    source := a.Values();
  }

  /** A proper prefix is less: [1, 2] < [1, 2, 3] under integer `<`. */
  method PrefixIsLess() returns (r: bool)
    ensures r
  {
    var less := (x: int, y: int) => x < y;
    var a := new SingleLinkedList.FromValues([1, 2]);
    var b := new SingleLinkedList.FromValues([1, 2, 3]);
    r := ListLess(a, b, less);
    ProperPrefixIsLess([1, 2], [1, 2, 3], less);
  }

  /** The first differing element decides: [1, 3] > [1, 2] under integer `<`. */
  method FirstDifferenceDecides() returns (r: bool)
    ensures r
  {
    var less := (x: int, y: int) => x < y;
    var a := new SingleLinkedList.FromValues([1, 2]);
    var c := new SingleLinkedList.FromValues([1, 3]);
    r := ListGreater(c, a, less);
    assert StrictTotalOrder(less);
    assert DiffersAt([1, 2], [1, 3], less, 1);
  }

  /** Lists of equal size with different elements are not equal. */
  method EqualSizeDifferent() returns (r: bool)
    ensures !r
  {
    var a := new SingleLinkedList.FromValues([1, 2]);
    var c := new SingleLinkedList.FromValues([1, 3]);
    r := ListEqual(a, c);
  }
}
