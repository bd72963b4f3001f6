// The nodes of the list and what it means for a run of them to be linked.
// Everything here is about one heap state; the list methods use these facts
// before and after they relink a node.
module Chain {

  /** One link of the chain: a value and the (possibly absent) successor. */
  class Node<T(0)> {
    var value: T
    var next: Node?<T>

    /** The sentinel: a default-constructed value that is never read, no successor. */
    constructor Sentinel()
      ensures next == null
    {
      next := null;
    }

    constructor (v: T, n: Node?<T>)
      ensures value == v && next == n
    {
      value := v;
      next := n;
    }
  }

  /** The objects of a sequence of nodes, as a frame. */
  ghost function NodeSet<T(0)>(ns: seq<Node<T>>): set<Node<T>>
  {
    set n | n in ns
  }

  /** The node a run begins with, or `tail` when the run is empty. */
  function Start<T(0)>(ns: seq<Node<T>>, tail: Node?<T>): Node?<T>
  {
    if ns == [] then tail else ns[0]
  }

  /**
   * `ns` is a run of the chain: each node holds the matching value of `es`
   * and links to the next node of `ns`, the last one to `tail`.
   */
  ghost predicate Segment<T(0)>(ns: seq<Node<T>>, es: seq<T>, tail: Node?<T>)
    reads NodeSet(ns)`value, NodeSet(ns)`next
  {
    |es| == |ns|
    && (forall i :: 0 <= i < |ns| ==> ns[i].value == es[i])
    && (forall i, j :: 0 <= i && j == i + 1 && j < |ns| ==> ns[i].next == ns[j])
    && (ns != [] ==> ns[|ns| - 1].next == tail)
  }

  /** No node occurs twice in `ns`. */
  ghost predicate Distinct<T(0)>(ns: seq<Node<T>>)
  {
    forall i, j :: 0 <= i < j < |ns| ==> ns[i] != ns[j]
  }

  /** The position of `n` in `ns`. */
  function IndexOf<T(0)>(ns: seq<Node<T>>, n: Node<T>): (i: nat)
    requires n in ns
    ensures i < |ns| && ns[i] == n
  {
    if ns[0] == n then 0 else IndexOf(ns[1..], n) + 1
  }

  lemma SegmentAt<T(0)>(ns: seq<Node<T>>, es: seq<T>, tail: Node?<T>, i: nat)
    requires Segment(ns, es, tail) && i < |ns|
    ensures ns[i].value == es[i] && ns[i].next == (if i + 1 < |ns| then ns[i + 1] else tail)
  {
  }

  /** A run cut in two is two runs, the first ending where the second starts. */
  lemma SegmentSplit<T(0)>(ns: seq<Node<T>>, es: seq<T>, tail: Node?<T>, k: nat)
    requires Segment(ns, es, tail) && k <= |ns|
    ensures Segment(ns[..k], es[..k], Start(ns[k..], tail))
    ensures Segment(ns[k..], es[k..], tail)
  {
    var front, fvals, back, bvals := ns[..k], es[..k], ns[k..], es[k..];
    forall i | 0 <= i < |front|
      ensures front[i].value == fvals[i]
      ensures front[i].next == (if i + 1 < |front| then front[i + 1] else Start(back, tail))
    {
      SegmentAt(ns, es, tail, i);
    }
    assert Segment(front, fvals, Start(back, tail));
    forall i | 0 <= i < |back|
      ensures back[i].value == bvals[i]
      ensures back[i].next == (if i + 1 < |back| then back[i + 1] else tail)
    {
      SegmentAt(ns, es, tail, k + i);
    }
    assert Segment(back, bvals, tail);
  }

  /** Two runs, the first ending where the second starts, make one run. */
  lemma SegmentJoin<T(0)>(a: seq<Node<T>>, ea: seq<T>, b: seq<Node<T>>, eb: seq<T>, tail: Node?<T>)
    requires Segment(a, ea, Start(b, tail)) && Segment(b, eb, tail)
    ensures Segment(a + b, ea + eb, tail)
  {
    var ns, es := a + b, ea + eb;
    forall i | 0 <= i < |ns|
      ensures ns[i].value == es[i]
      ensures ns[i].next == (if i + 1 < |ns| then ns[i + 1] else tail)
    {
      if i < |a| {
        SegmentAt(a, ea, Start(b, tail), i);
      } else {
        SegmentAt(b, eb, tail, i - |a|);
      }
    }
    assert Segment(ns, es, tail);
  }

  lemma NodeSetAppend<T(0)>(a: seq<Node<T>>, b: seq<Node<T>>)
    ensures NodeSet(a + b) == NodeSet(a) + NodeSet(b)
  {
  }

  lemma NotInPrefix<T(0)>(ns: seq<Node<T>>, i: nat, j: nat)
    requires Distinct(ns) && j <= i < |ns|
    ensures ns[i] !in ns[..j] && ns[i] !in NodeSet(ns[..j])
  {
  }

  lemma NotInSuffix<T(0)>(ns: seq<Node<T>>, i: nat, j: nat)
    requires Distinct(ns) && i < j <= |ns|
    ensures ns[i] !in ns[j..] && ns[i] !in NodeSet(ns[j..])
  {
  }

  /**
   * What relinking after the first `k` nodes of a chain relies on: the runs
   * before and after the k-th node, its value, and that it occurs nowhere
   * else.
   */
  lemma Around<T(0)>(ns: seq<Node<T>>, es: seq<T>, k: nat)
    requires Segment(ns, es, null) && Distinct(ns) && k <= |ns|
    ensures Segment(ns[k..], es[k..], null)
    ensures k < |ns| ==> Segment(ns[k + 1..], es[k + 1..], null) && ns[k].next == Start(ns[k + 1..], null)
    ensures k > 0 ==> Segment(ns[..k - 1], es[..k - 1], ns[k - 1]) && ns[k - 1].value == es[k - 1]
    ensures k > 0 ==> ns[k - 1] !in NodeSet(ns[..k - 1]) && ns[k - 1] !in NodeSet(ns[k..])
    ensures 0 < k < |ns| ==> ns[k - 1] !in NodeSet(ns[k + 1..])
  {
    SegmentSplit(ns, es, null, k);
    if k < |ns| {
      assert Segment(ns[k + 1..], es[k + 1..], null) && ns[k].next == Start(ns[k + 1..], null) by {
        SegmentSplit(ns, es, null, k + 1);
        SegmentAt(ns, es, null, k);
      }
    }
    if k > 0 {
      assert Segment(ns[..k - 1], es[..k - 1], ns[k - 1]) && ns[k - 1].value == es[k - 1] by {
        SegmentSplit(ns, es, null, k - 1);
        SegmentAt(ns, es, null, k - 1);
      }
      NotInPrefix(ns, k - 1, k - 1);
      NotInSuffix(ns, k - 1, k);
      if k < |ns| {
        NotInSuffix(ns, k - 1, k + 1);
      }
    }
  }

  /**
   * The first `k` nodes, the last of which is `p` and now links to the start
   * of `rest`, followed by `rest`, form one run.
   */
  lemma RelinkBehind<T(0)>(ns: seq<Node<T>>, es: seq<T>, k: nat, p: Node<T>, rest: seq<Node<T>>, erest: seq<T>)
    requires |es| == |ns| && 0 < k <= |ns| && p == ns[k - 1]
    requires p.value == es[k - 1] && p.next == Start(rest, null)
    requires Segment(ns[..k - 1], es[..k - 1], p) && Segment(rest, erest, null)
    ensures Segment(ns[..k] + rest, es[..k] + erest, null)
  {
    assert Segment([p], [es[k - 1]], Start(rest, null));
    SegmentJoin([p], [es[k - 1]], rest, erest, null);
    SegmentJoin(ns[..k - 1], es[..k - 1], [p] + rest, [es[k - 1]] + erest, null);
    assert ns[..k - 1] + ([p] + rest) == ns[..k] + rest;
    assert es[..k - 1] + ([es[k - 1]] + erest) == es[..k] + erest;
  }

  /**
   * Linking `n` in after the first `k` nodes: `p`, the k-th node, now points
   * to `n`, and `n` to the rest. The result is one run again, still without
   * repeats, whose objects are the old ones and `n`.
   */
  lemma SegmentInsert<T(0)>(ns: seq<Node<T>>, es: seq<T>, k: nat, p: Node<T>, n: Node<T>, v: T)
    requires |es| == |ns| && k <= |ns| && Distinct(ns) && n !in ns
    requires k > 0 ==> p == ns[k - 1] && p.value == es[k - 1] && p.next == n
                       && Segment(ns[..k - 1], es[..k - 1], p)
    requires n.value == v && n.next == Start(ns[k..], null)
    requires Segment(ns[k..], es[k..], null)
    ensures Segment(ns[..k] + [n] + ns[k..], es[..k] + [v] + es[k..], null)
    ensures Distinct(ns[..k] + [n] + ns[k..])
    ensures NodeSet(ns[..k] + [n] + ns[k..]) == NodeSet(ns) + {n}
  {
    var back, bvals := ns[k..], es[k..];
    assert Segment([n] + back, [v] + bvals, null) by {
      assert Segment([n], [v], Start(back, null));
      SegmentJoin([n], [v], back, bvals, null);
    }
    assert ns[..k] + [n] + back == ns[..k] + ([n] + back);
    assert es[..k] + [v] + bvals == es[..k] + ([v] + bvals);
    if k > 0 {
      RelinkBehind(ns, es, k, p, [n] + back, [v] + bvals);
    }
    DistinctInsert(ns, k, n);
    NodeSetInsert(ns, k, n);
  }

  /**
   * Unlinking the node after the first `k`: `p`, the k-th node, now points
   * past it. The result is one run again, still without repeats, whose
   * objects are the old ones less the removed node.
   */
  lemma SegmentRemove<T(0)>(ns: seq<Node<T>>, es: seq<T>, k: nat, p: Node<T>)
    requires |es| == |ns| && k < |ns| && Distinct(ns)
    requires k > 0 ==> p == ns[k - 1] && p.value == es[k - 1] && p.next == Start(ns[k + 1..], null)
                       && Segment(ns[..k - 1], es[..k - 1], p)
    requires Segment(ns[k + 1..], es[k + 1..], null)
    ensures Segment(ns[..k] + ns[k + 1..], es[..k] + es[k + 1..], null)
    ensures Distinct(ns[..k] + ns[k + 1..])
    ensures NodeSet(ns[..k] + ns[k + 1..]) == NodeSet(ns) - {ns[k]}
  {
    if k > 0 {
      RelinkBehind(ns, es, k, p, ns[k + 1..], es[k + 1..]);
    }
    DistinctRemove(ns, k);
    NodeSetRemove(ns, k);
  }

  lemma NodeSetInsert<T(0)>(ns: seq<Node<T>>, k: nat, n: Node<T>)
    requires k <= |ns|
    ensures NodeSet(ns[..k] + [n] + ns[k..]) == NodeSet(ns) + {n}
  {
    NodeSetAppend(ns[..k] + [n], ns[k..]);
    NodeSetAppend(ns[..k], [n]);
    assert ns[..k] + ns[k..] == ns;
    NodeSetAppend(ns[..k], ns[k..]);
  }

  lemma NodeSetRemove<T(0)>(ns: seq<Node<T>>, k: nat)
    requires Distinct(ns) && k < |ns|
    ensures NodeSet(ns[..k] + ns[k + 1..]) == NodeSet(ns) - {ns[k]}
  {
    NotInPrefix(ns, k, k);
    NotInSuffix(ns, k, k + 1);
    NodeSetAppend(ns[..k], ns[k + 1..]);
    assert ns == ns[..k] + [ns[k]] + ns[k + 1..];
    NodeSetAppend(ns[..k] + [ns[k]], ns[k + 1..]);
    NodeSetAppend(ns[..k], [ns[k]]);
  }

  lemma DistinctInsert<T(0)>(ns: seq<Node<T>>, k: nat, n: Node<T>)
    requires Distinct(ns) && n !in ns && k <= |ns|
    ensures Distinct(ns[..k] + [n] + ns[k..])
  {
  }

  lemma DistinctRemove<T(0)>(ns: seq<Node<T>>, k: nat)
    requires Distinct(ns) && k < |ns|
    ensures Distinct(ns[..k] + ns[k + 1..])
  {
  }
}
