/** A FIFO queue over a singly linked list of nodes, with a pointer to
    each end and an element count (queueADT.c). The list is described by
    the ghost sequence of its nodes, `Spine`, and of their values,
    `Contents`; the queue's front is `Contents[0]`. */
module QueueADT {

  /** What queue_dequeue and queue_peak hand back: None for an empty queue
      (where the C code returns NULL), or the front value. */
  datatype Option<T> = None | Some(value: T)

  /** One link of the list (Qlinked). */
  class Node<T> {
    var value: T
    var next: Node?<T>

    /** A node just allocated for the back of the queue: it holds the value
        and ends the list. */
    constructor (value: T)
      ensures this.value == value && next == null
    {
      this.value := value;
      next := null;
    }
  }

  /** `nodes` are linked in order through `next`, the last one to null. */
  ghost predicate Linked<T>(nodes: seq<Node<T>>)
    reads set i | 0 <= i < |nodes| :: nodes[i]
  {
    && (forall i :: 0 <= i < |nodes| - 1 ==> nodes[i].next == nodes[i + 1])
    && (0 < |nodes| ==> nodes[|nodes| - 1].next == null)
  }

  /** Following `next` from `n` visits exactly `nodes` and then reaches null. */
  ghost predicate Chain<T>(n: Node?<T>, nodes: seq<Node<T>>)
    reads set i | 0 <= i < |nodes| :: nodes[i]
    decreases |nodes|
  {
    if nodes == [] then n == null
    else n == nodes[0] && Chain(nodes[0].next, nodes[1..])
  }

  /** Every suffix of a linked sequence of nodes is the chain that starts
      at its first node. */
  lemma {:induction false} LinkedSuffixIsChain<T>(nodes: seq<Node<T>>, k: nat)
    requires Linked(nodes)
    requires k <= |nodes|
    ensures Chain(if k < |nodes| then nodes[k] else null, nodes[k..])
    decreases |nodes| - k
  {
    if k < |nodes| {
      LinkedSuffixIsChain(nodes, k + 1);
      assert nodes[k..][1..] == nodes[k + 1..];
    }
  }

  /** The nodes reachable from a node are determined by it: two chains from
      the same node are the same sequence. */
  lemma {:induction false} ChainUnique<T>(n: Node?<T>, a: seq<Node<T>>, b: seq<Node<T>>)
    requires Chain(n, a) && Chain(n, b)
    ensures a == b
    decreases |a|
  {
    if a != [] && b != [] {
      ChainUnique(a[0].next, a[1..], b[1..]);
      assert a == [a[0]] + a[1..];
      assert b == [b[0]] + b[1..];
    }
  }

  class Queue<T> {
    var front: Node?<T>
    var back: Node?<T>
    var num: nat
    ghost var Contents: seq<T>
    ghost var Spine: seq<Node<T>>
    ghost var Repr: set<object>

    /** The nodes of `Spine` are distinct, linked front to back, hold
        `Contents` and number `num`. When the queue is empty `front` is null
        and `back` may be stale: queue_dequeue does not reset it. */
    ghost predicate Valid()
      reads this, Repr
    {
      && this in Repr
      && (forall i :: 0 <= i < |Spine| ==> Spine[i] in Repr)
      && |Spine| == |Contents| == num
      && (forall i :: 0 <= i < |Spine| ==> Spine[i].value == Contents[i])
      && (forall i, j :: 0 <= i < j < |Spine| ==> Spine[i] != Spine[j])
      && Linked(Spine)
      && (num == 0 ==> front == null)
      && (num != 0 ==> front == Spine[0] && back == Spine[num - 1])
    }

    /** queue_create */
    constructor ()
      ensures Valid() && fresh(Repr)
      ensures Contents == [] && num == 0
      ensures front == null && back == null
    {
      front, back := null, null;
      num := 0;
      Contents, Spine := [], [];
      Repr := {this};
    }

    /** `num` is the number of nodes reachable from `front`. */
    lemma NumCountsReachable()
      requires Valid()
      ensures Chain(front, Spine)
      ensures forall nodes :: Chain(front, nodes) ==> |nodes| == num
    {
      LinkedSuffixIsChain(Spine, 0);
      assert Spine[0..] == Spine;
      forall nodes | Chain(front, nodes)
        ensures |nodes| == num
      {
        ChainUnique(front, nodes, Spine);
      }
    }

    /** queue_size */
    function Size(): (n: nat)
      reads this, Repr
      requires Valid()
      ensures n == |Contents|
    {
      num
    }

    /** queue_empty: 1 for an empty queue, 0 otherwise. */
    function Empty(): (b: int)
      reads this, Repr
      requires Valid()
      ensures b == 0 || b == 1
      ensures b == 1 <==> Contents == []
    {
      if num == 0 then 1 else 0
    }

    /** queue_peak: the front value, or None for an empty queue. */
    function Peek(): (r: Option<T>)
      reads this, Repr
      requires Valid()
      ensures Contents == [] <==> r == None
      ensures Contents != [] ==> r == Some(Contents[0])
    {
      if Empty() == 1 then None else Some(front.value)
    }

    /** queue_enqueue: a new node carrying `x` goes after the back. */
    method Enqueue(x: T)
      requires Valid()
      modifies Repr
      ensures Valid() && fresh(Repr - old(Repr))
      ensures Contents == old(Contents) + [x]
      ensures num == old(num) + 1
    {
      var node := new Node(x);
      if front == null {
        front, back := node, node;
      } else {
        back.next := node;
        back := node;
      }
      num := num + 1;
      Contents := Contents + [x];
      Spine := Spine + [node];
      Repr := Repr + {node};
    }

    /** queue_dequeue: None and no change for an empty queue; otherwise the
        front value, whose node is unlinked. */
    method Dequeue() returns (r: Option<T>)
      requires Valid()
      modifies this
      ensures Valid() && Repr == old(Repr)
      ensures old(Contents) == [] ==> r == None && unchanged(this)
      ensures old(Contents) != [] ==> r == Some(old(Contents)[0]) && Contents == old(Contents)[1..]
      ensures num == |Contents|
    {
      if Empty() == 1 {
        return None;
      }
      var value := front.value;
      front := front.next;
      num := num - 1;
      Contents, Spine := Contents[1..], Spine[1..];
      r := Some(value);
    }

    /** queue_clear: walks the list from the front, unlinking every node. */
    method Clear()
      requires Valid()
      modifies this
      ensures Valid() && Repr == old(Repr)
      ensures Contents == [] && num == 0
      ensures front == null && back == null
    {
      ghost var spine := Spine;
      ghost var k := 0;
      LinkedSuffixIsChain(spine, 0);
      while front != null
        invariant k <= |spine|
        invariant Chain(front, spine[k..])
        invariant Repr == old(Repr)
        decreases |spine| - k
      {
        front := front.next;
        k := k + 1;
      }
      back := null;
      num := 0;
      Contents, Spine := [], [];
    }
  }

  /** A fresh queue holding `xs`, one queue_enqueue call per value. */
  method FillQueue<T>(xs: seq<T>) returns (q: Queue<T>)
    ensures q.Valid() && fresh(q.Repr)
    ensures q.Contents == xs
  {
    q := new Queue<T>();
    for i := 0 to |xs|
      invariant q.Valid() && fresh(q.Repr)
      invariant q.Contents == xs[..i]
    {
      q.Enqueue(xs[i]);
    }
    assert xs[..|xs|] == xs;
  }

  /** FIFO order: values enqueued one after another come out of
      queue_dequeue in the same order, and then the queue is empty. */
  method EnqueueAllThenDrain<T>(xs: seq<T>) returns (ys: seq<T>)
    ensures ys == xs
  {
    var q := FillQueue(xs);
    ys := [];
    while q.Empty() == 0
      invariant q.Valid() && fresh(q.Repr)
      invariant ys + q.Contents == xs
      decreases |q.Contents|
    {
      var r := q.Dequeue();
      ys := ys + [r.value];
    }
  }
}
