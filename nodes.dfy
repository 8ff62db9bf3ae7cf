/** The cell of the doubly-linked chain. */
module Nodes {

  /** One cell: its element and the links to its neighbours (null at either end of the chain).
      No operation of the list or its iterator ever changes a cell's element, so it is a
      constant; the links are the mutable state. */
  class Node<T> {
    const data: T
    var next: Node?<T>
    var prev: Node?<T>

    constructor (data: T, next: Node?<T>, prev: Node?<T>)
      ensures this.data == data && this.next == next && this.prev == prev
    {
      this.data := data;
      this.next := next;
      this.prev := prev;
    }
  }

  /** Following `next` from `first` visits exactly the cells `ns`, in order, and then reaches
      null; `vals` are their elements. */
  ghost predicate Chain<T>(first: Node?<T>, ns: seq<Node<T>>, vals: seq<T>)
    reads ns
  {
    && |vals| == |ns|
    && (first == null <==> ns == [])
    && (ns != [] ==> first == ns[0] && ns[|ns| - 1].next == null)
    && (forall k :: 0 <= k < |ns| - 1 ==> ns[k].next == ns[k + 1])
    && (forall k :: 0 <= k < |ns| ==> vals[k] == ns[k].data)
  }

  /** One step along a chain leaves a chain of the remaining cells. */
  lemma ChainStep<T>(first: Node<T>, ns: seq<Node<T>>, vals: seq<T>)
    requires Chain(first, ns, vals)
    ensures ns != [] && vals != [] && vals[0] == first.data
    ensures Chain(first.next, ns[1..], vals[1..])
  {
    if |ns| > 1 {
      assert first.next == ns[1];
    }
  }
}
