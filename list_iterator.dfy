/** The forward iterator over the list's chain of cells. */
module ListIterators {
  import opened Outcomes
  import opened Nodes

  /** A cursor into the chain. It only ever moves its own cursor; it never writes a cell. */
  class RecursiveListIterator<T> {
    /** The cell the next call of `Next` yields (the source calls the field `head`). */
    var head: Node?<T>
    /** The cells still to be visited, and their elements. */
    ghost var chain: seq<Node<T>>
    ghost var remaining: seq<T>

    ghost predicate Valid()
      reads this, chain
    {
      Chain(head, chain, remaining)
    }

    constructor (head: Node?<T>, ghost chain: seq<Node<T>>, ghost remaining: seq<T>)
      requires Chain(head, chain, remaining)
      ensures Valid()
      ensures this.head == head && this.chain == chain && this.remaining == remaining
    {
      this.head := head;
      this.chain := chain;
      this.remaining := remaining;
    }

    /** Whether an element is left: the cursor is a cell, that is, something remains. */
    function HasNext(): (b: bool)
      reads this, chain
      requires Valid()
      ensures b <==> remaining != []
      ensures b <==> head != null
    {
      head != null
    }

    /** Yields the cursor's element and steps to the following cell; once the cursor is null it
        fails with NoSuchElement and stays null. */
    method Next() returns (r: Result<T>)
      requires Valid()
      modifies this
      ensures Valid()
      ensures old(head) != null ==>
        && r == Success(old(remaining)[0])
        && r.value == old(head.data)
        && head == old(head.next)
        && remaining == old(remaining)[1..]
        && chain == old(chain)[1..]
      ensures old(head) == null ==>
        r == Failure(NoSuchElement) && head == null && remaining == [] && chain == []
    {
      if HasNext() {
        ChainStep(head, chain, remaining);
        var data := head.data;
        head := head.next;
        chain := chain[1..];
        remaining := remaining[1..];
        r := Success(data);
      } else {
        r := Failure(NoSuchElement);
      }
    }
  }
}
