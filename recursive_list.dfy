/** The doubly-linked list: a chain of cells reached through `head` and `tail`, with a count. */
module RecursiveLists {
  import opened Outcomes
  import opened Sequences
  import opened Nodes
  import opened ListIterators

  class RecursiveList<T(==)> {
    var head: Node?<T>
    var tail: Node?<T>
    var size: int
    /** The cells of the chain from head to tail, and their elements. */
    ghost var nodes: seq<Node<T>>
    ghost var contents: seq<T>

    /** The linking discipline every public operation keeps. */
    ghost predicate Valid()
      reads this, nodes
    {
      && size == |nodes|
      && Chain(head, nodes, contents)
      && (tail == null <==> size == 0)
      && (size > 0 ==> tail == nodes[size - 1] && head.prev == null)
      && (forall k :: 0 <= k < size - 1 ==> nodes[k + 1].prev == nodes[k])
      && (forall j, k :: 0 <= j < k < size ==> nodes[j] != nodes[k])
    }

    /** The list starts out empty. */
    constructor ()
      ensures Valid() && nodes == [] && contents == []
    {
      head, tail, size := null, null, 0;
      nodes, contents := [], [];
    }

    /** A one-element list is exactly one whose head is its tail. */
    lemma SingletonIffHeadIsTail()
      requires Valid()
      ensures size == 1 <==> head != null && head == tail
    {
    }

    /** The cell at position `index`, or null one past the tail. */
    ghost function NodeAt(index: int): Node?<T>
      reads this
      requires 0 <= index <= |nodes|
    {
      if index < |nodes| then nodes[index] else null
    }

    /** An iterator that yields the list's elements from head to tail. */
    method Iterator() returns (it: RecursiveListIterator<T>)
      requires Valid()
      ensures fresh(it) && it.Valid() && it.chain == nodes && it.remaining == contents
    {
      it := new RecursiveListIterator(head, nodes, contents);
    }

    /** The number of elements. */
    function Size(): (n: int)
      reads this, nodes
      requires Valid()
      ensures n == |contents|
    {
      size
    }

    /** Whether the list has no elements. */
    function IsEmpty(): (b: bool)
      reads this, nodes
      requires Valid()
      ensures b <==> contents == []
      ensures b <==> head == null && tail == null
    {
      size == 0
    }

    /** Puts `elem` in front of the first element. */
    method InsertFirst(elem: Nullable<T>) returns (s: Status)
      requires Valid()
      modifies this, nodes
      ensures Valid()
      ensures elem.Null? ==> s == Fail(NullElement) && unchanged(this) && unchanged(nodes)
      ensures elem.NonNull? ==>
        && s == Pass
        && contents == [elem.value] + old(contents)
        && size == old(size) + 1
        && fresh(nodes[0]) && nodes[1..] == old(nodes)
      ensures elem.NonNull? && old(size) == 0 ==> head == tail
    {
      if elem.Null? {
        return Fail(NullElement);
      }
      head := new Node(elem.value, head, null);
      if head.next == null {
        tail := head;
      } else {
        head.next.prev := head;
      }
      size := size + 1;
      nodes := [head] + nodes;
      contents := [elem.value] + contents;
      s := Pass;
    }

    /** Puts `elem` after the last element. */
    method InsertLast(elem: Nullable<T>) returns (s: Status)
      requires Valid()
      modifies this, nodes
      ensures Valid()
      ensures elem.Null? ==> s == Fail(NullElement) && unchanged(this) && unchanged(nodes)
      ensures elem.NonNull? ==>
        && s == Pass
        && contents == old(contents) + [elem.value]
        && size == old(size) + 1
        && fresh(nodes[|nodes| - 1]) && nodes[..|nodes| - 1] == old(nodes)
      ensures elem.NonNull? && old(size) == 0 ==> head == tail
    {
      if elem.Null? {
        return Fail(NullElement);
      }
      tail := new Node(elem.value, null, tail);
      if tail.prev == null {
        head := tail;
      } else {
        tail.prev.next := tail;
      }
      size := size + 1;
      nodes := nodes + [tail];
      contents := contents + [elem.value];
      s := Pass;
    }

    /** Puts `elem` so that it occupies position `index`. A bad index is reported before a null
        element. */
    method InsertAt(index: int, elem: Nullable<T>) returns (s: Status)
      requires Valid()
      modifies this, nodes
      ensures Valid()
      ensures (index < 0 || index > old(size)) ==>
        s == Fail(IndexOutOfBounds) && unchanged(this) && unchanged(nodes)
      ensures 0 <= index <= old(size) && elem.Null? ==>
        s == Fail(NullElement) && unchanged(this) && unchanged(nodes)
      ensures 0 <= index <= old(size) && elem.NonNull? ==>
        && s == Pass
        && contents == InsertIndex(old(contents), index, elem.value)
        && |nodes| == old(|nodes|) + 1
        && fresh(nodes[index]) && nodes == old(nodes)[..index] + [nodes[index]] + old(nodes)[index..]
    {
      if index < 0 || index > size {
        return Fail(IndexOutOfBounds);
      }
      if elem.Null? {
        return Fail(NullElement);
      }
      if index == 0 {
        s := InsertFirst(elem);
      } else if index == size {
        s := InsertLast(elem);
      } else {
        var node := new Node(elem.value, GetNode(index).value, GetNode(index - 1).value);
        LinkNextAndPriorNodeToCurrentNode(node, index);
        s := Pass;
      }
    }

    /** Takes away the first element and returns it. */
    method RemoveFirst() returns (r: Result<T>)
      requires Valid()
      modifies this, nodes
      ensures Valid()
      ensures old(size) == 0 ==> r == Failure(EmptyList) && unchanged(this) && unchanged(nodes)
      ensures old(size) > 0 ==>
        && r == Success(old(contents)[0])
        && contents == old(contents)[1..]
        && nodes == old(nodes)[1..]
      ensures old(size) == 1 ==> head == null && tail == null
    {
      if IsEmpty() {
        return Failure(EmptyList);
      }
      var data := head.data;
      ChainStep(head, nodes, contents);
      if head.next != null {
        head.next.prev := null;
      } else {
        tail := null;
      }
      head := head.next;
      size := size - 1;
      nodes := nodes[1..];
      contents := contents[1..];
      r := Success(data);
    }

    /** Takes away the last element and returns it. */
    method RemoveLast() returns (r: Result<T>)
      requires Valid()
      modifies this, nodes
      ensures Valid()
      ensures old(size) == 0 ==> r == Failure(EmptyList) && unchanged(this) && unchanged(nodes)
      ensures old(size) > 0 ==>
        && r == Success(old(contents)[old(size) - 1])
        && contents == old(contents)[..old(size) - 1]
        && nodes == old(nodes)[..old(size) - 1]
      ensures old(size) == 1 ==> head == null && tail == null
    {
      if IsEmpty() {
        return Failure(EmptyList);
      }
      var data := tail.data;
      assert size > 1 ==> tail.prev == nodes[size - 2];
      if tail.prev != null {
        tail.prev.next := null;
      } else {
        head := null;
      }
      tail := tail.prev;
      size := size - 1;
      nodes := nodes[..size];
      contents := contents[..size];
      r := Success(data);
    }

    /** Returns the element at position `i` and then removes the first element equal to it,
        which is at `i` or earlier. */
    method RemoveAt(i: int) returns (r: Result<T>)
      requires Valid()
      modifies this, nodes
      ensures Valid()
      ensures (i < 0 || i >= old(size)) ==>
        r == Failure(IndexOutOfBounds) && unchanged(this) && unchanged(nodes)
      ensures 0 <= i < old(size) ==>
        && r == Success(old(contents)[i])
        && contents == RemoveAtAsWritten(old(contents), i)
        && var j := FirstIndex(old(contents), old(contents)[i]);
           0 <= j <= i && contents == RemoveIndex(old(contents), j)
           && nodes == RemoveIndex(old(nodes), j)
    {
      if i < 0 || i >= size {
        return Failure(IndexOutOfBounds);
      }
      var data := Get(i).value;
      RemoveAtAsWrittenRemovesFirstEqual(contents, i);
      var _ := Remove(NonNull(data));
      r := Success(data);
    }

    /** Removes the element at position `i` itself, splicing out cell `i`. */
    method RemoveAtIndex(i: int) returns (r: Result<T>)
      requires Valid()
      modifies this, nodes
      ensures Valid()
      ensures (i < 0 || i >= old(size)) ==>
        r == Failure(IndexOutOfBounds) && unchanged(this) && unchanged(nodes)
      ensures 0 <= i < old(size) ==>
        && r == Success(old(contents)[i])
        && contents == RemoveIndex(old(contents), i)
        && nodes == RemoveIndex(old(nodes), i)
    {
      if i < 0 || i >= size {
        return Failure(IndexOutOfBounds);
      }
      var data := Get(i).value;
      if i == 0 {
        var _ := RemoveFirst();
      } else if i == size - 1 {
        var _ := RemoveLast();
      } else {
        LinkNextAndPriorNode(GetNode(i).value, i);
      }
      r := Success(data);
    }

    /** The first element. */
    function GetFirst(): (r: Result<T>)
      reads this, nodes
      requires Valid()
      ensures contents == [] ==> r == Failure(EmptyList)
      ensures contents != [] ==> r == Success(contents[0])
    {
      if IsEmpty() then Failure(EmptyList) else Success(head.data)
    }

    /** The last element. */
    function GetLast(): (r: Result<T>)
      reads this, nodes
      requires Valid()
      ensures contents == [] ==> r == Failure(EmptyList)
      ensures contents != [] ==> r == Success(contents[|contents| - 1])
    {
      if IsEmpty() then Failure(EmptyList) else Success(tail.data)
    }

    /** The element at position `i`. The range check admits `i == size`, and the walk then reads
        past the tail; that case ends in NullDereference rather than IndexOutOfBounds. */
    function Get(i: int): (r: Result<T>)
      reads this, nodes
      requires Valid()
      ensures 0 <= i < |contents| ==> r == Success(contents[i])
      ensures i == |contents| ==> r == Failure(NullDereference)
      ensures (i < 0 || i > |contents|) ==> r == Failure(IndexOutOfBounds)
    {
      if i < 0 || i > size then Failure(IndexOutOfBounds) else GetFrom(i, head, 0)
    }

    /** Removes the first element equal to `elem`; tells whether there was one. */
    method Remove(elem: Nullable<T>) returns (r: Result<bool>)
      requires Valid()
      modifies this, nodes
      ensures Valid()
      ensures elem.Null? ==> r == Failure(NullElement) && unchanged(this) && unchanged(nodes)
      ensures elem.NonNull? && elem.value !in old(contents) ==>
        r == Success(false) && unchanged(this) && unchanged(nodes)
      ensures elem.NonNull? && elem.value in old(contents) ==>
        && r == Success(true)
        && var j := FirstIndex(old(contents), elem.value);
           contents == RemoveIndex(old(contents), j) && nodes == RemoveIndex(old(nodes), j)
    {
      if elem.Null? {
        return Failure(NullElement);
      }
      var index := IndexOf(elem).value;
      if index == -1 {
        return Success(false);
      } else if index == 0 {
        var _ := RemoveFirst();
      } else if index == Size() - 1 {
        var _ := RemoveLast();
      } else {
        LinkNextAndPriorNode(GetNode(index).value, index);
      }
      r := Success(true);
    }

    /** The least position holding an element equal to `elem`, or -1 when there is none. */
    function IndexOf(elem: Nullable<T>): (r: Result<int>)
      reads this, nodes
      requires Valid()
      ensures elem.Null? ==> r == Failure(NullElement)
      ensures elem.NonNull? ==> r == Success(FirstIndex(contents, elem.value))
      ensures elem.NonNull? && elem.value !in contents ==> r == Success(-1)
      ensures elem.NonNull? && elem.value in contents ==>
        r.Success? && 0 <= r.value < |contents| && contents[r.value] == elem.value
        && elem.value !in contents[..r.value]
    {
      if elem.Null? then Failure(NullElement) else Success(IndexOfFrom(elem.value, head, 0))
    }

    /** The walk behind `IndexOf`: the position of the first element equal to `elem` at or
        after `curr`, the cell at `index`. */
    function IndexOfFrom(elem: T, curr: Node?<T>, index: int): (r: int)
      reads this, nodes
      requires Valid()
      requires 0 <= index <= size && curr == NodeAt(index)
      ensures r == (var j := FirstIndex(contents[index..], elem); if j == -1 then -1 else index + j)
      decreases size - index
    {
      if curr == null then -1
      else if curr.data == elem then index
      else
        assert contents[index..][1..] == contents[index + 1..];
        IndexOfFrom(elem, curr.next, index + 1)
    }

    /** The walk behind `Get`: the element at position `i`, counting from `curr`, the cell at
        `index`; reading one past the tail is a null dereference. */
    function GetFrom(i: int, curr: Node?<T>, index: int): (r: Result<T>)
      reads this, nodes
      requires Valid()
      requires 0 <= index <= i <= size && curr == NodeAt(index)
      ensures i < size ==> r == Success(contents[i])
      ensures i == size ==> r == Failure(NullDereference)
      decreases i - index
    {
      if index == i then
        if curr == null then Failure(NullDereference) else Success(curr.data)
      else
        GetFrom(i, curr.next, index + 1)
    }

    /** The cell at position `i`. */
    function GetNode(i: int): (r: Result<Node<T>>)
      reads this, nodes
      requires Valid()
      ensures 0 <= i < size ==> r == Success(nodes[i])
      ensures (i < 0 || i >= size) ==> r == Failure(IndexOutOfBounds)
    {
      if i < 0 || i >= size then Failure(IndexOutOfBounds) else Success(GetNodeFrom(i, head, 0))
    }

    /** The walk behind `GetNode`: the cell at position `i`, counting from `curr`, the cell at
        `index`. */
    function GetNodeFrom(i: int, curr: Node?<T>, index: int): (r: Node<T>)
      reads this, nodes
      requires Valid()
      requires 0 <= index <= i < size && curr == nodes[index]
      ensures r == nodes[i]
      decreases i - index
    {
      if i == index then curr else GetNodeFrom(i, curr.next, index + 1)
    }

    /** Splices out `curr`, the cell at `index`, which is neither the head nor the tail. */
    method LinkNextAndPriorNode(curr: Node<T>, ghost index: int)
      requires Valid()
      requires 0 < index < size - 1 && curr == nodes[index]
      modifies this, nodes
      ensures Valid()
      ensures nodes == RemoveIndex(old(nodes), index)
      ensures contents == RemoveIndex(old(contents), index)
    {
      var nextNode := curr.next;
      var prevNode := curr.prev;
      assert nextNode == nodes[index + 1] && prevNode == nodes[index - 1];
      prevNode.next := nextNode;
      nextNode.prev := prevNode;
      size := size - 1;
      nodes := RemoveIndex(nodes, index);
      contents := RemoveIndex(contents, index);
    }

    /** Splices in the new cell `curr`, whose links already name the cells at `index - 1` and
        `index`, so that it occupies position `index`. */
    method LinkNextAndPriorNodeToCurrentNode(curr: Node<T>, ghost index: int)
      requires Valid()
      requires 0 < index < size && curr !in nodes
      requires curr.prev == nodes[index - 1] && curr.next == nodes[index]
      modifies this, nodes
      ensures Valid()
      ensures nodes == InsertIndex(old(nodes), index, curr)
      ensures contents == InsertIndex(old(contents), index, curr.data)
    {
      curr.prev.next := curr;
      curr.next.prev := curr;
      size := size + 1;
      nodes := InsertIndex(nodes, index, curr);
      contents := InsertIndex(contents, index, curr.data);
    }
  }
}
