/** Clients of the list that use only the operations' contracts: traversal with an iterator and
    usage scenarios (insertion order, round trips, emptying, rejected nulls, removal by value). */
module Scenarios {
  import opened Outcomes
  import opened Sequences
  import opened Nodes
  import opened ListIterators
  import opened RecursiveLists

  /** Iterating a list yields its elements from head to tail; the call after the last element
      fails with NoSuchElement. The list is only read. */
  method Traverse<T(==)>(list: RecursiveList<T>) returns (out: seq<T>, after: Result<T>)
    requires list.Valid()
    ensures out == list.contents
    ensures after == Failure(NoSuchElement)
  {
    var it := list.Iterator();
    out := [];
    while it.HasNext()
      invariant it.Valid()
      invariant out + it.remaining == list.contents
      decreases |it.remaining|
    {
      var r := it.Next();
      out := out + [r.value];
    }
    after := it.Next();
  }

  /** A fresh list holding `s`, built by inserting each element at the back. */
  method FromSeq<T(==)>(s: seq<T>) returns (list: RecursiveList<T>)
    ensures fresh(list) && list.Valid() && list.contents == s && list.size == |s|
    ensures forall k :: 0 <= k < |list.nodes| ==> fresh(list.nodes[k])
  {
    list := new RecursiveList();
    var i := 0;
    while i < |s|
      invariant 0 <= i <= |s|
      invariant fresh(list) && list.Valid() && list.contents == s[..i]
      invariant forall k :: 0 <= k < |list.nodes| ==> fresh(list.nodes[k])
    {
      var _ := list.InsertLast(NonNull(s[i]));
      assert s[..i + 1] == s[..i] + [s[i]];
      i := i + 1;
    }
  }

  /** The elements of a list built from `s`, read back with an iterator. */
  method RoundTripThroughList<T(==)>(s: seq<T>) returns (out: seq<T>)
    ensures out == s
  {
    var list := FromSeq(s);
    var after;
    out, after := Traverse(list);
  }

  /** Inserting a, b, c at the front, in that order, gives the order c, b, a. */
  method InsertFirstReversesOrder<T(==)>(a: T, b: T, c: T) returns (out: seq<T>)
    ensures out == [c, b, a]
  {
    var list := new RecursiveList();
    var _ := list.InsertFirst(NonNull(a));
    var _ := list.InsertFirst(NonNull(b));
    var _ := list.InsertFirst(NonNull(c));
    var after;
    out, after := Traverse(list);
  }

  /** Inserting a, b, c at the back, in that order, keeps the order a, b, c. */
  method InsertLastKeepsOrder<T(==)>(a: T, b: T, c: T) returns (out: seq<T>)
    ensures out == [a, b, c]
  {
    var list := new RecursiveList();
    var _ := list.InsertLast(NonNull(a));
    var _ := list.InsertLast(NonNull(b));
    var _ := list.InsertLast(NonNull(c));
    var after;
    out, after := Traverse(list);
  }

  /** Inserting after the first of a, b, c puts x second, where `get(1)` finds it. */
  method InsertAtMiddle<T(==)>(a: T, b: T, c: T, x: T) returns (out: seq<T>, got: Result<T>)
    ensures out == [a, x, b, c]
    ensures got == Success(x)
  {
    var list := FromSeq([a, b, c]);
    var _ := list.InsertAt(1, NonNull(x));
    got := list.Get(1);
    var after;
    out, after := Traverse(list);
  }

  /** Appending `x` and removing the last element gives `x` back and restores the size. */
  method InsertLastThenRemoveLast<T(==)>(s: seq<T>, x: T) returns (r: Result<T>, n: int)
    ensures r == Success(x)
    ensures n == |s|
  {
    var list := FromSeq(s);
    var _ := list.InsertLast(NonNull(x));
    r := list.RemoveLast();
    n := list.Size();
  }

  /** Every way of removing the only element empties the list, after which the first and last
      elements cannot be read. */
  method EmptyingASingleton<T(==)>(x: T)
    returns (emptied: seq<bool>, firsts: seq<Result<T>>, lasts: seq<Result<T>>)
    ensures emptied == [true, true, true]
    ensures firsts == [Failure(EmptyList), Failure(EmptyList), Failure(EmptyList)]
    ensures lasts == [Failure(EmptyList), Failure(EmptyList), Failure(EmptyList)]
  {
    var one := FromSeq([x]);
    var _ := one.RemoveFirst();
    var two := FromSeq([x]);
    var _ := two.RemoveLast();
    var three := FromSeq([x]);
    var _ := three.RemoveAt(0);
    emptied := [one.IsEmpty(), two.IsEmpty(), three.IsEmpty()];
    firsts := [one.GetFirst(), two.GetFirst(), three.GetFirst()];
    lasts := [one.GetLast(), two.GetLast(), three.GetLast()];
  }

  /** No insertion accepts a null element, and none of them changes the size; an out-of-range
      index is reported ahead of the null element. */
  method NullInsertionsRejected<T(==)>(s: seq<T>) returns (outcomes: seq<Status>, n: int)
    ensures outcomes == [Fail(NullElement), Fail(NullElement), Fail(NullElement), Fail(IndexOutOfBounds)]
    ensures n == |s|
  {
    var list := FromSeq(s);
    var a := list.InsertFirst(Null);
    var b := list.InsertLast(Null);
    var c := list.InsertAt(|s|, Null);
    var d := list.InsertAt(|s| + 1, Null);
    outcomes := [a, b, c, d];
    n := list.Size();
  }

  /** Removing a present element shrinks the list by one and reports true; removing an absent
      one reports false and keeps the size. */
  method RemoveByValue<T(==)>(s: seq<T>, x: T) returns (found: Result<bool>, n: int)
    ensures x in s ==> found == Success(true) && n == |s| - 1
    ensures x !in s ==> found == Success(false) && n == |s|
  {
    var list := FromSeq(s);
    found := list.Remove(NonNull(x));
    n := list.Size();
  }
}
