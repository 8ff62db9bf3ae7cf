/** The abstract view of the list: sequences of elements and what each operation does to them. */
module Sequences {

  /** The least position of `e` in `s`, or -1 when `e` does not occur:
      the answer of a linear search by equality that starts at the front. */
  function FirstIndex<T(==)>(s: seq<T>, e: T): (r: int)
    ensures -1 <= r < |s|
    ensures r == -1 <==> e !in s
    ensures 0 <= r ==> s[r] == e && e !in s[..r]
    decreases |s|
  {
    if s == [] then -1
    else if s[0] == e then 0
    else
      var j := FirstIndex(s[1..], e);
      assert 0 <= j ==> s[..j + 1] == [s[0]] + s[1..][..j];
      if j == -1 then -1 else j + 1
  }

  /** `s` with `x` placed so that it occupies position `i`. */
  function InsertIndex<T>(s: seq<T>, i: nat, x: T): (r: seq<T>)
    requires i <= |s|
    ensures |r| == |s| + 1
    ensures r[i] == x
    ensures forall k :: 0 <= k < i ==> r[k] == s[k]
    ensures forall k :: i < k < |r| ==> r[k] == s[k - 1]
  {
    s[..i] + [x] + s[i..]
  }

  /** `s` without the element at position `i`. */
  function RemoveIndex<T>(s: seq<T>, i: nat): (r: seq<T>)
    requires i < |s|
    ensures |r| == |s| - 1
    ensures forall k :: 0 <= k < i ==> r[k] == s[k]
    ensures forall k :: i <= k < |r| ==> r[k] == s[k + 1]
  {
    s[..i] + s[i + 1..]
  }

  /** `s` without the first occurrence of `e`, or `s` itself when `e` does not occur:
      what removing an element by value does. */
  function RemoveFirstOccurrence<T(==)>(s: seq<T>, e: T): (r: seq<T>)
    ensures e !in s ==> r == s
    ensures e in s ==> |r| == |s| - 1 && multiset(r) + multiset{e} == multiset(s)
  {
    if e !in s then s
    else
      var j := FirstIndex(s, e);
      assert s == s[..j] + [s[j]] + s[j + 1..];
      RemoveIndex(s, j)
  }

  /** Removing by position as the source does it: look up the element at `i`, then remove the
      first element equal to it, which is at `i` or earlier. */
  function RemoveAtAsWritten<T(==)>(s: seq<T>, i: nat): (r: seq<T>)
    requires i < |s|
    ensures |r| == |s| - 1
  {
    RemoveFirstOccurrence(s, s[i])
  }

  /** Removing the element at `i` by value removes the one at the first position holding an
      equal element; that position is never after `i`. */
  lemma RemoveAtAsWrittenRemovesFirstEqual<T>(s: seq<T>, i: nat)
    requires i < |s|
    ensures var j := FirstIndex(s, s[i]);
      0 <= j <= i && s[j] == s[i] && RemoveAtAsWritten(s, i) == RemoveIndex(s, j)
  {
  }

  /** When no equal element comes before position `i`, removing by value removes exactly
      position `i`, as removing by position should. */
  lemma RemoveAtAsWrittenWithoutEarlierCopy<T>(s: seq<T>, i: nat)
    requires i < |s|
    requires s[i] !in s[..i]
    ensures RemoveAtAsWritten(s, i) == RemoveIndex(s, i)
  {
  }

  /** Removing by value and removing by position always drop an equal element, so the two
      results hold the same elements; only their order can differ. */
  lemma RemoveAtAsWrittenSameElements<T>(s: seq<T>, i: nat)
    requires i < |s|
    ensures multiset(RemoveAtAsWritten(s, i)) == multiset(RemoveIndex(s, i))
  {
    var j := FirstIndex(s, s[i]);
    RemoveAtAsWrittenRemovesFirstEqual(s, i);
    RemoveIndexElements(s, j);
    RemoveIndexElements(s, i);
    var a, b := multiset(RemoveIndex(s, j)), multiset(RemoveIndex(s, i));
    assert a + multiset{s[i]} == b + multiset{s[i]};
    assert a == a + multiset{s[i]} - multiset{s[i]};
  }

  /** Removing position `i` takes exactly one copy of `s[i]` out of the elements. */
  lemma RemoveIndexElements<T>(s: seq<T>, i: nat)
    requires i < |s|
    ensures multiset(RemoveIndex(s, i)) + multiset{s[i]} == multiset(s)
  {
    assert s == s[..i] + [s[i]] + s[i + 1..];
  }

  /** With a duplicate in front, the source's removal by position removes the wrong copy:
      on [0, 1, 0] at position 2 it leaves [1, 0] where [0, 1] was meant. */
  lemma RemoveAtAsWrittenCounterexample()
    ensures RemoveAtAsWritten([0, 1, 0], 2) == [1, 0]
    ensures RemoveIndex([0, 1, 0], 2) == [0, 1]
  {
  }

  /** Inserting at a position and then removing that position gives back the sequence. */
  lemma RemoveIndexUndoesInsertIndex<T>(s: seq<T>, i: nat, x: T)
    requires i <= |s|
    ensures RemoveIndex(InsertIndex(s, i, x), i) == s
  {
  }
}
