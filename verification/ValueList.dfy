/** Singly linked lists of values with a tail pointer, and iterators over them. */
module ValueLists {
  import opened Wire
  import opened Chains

  class Item {
    const value: Bytes
    var next: Item?

    constructor (value: Bytes, next: Item?)
      ensures this.value == value && this.next == next
    {
      this.value, this.next := value, next;
    }
  }

  ghost function Values(spine: seq<Item>): (vs: seq<Bytes>)
    ensures |vs| == |spine|
    ensures forall i :: 0 <= i < |spine| ==> vs[i] == spine[i].value
  {
    seq(|spine|, i requires 0 <= i < |spine| => spine[i].value)
  }

  lemma ValuesOfMore(item: Item, spine: seq<Item>)
    ensures Values([item] + spine) == [item.value] + Values(spine)
    ensures Values(spine + [item]) == Values(spine) + [item.value]
  {
  }

  /** The part of the chain an iterator standing at an item has still to visit. */
  ghost function Suffix(spine: seq<Item>, current: Item?): seq<Item> {
    if spine == [] || current == null then []
    else if spine[0] == current then spine
    else Suffix(spine[1..], current)
  }

  class ValueList {
    var size: nat
    var first: Item?
    var last: Item?
    ghost var spine: seq<Item>

    /** The chain from `first` visits the spine and ends; no item occurs twice. */
    ghost predicate Valid()
      reads this, spine
    {
      && first == At(spine, 0, null)
      && last == (if spine == [] then null else spine[|spine| - 1])
      && size == |spine|
      && (forall i :: 0 <= i < |spine| ==> spine[i].next == At(spine, i + 1, null))
      && (forall i, j :: 0 <= i < j < |spine| ==> spine[i] != spine[j])
    }

    ghost function Contents(): seq<Bytes>
      reads this
    {
      Values(spine)
    }

    constructor ()
      ensures Valid() && Contents() == [] && spine == []
    {
      size, first, last := 0, null, null;
      spine := [];
    }

    method GetSize() returns (n: nat)
      requires Valid()
      ensures n == |Contents()|
    {
      n := size;
    }

    method Prepend(value: Bytes)
      requires Valid()
      modifies this
      ensures Valid() && Contents() == [value] + old(Contents())
      ensures |spine| == |old(spine)| + 1 && spine[1..] == old(spine) && fresh(spine[0])
    {
      hide Values;
      var item := new Item(value, first);
      first := item;
      size := size + 1;
      if last == null {
        last := item;
      }
      spine := [item] + spine;
      ValuesOfMore(item, old(spine));
    }

    method Append(value: Bytes)
      requires Valid()
      modifies this, spine
      ensures Valid() && Contents() == old(Contents()) + [value]
      ensures |spine| == |old(spine)| + 1 && spine[..|spine| - 1] == old(spine) && fresh(spine[|spine| - 1])
    {
      hide Values;
      var item := new Item(value, null);
      if last != null {
        last.next := item;
      }
      last := item;
      if first == null {
        first := item;
      }
      size := size + 1;
      spine := spine + [item];
      ValuesOfMore(item, old(spine));
    }
  }

  /** `current` is NULL once the end was reached, and then stays so until a reset. */
  class ValueListIter {
    const list: ValueList
    var current: Item?

    ghost predicate Valid()
      reads this, list, list.spine
    {
      list.Valid() && (current != null ==> current in list.spine)
    }

    ghost function Remaining(): seq<Bytes>
      reads this, list
    {
      Values(Suffix(list.spine, current))
    }

    constructor (list: ValueList)
      requires list.Valid()
      ensures Valid() && this.list == list && Remaining() == list.Contents()
    {
      this.list := list;
      current := list.first;
    }

    /** The next value, or None (a NULL pointer) at the end. A zero-length value is not NULL. */
    method Next() returns (value: Option<Bytes>)
      requires Valid()
      modifies this
      ensures Valid()
      ensures old(Remaining()) == [] ==> value == None && Remaining() == []
      ensures old(Remaining()) != [] ==>
                value == Some(old(Remaining())[0]) && Remaining() == old(Remaining())[1..]
    {
      if current != null {
        value := Some(current.value);
        SuffixStep(list.spine, current);
        current := current.next;
      } else {
        value := None;
      }
    }

    method Reset()
      requires Valid()
      modifies this
      ensures Valid() && Remaining() == list.Contents()
    {
      current := list.first;
    }
  }

  /** Stepping along the next pointer drops exactly the item stood at. */
  lemma {:induction false} SuffixStep(spine: seq<Item>, current: Item)
    requires current in spine
    requires forall i :: 0 <= i < |spine| ==> spine[i].next == At(spine, i + 1, null)
    requires forall i, j :: 0 <= i < j < |spine| ==> spine[i] != spine[j]
    ensures Suffix(spine, current) == [current] + Suffix(spine, current.next)
    ensures current.next != null ==> current.next in spine
  {
    if spine[0] == current {
      if |spine| > 1 {
        assert spine[1..][0] == current.next;
        assert Suffix(spine, current.next) == Suffix(spine[1..], current.next) == spine[1..];
      }
    } else {
      forall i | 0 <= i < |spine[1..]| ensures spine[1..][i].next == At(spine[1..], i + 1, null) {
        assert spine[1..][i] == spine[i + 1];
      }
      SuffixStep(spine[1..], current);
      if current.next != null {
        assert exists i :: 0 <= i < |spine| && spine[i] == current;
        assert spine[0] != current.next;
      }
    }
  }

  /** An iterator sees the same remaining items after a prepend. */
  lemma SuffixUnderPrepend(item: Item, spine: seq<Item>, current: Item?)
    requires current != item
    ensures Suffix([item] + spine, current) == Suffix(spine, current)
  {
  }

  /** After an append it sees one more item, unless it had already reached the end. */
  lemma {:induction false} SuffixUnderAppend(spine: seq<Item>, item: Item, current: Item?)
    requires current != null ==> current in spine
    ensures Suffix(spine + [item], current)
         == if current == null then [] else Suffix(spine, current) + [item]
  {
    if current != null && spine[0] != current {
      assert (spine + [item])[1..] == spine[1..] + [item];
      SuffixUnderAppend(spine[1..], item, current);
    }
  }

  /** FOR_ARAKOON_VALUE_ITER: the loop stops at the first NULL, which is only at the end. */
  method Collect(list: ValueList) returns (values: seq<Bytes>)
    requires list.Valid()
    ensures values == list.Contents()
  {
    hide ValueList.Valid, ValueList.Contents, ValueListIter.Valid, ValueListIter.Remaining;
    ghost var all, n := list.Contents(), 0;
    var iter := new ValueListIter(list);
    values := [];
    var value := iter.Next();
    while value != None
      invariant iter.Valid() && iter.list == list
      invariant n <= |all| && |values| == n && forall i :: 0 <= i < n ==> values[i] == all[i]
      invariant value == None ==> n == |all|
      invariant value != None ==> n < |all| && value.value == all[n] && iter.Remaining() == all[n + 1..]
      decreases |all| - n
    {
      values := values + [value.value];
      n := n + 1;
      value := iter.Next();
    }
  }
}
