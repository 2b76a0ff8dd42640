/** Singly linked lists of (key, value) pairs, built only by prepending, and iterators
    over them. */
module KeyValueLists {
  import opened Wire
  import opened Chains

  class Item {
    const key: Bytes
    const value: Bytes
    const next: Item?

    constructor (key: Bytes, value: Bytes, next: Item?)
      ensures this.key == key && this.value == value && this.next == next
    {
      this.key, this.value, this.next := key, value, next;
    }
  }

  ghost predicate IsChain(head: Item?, spine: seq<Item>) {
    && head == At(spine, 0, null)
    && forall i :: 0 <= i < |spine| ==> spine[i].next == At(spine, i + 1, null)
  }

  ghost function Entries(spine: seq<Item>): (es: seq<(Bytes, Bytes)>)
    ensures |es| == |spine|
    ensures forall i :: 0 <= i < |spine| ==> es[i] == (spine[i].key, spine[i].value)
  {
    seq(|spine|, i requires 0 <= i < |spine| => (spine[i].key, spine[i].value))
  }

  lemma ChainGrows(item: Item, spine: seq<Item>)
    requires IsChain(item.next, spine)
    ensures IsChain(item, [item] + spine)
    ensures Entries([item] + spine) == [(item.key, item.value)] + Entries(spine)
  {
  }

  class KeyValueList {
    var size: int
    var first: Item?
    ghost var spine: seq<Item>

    ghost predicate Valid()
      reads this
    {
      IsChain(first, spine) && size == |spine|
    }

    ghost function Contents(): seq<(Bytes, Bytes)>
      reads this
    {
      Entries(spine)
    }

    constructor ()
      ensures Valid() && Contents() == []
    {
      size, first := 0, null;
      spine := [];
    }

    method Prepend(key: Bytes, value: Bytes)
      requires Valid()
      modifies this
      ensures Valid() && Contents() == [(key, value)] + old(Contents())
    {
      hide IsChain, Entries;
      var item := new Item(key, value, first);
      ChainGrows(item, spine);
      first := item;
      size := size + 1;
      spine := [item] + spine;
    }
  }

  class KeyValueListIter {
    const list: KeyValueList
    var current: Item?
    ghost var rest: seq<Item>

    /** The items still to come are a chain from `current`. */
    ghost predicate Valid()
      reads this, list
    {
      list.Valid() && IsChain(current, rest)
    }

    ghost function Remaining(): seq<(Bytes, Bytes)>
      reads this
    {
      Entries(rest)
    }

    constructor (list: KeyValueList)
      requires list.Valid()
      ensures Valid() && this.list == list && Remaining() == list.Contents()
    {
      this.list := list;
      current := list.first;
      rest := list.spine;
    }

    /** Both pointers are NULL exactly at the end, even when sizes are zero before it. */
    method Next() returns (key: Option<Bytes>, value: Option<Bytes>)
      requires Valid()
      modifies this
      ensures Valid()
      ensures old(Remaining()) == [] ==> key == None && value == None && Remaining() == []
      ensures old(Remaining()) != [] ==>
                && key == Some(old(Remaining())[0].0) && value == Some(old(Remaining())[0].1)
                && Remaining() == old(Remaining())[1..]
    {
      if current != null {
        key, value := Some(current.key), Some(current.value);
        current := current.next;
        rest := rest[1..];
      } else {
        key, value := None, None;
      }
    }

    method Reset()
      requires Valid()
      modifies this
      ensures Valid() && Remaining() == list.Contents()
    {
      current := list.first;
      rest := list.spine;
    }
  }

  /** FOR_ARAKOON_KEY_VALUE_ITER */
  method Collect(list: KeyValueList) returns (entries: seq<(Bytes, Bytes)>)
    requires list.Valid()
    ensures entries == list.Contents()
  {
    hide KeyValueList.Valid, KeyValueList.Contents, KeyValueListIter.Valid, Entries;
    var iter := new KeyValueListIter(list);
    entries := [];
    var key, value := iter.Next();
    while key != None && value != None
      invariant iter.Valid() && iter.list == list
      invariant key == None <==> value == None
      invariant key == None ==> entries == list.Contents()
      invariant key != None ==> entries + [(key.value, value.value)] + iter.Remaining() == list.Contents()
      decreases |iter.Remaining()| + if key == None then 0 else 1
    {
      entries := entries + [(key.value, value.value)];
      key, value := iter.Next();
    }
  }
}
