/** Sequences as the client keeps them, a linked list with the latest call first, and the
    two-pass encoder that fills its buffer from the end to the front. */
module SequenceBuilder {
  import opened Wire
  import opened Chains
  import opened WireLists
  import opened SequenceItems
  import opened Fields
  import opened Requests
  import opened Layouts
  import opened CommandBuilder

  class Node {
    const item: Item
    const next: Node?

    constructor (item: Item, next: Node?)
      ensures this.item == item && this.next == next
    {
      this.item, this.next := item, next;
    }
  }

  /** The items of a chain of nodes, in chain order. */
  ghost function Items(spine: seq<Node>): (items: seq<Item>)
    ensures |items| == |spine|
    ensures forall i :: 0 <= i < |spine| ==> items[i] == spine[i].item
  {
    seq(|spine|, i requires 0 <= i < |spine| => spine[i].item)
  }

  ghost predicate IsChain(head: Node?, spine: seq<Node>) {
    && head == At(spine, 0, null)
    && forall i :: 0 <= i < |spine| ==> spine[i].next == At(spine, i + 1, null)
  }

  class ArakoonSequence {
    var item: Node?
    ghost var spine: seq<Node>

    ghost predicate Valid()
      reads this
    {
      IsChain(item, spine)
    }

    /** The items in the order they were added. */
    ghost function Calls(): seq<Item>
      reads this
    {
      Reverse(Items(spine))
    }

    constructor ()
      ensures Valid() && Calls() == []
    {
      item := null;
      spine := [];
    }

    method Add(x: Item)
      requires Valid()
      modifies this
      ensures Valid() && Calls() == old(Calls()) + [x]
    {
      var node := new Node(x, item);
      item := node;
      spine := [node] + spine;
      assert Items(spine) == [x] + Items(old(spine));
    }

    method AddSet(key: Bytes, value: Bytes)
      requires Valid()
      modifies this
      ensures Valid() && Calls() == old(Calls()) + [Set(key, value)]
    {
      Add(Set(key, value));
    }

    method AddDelete(key: Bytes)
      requires Valid()
      modifies this
      ensures Valid() && Calls() == old(Calls()) + [Delete(key)]
    {
      Add(Delete(key));
    }

    /** A NULL value asserts absence; the source aborts on NULL with a nonzero size. */
    method AddAssert(key: Bytes, value: Option<Bytes>, valueSize: nat)
      requires Valid()
      requires valueSize == if value.None? then 0 else |value.value|
      modifies this
      ensures Valid() && Calls() == old(Calls()) + [Assert(key, value)]
    {
      Add(Assert(key, value));
    }

    method AddAssertExists(key: Bytes)
      requires Valid()
      modifies this
      ensures Valid() && Calls() == old(Calls()) + [AssertExists(key)]
    {
      Add(AssertExists(key));
    }
  }

  // ----- what the passes have covered after n nodes ---------------------------

  /** The forward encoding of the first n nodes of the chain, which hold the last n calls. */
  ghost function Covered(ops: seq<Item>, n: nat): Bytes
    requires n <= |ops|
  {
    PutAll(PutItem, Reverse(ops[..n]))
  }

  lemma CoveredStep(ops: seq<Item>, n: nat)
    requires n < |ops|
    ensures Covered(ops, n + 1) == PutItem(ops[n]) + Covered(ops, n)
  {
    assert ops[..n + 1] == ops[..n] + [ops[n]];
    ReverseSnoc(ops[..n], ops[n]);
    assert ([ops[n]] + Reverse(ops[..n]))[1..] == Reverse(ops[..n]);
  }

  lemma NothingCovered(ops: seq<Item>)
    ensures Covered(ops, 0) == []
  {
  }

  lemma {:induction false} CoveredGrows(ops: seq<Item>, n: nat)
    requires n <= |ops|
    ensures |Covered(ops, n)| <= |Covered(ops, |ops|)|
    decreases |ops| - n
  {
    if n < |ops| {
      CoveredStep(ops, n);
      CoveredGrows(ops, n + 1);
    }
  }

  /** The size pass's share of one item. */
  function ItemSize(x: Item): nat {
    4 + match x
        case Set(k, v) => StringLen(|k|) + StringLen(|v|)
        case Delete(k) => StringLen(|k|)
        case Assert(k, o) => StringLen(|k|) + StringOptionLen(o, if o.None? then 0 else |o.value|)
        case AssertExists(k) => StringLen(|k|)
  }

  // ----- back-to-front stores -------------------------------------------------

  /** memcpy(&command[i], bytes, |bytes|) */
  method CopyTo(command: array<byte>, i: nat, bytes: Bytes)
    requires i + |bytes| <= command.Length
    modifies command
    ensures command[..i] == old(command[..i])
    ensures command[i..] == bytes + old(command[i + |bytes|..])
  {
    forall j | 0 <= j < |bytes| {
      command[i + j] := bytes[j];
    }
    assert command[i..i + |bytes|] == bytes;
    assert command[i + |bytes|..] == old(command[i + |bytes|..]);
    assert command[i..] == command[i..i + |bytes|] + command[i + |bytes|..];
  }

  method WriteUint32(command: array<byte>, end: nat, n: int) returns (i: nat)
    requires 4 <= end <= command.Length
    modifies command
    ensures i == end - 4
    ensures command[i..] == PutWord(n) + old(command[end..])
  {
    i := end - 4;
    CopyTo(command, i, PutWord(n));
  }

  method WriteString(command: array<byte>, end: nat, s: Bytes) returns (i: nat)
    requires 4 + |s| <= end <= command.Length
    modifies command
    ensures i == end - 4 - |s|
    ensures command[i..] == PutString(s) + old(command[end..])
  {
    i := end - |s|;
    CopyTo(command, i, s);
    i := WriteUint32(command, i, |s|);
    assert PutWord(|s|) + (s + old(command[end..])) == PutString(s) + old(command[end..]);
  }

  method WriteStringOption(command: array<byte>, end: nat, o: Option<Bytes>) returns (i: nat)
    requires |PutOption(o)| <= end <= command.Length
    modifies command
    ensures i == end - |PutOption(o)|
    ensures command[i..] == PutOption(o) + old(command[end..])
  {
    if o.None? {
      i := end - 1;
      CopyTo(command, i, PutBool(false));
    } else {
      i := WriteString(command, end, o.value);
      i := i - 1;
      CopyTo(command, i, PutBool(true));
      assert PutBool(true) + (PutString(o.value) + old(command[end..])) == PutOption(o) + old(command[end..]);
    }
  }

  method WriteArgument(command: array<byte>, end: nat, x: Item) returns (i: nat)
    requires |PutArgument(x)| <= end <= command.Length
    modifies command
    ensures i == end - |PutArgument(x)|
    ensures command[i..] == PutArgument(x) + old(command[end..])
  {
    i := end;
    match x {
      case Set(_, v) => i := WriteString(command, i, v);
      case Assert(_, o) => i := WriteStringOption(command, i, o);
      case _ =>
    }
  }

  /** One item, its parts in reverse: the argument, the key, the type. */
  method WriteItem(command: array<byte>, end: nat, x: Item) returns (i: nat)
    requires |PutItem(x)| <= end <= command.Length
    modifies command
    ensures i == end - |PutItem(x)|
    ensures command[i..] == PutItem(x) + old(command[end..])
  {
    i := WriteArgument(command, end, x);
    i := WriteString(command, i, x.key);
    var number := match x case Set(_, _) => 1 case Delete(_) => 2 case Assert(_, _) => 8 case AssertExists(_) => 15;
    i := WriteUint32(command, i, number);
    Regroup(PutWord(ItemCode(x)), PutString(x.key), PutArgument(x), old(command[end..]));
  }

  // ----- the encoder ----------------------------------------------------------

  const HEADER_LEN := 16

  /** The first pass: the exact size of the whole command. */
  method Measure(sequence: ArakoonSequence) returns (len: nat)
    requires sequence.Valid()
    ensures len == HEADER_LEN + |PutAll(PutItem, sequence.Calls())|
  {
    ghost var ops := Items(sequence.spine);
    ghost var n := 0;
    len := HEADER_LEN;
    var item := sequence.item;
    while item != null
      invariant n <= |ops| && item == At(sequence.spine, n, null)
      invariant len == HEADER_LEN + |Covered(ops, n)|
      decreases |ops| - n
    {
      len := len + ItemSize(item.item);
      CoveredStep(ops, n);
      item := item.next;
      n := n + 1;
    }
    assert ops[..n] == ops;
  }

  /** The second pass, over a buffer of the measured size. Neither of the source's two
      consistency checks can fail, and the index stays within the buffer. */
  method Fill(code: byte, sequence: ArakoonSequence, command: array<byte>)
    requires sequence.Valid()
    requires command.Length == HEADER_LEN + |PutAll(PutItem, sequence.Calls())|
    modifies command
    ensures command[..] == Command(code) + PutFields([Frame(sequence.Calls())])
  {
    hide PutItem, PutAll, Reverse, PutFields;
    ghost var ops := Items(sequence.spine);
    assert ops[..|ops|] == ops;
    NothingCovered(ops);
    ghost var n := 0;
    var i, count := command.Length, 0;
    var item := sequence.item;
    while item != null
      invariant n == count <= |ops| && item == At(sequence.spine, n, null)
      invariant HEADER_LEN <= i <= command.Length
      invariant i == command.Length - |Covered(ops, n)|
      invariant command[i..] == Covered(ops, n)
      decreases |ops| - n
    {
      count := count + 1;
      CoveredStep(ops, n);
      CoveredGrows(ops, n + 1);
      i := WriteItem(command, i, item.item);
      item := item.next;
      n := n + 1;
    }
    assert Covered(ops, n) == PutAll(PutItem, sequence.Calls());
    assert i == HEADER_LEN;  // the first consistency check
    WriteHeader(code, command, sequence.Calls(), count);
  }

  method WriteHeader(code: byte, command: array<byte>, ghost calls: seq<Item>, count: nat)
    requires command.Length >= HEADER_LEN
    requires command[HEADER_LEN..] == PutAll(PutItem, calls) && count == |calls|
    modifies command
    ensures command[..] == Command(code) + PutFields([Frame(calls)])
  {
    hide PutAll, PutFields, Command, PutWord;
    var i := WriteUint32(command, HEADER_LEN, count);
    i := WriteUint32(command, i, 5);
    assert command[i..] == PutBody(calls);
    i := WriteUint32(command, i, command.Length - 4 - 4);
    assert i == 4;  // the second consistency check
    CopyTo(command, 0, Command(code));
    assert command[0..] == command[..];
    FrameAlone(calls);
  }

  lemma FrameAlone(calls: seq<Item>)
    ensures PutFields([Frame(calls)]) == PutFrame(calls)
  {
    PutFieldsSnoc([], Frame(calls));
    assert [] + [Frame(calls)] == [Frame(calls)];
  }

  /** The bytes sent are the forward encoding of the calls in the order they were made. */
  method EncodeSequence(synced: bool, sequence: ArakoonSequence) returns (command: array<byte>)
    requires sequence.Valid()
    ensures fresh(command)
    ensures command[..] == PutRequest(SequenceRequest(synced, sequence.Calls()))
    ensures command[..] == RequestLayout(SequenceRequest(synced, sequence.Calls()))
  {
    hide PutAll, PutFields, Command, Reverse, Items, RequestLayout;
    RequestLaidOut(SequenceRequest(synced, sequence.Calls()));
    var len := Measure(sequence);
    command := new byte[len];
    Fill(if synced then 0x24 else 0x10, sequence, command);
  }

  function SequenceRequest(synced: bool, items: seq<Item>): Request {
    if synced then SyncedSequence(items) else Sequence(items)
  }

  /** Any bytes may follow the encoded calls: the word at offset 4 counts the bytes after it,
      the calls read back exactly, and what follows is left untouched. */
  lemma EncodedCallsReadBack(synced: bool, calls: seq<Item>, rest: Bytes)
    requires ItemsFit(calls)
    ensures var bytes := PutRequest(SequenceRequest(synced, calls));
            && |bytes| >= HEADER_LEN
            && GetWord(bytes[4..]) == |bytes| - 8
            && GetRequest(bytes + rest) == Got(SequenceRequest(synced, calls), rest)
  {
    hide PutBody, PutWord, PutFields, GetRequest, GetWord;
    var request := SequenceRequest(synced, calls);
    var bytes := PutRequest(request);
    FrameAlone(calls);
    assert bytes[4..] == PutWord(|PutBody(calls)|) + PutBody(calls);
    WordRoundTrip(|PutBody(calls)|, PutBody(calls));
    assert RequestFits(request) by {
      assert RequestFields(request) == [Frame(calls)];
    }
    RequestRoundTrip(request, rest);
  }

  /** Different series of calls have different encodings. */
  lemma EncodingIsInjective(synced: bool, xs: seq<Item>, ys: seq<Item>)
    requires ItemsFit(xs) && ItemsFit(ys)
    requires PutRequest(SequenceRequest(synced, xs)) == PutRequest(SequenceRequest(synced, ys))
    ensures xs == ys
  {
    EncodedCallsReadBack(synced, xs, []);
    EncodedCallsReadBack(synced, ys, []);
  }

  // ----- running a sequence ---------------------------------------------------

  /** The effect of the calls on a store, None when one of the assertions does not hold. */
  function Run(calls: seq<Item>, store: map<Bytes, Bytes>): Option<map<Bytes, Bytes>> {
    if calls == [] then Some(store)
    else
      match calls[0]
      case Set(k, v) => Run(calls[1..], store[k := v])
      case Delete(k) => Run(calls[1..], store - {k})
      case Assert(k, o) =>
        if o == (if k in store then Some(store[k]) else None) then Run(calls[1..], store) else None
      case AssertExists(k) => if k in store then Run(calls[1..], store) else None
  }

  /** One more call acts on whatever the earlier calls left. */
  lemma {:induction false} RunInOrder(calls: seq<Item>, x: Item, store: map<Bytes, Bytes>)
    ensures Run(calls + [x], store)
         == match Run(calls, store) { case None => None case Some(after) => Run([x], after) }
  {
    if calls == [] {
      assert calls + [x] == [x];
    } else {
      assert (calls + [x])[1..] == calls[1..] + [x];
      match calls[0] {
        case Set(k, v) => RunInOrder(calls[1..], x, store[k := v]);
        case Delete(k) => RunInOrder(calls[1..], x, store - {k});
        case _ => RunInOrder(calls[1..], x, store);
      }
    }
  }

  /** Running what the peer reads equals running the calls; in particular an absent expected
      value and an empty one stay different assertions. */
  lemma PeerRunsTheCalls(synced: bool, calls: seq<Item>, rest: Bytes, store: map<Bytes, Bytes>)
    requires ItemsFit(calls)
    ensures var read := GetRequest(PutRequest(SequenceRequest(synced, calls)) + rest);
            && read.Got?
            && (read.value.Sequence? || read.value.SyncedSequence?)
            && Run(read.value.items, store) == Run(calls, store)
    ensures forall k :: Run([Assert(k, None)], store).Some? ==> Run([Assert(k, Some([]))], store).None?
  {
    EncodedCallsReadBack(synced, calls, rest);
  }
}
