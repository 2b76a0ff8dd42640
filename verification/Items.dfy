/** The items of a sequence (an atomic batch of updates) and their wire form. */
module SequenceItems {
  import opened Wire
  import opened WireLists

  datatype Item =
    | Set(key: Bytes, value: Bytes)
    | Delete(key: Bytes)
    | Assert(key: Bytes, expected: Option<Bytes>)
    | AssertExists(key: Bytes)

  function ItemCode(x: Item): int {
    match x
    case Set(_, _) => 1
    case Delete(_) => 2
    case Assert(_, _) => 8
    case AssertExists(_) => 15
  }

  predicate ItemFits(x: Item) {
    && StringFits(x.key)
    && (x.Set? ==> StringFits(x.value))
    && (x.Assert? ==> OptionFits(x.expected))
  }

  /** What follows the key: nothing, a string or an optional string. */
  function PutArgument(x: Item): Bytes {
    match x
    case Set(_, v) => PutString(v)
    case Assert(_, o) => PutOption(o)
    case _ => []
  }

  function PutItem(x: Item): Bytes {
    PutWord(ItemCode(x)) + (PutString(x.key) + PutArgument(x))
  }

  function GetArgument(code: int, key: Bytes, s: Bytes): Parsed<Item> {
    if code == 1 then
      match GetString(s)
      case NoParse => NoParse
      case Got(v, rest) => Got(Set(key, v), rest)
    else if code == 2 then Got(Delete(key), s)
    else if code == 8 then
      match GetOption(s)
      case NoParse => NoParse
      case Got(o, rest) => Got(Assert(key, o), rest)
    else if code == 15 then Got(AssertExists(key), s)
    else NoParse
  }

  function GetItem(s: Bytes): Parsed<Item> {
    match GetUint(s)
    case NoParse => NoParse
    case Got(code, rest) =>
      match GetString(rest)
      case NoParse => NoParse
      case Got(key, args) => GetArgument(code, key, args)
  }

  lemma ItemRoundTrip(x: Item, rest: Bytes)
    requires ItemFits(x)
    ensures GetItem(PutItem(x) + rest) == Got(x, rest)
  {
    var args := PutArgument(x) + rest;
    assert PutItem(x) + rest == PutWord(ItemCode(x)) + (PutString(x.key) + args);
    UintRoundTrip(ItemCode(x), PutString(x.key) + args);
    StringRoundTrip(x.key, args);
    match x {
      case Set(_, v) => StringRoundTrip(v, rest);
      case Assert(_, o) => OptionRoundTrip(o, rest);
      case _ => assert args == rest;
    }
  }

  lemma ItemExtends(s: Bytes, more: Bytes)
    requires GetItem(s).Got?
    ensures GetItem(s + more) == Got(GetItem(s).value, GetItem(s).rest + more)
  {
    WordExtends(s, more);
    var code, rest := GetWord(s), s[4..];
    StringExtends(rest, more);
    var args := GetString(rest).rest;
    if code == 1 {
      StringExtends(args, more);
    } else if code == 8 {
      OptionExtends(args, more);
    }
  }

  lemma ItemLaws()
    ensures ReadsBack(PutItem, GetItem, ItemFits)
    ensures Extends(GetItem)
  {
    forall x, rest | ItemFits(x) ensures GetItem(PutItem(x) + rest) == Got(x, rest) {
      ItemRoundTrip(x, rest);
    }
    forall s, more | GetItem(s).Got?
      ensures GetItem(s + more) == Got(GetItem(s).value, GetItem(s).rest + more)
    {
      ItemExtends(s, more);
    }
  }

  // ----- the frame around the items -------------------------------------------

  /** The code of the outer sequence command, which wraps the items. */
  const SEQUENCE_CODE := 5

  function PutBody(items: seq<Item>): (b: Bytes)
    ensures |b| >= 8
  {
    PutWord(SEQUENCE_CODE) + (PutWord(|items|) + PutAll(PutItem, items))
  }

  function GetBody(body: Bytes): Parsed<seq<Item>> {
    if |body| < 8 || GetWord(body) != SEQUENCE_CODE then NoParse
    else GetAll(GetItem, GetWord(body[4..]), body[8..])
  }

  /** A frame is its body preceded by the body's length. */
  function PutFrame(items: seq<Item>): Bytes {
    PutString(PutBody(items))
  }

  function GetFrame(s: Bytes): (p: Parsed<seq<Item>>)
    ensures p.Got? ==> |p.rest| < |s|
  {
    match GetString(s)
    case NoParse => NoParse
    case Got(body, rest) =>
      match GetBody(body)
      case NoParse => NoParse
      case Got(items, left) => if left == [] then Got(items, rest) else NoParse
  }

  predicate ItemsFit(items: seq<Item>) {
    && (forall x :: x in items ==> ItemFits(x))
    && FitsWord(|items|)
    && FitsWord(|PutBody(items)|)
  }

  lemma BodyHeader(count: nat, list: Bytes)
    requires FitsWord(count)
    ensures var body := PutWord(SEQUENCE_CODE) + (PutWord(count) + list);
            && GetWord(body) == SEQUENCE_CODE
            && GetWord(body[4..]) == count
            && body[8..] == list
  {
    var inner := PutWord(count) + list;
    var body := PutWord(SEQUENCE_CODE) + inner;
    WordRoundTrip(SEQUENCE_CODE, inner);
    WordRoundTrip(count, list);
    assert body[4..] == inner;
    assert body[8..] == inner[4..];
  }

  lemma BodyRoundTrip(items: seq<Item>)
    requires ItemsFit(items)
    ensures GetBody(PutBody(items)) == Got(items, [])
  {
    var list := PutAll(PutItem, items);
    BodyHeader(|items|, list);
    assert GetAll(GetItem, |items|, list) == Got(items, []) by {
      ItemLaws();
      AllReadBack(PutItem, GetItem, ItemFits, items, []);
      assert list + [] == list;
    }
  }

  /** A frame tells its own end: read from a longer input it gives back its items and
      leaves exactly what followed it. */
  lemma FrameRoundTrip(items: seq<Item>, rest: Bytes)
    requires ItemsFit(items)
    ensures GetFrame(PutFrame(items) + rest) == Got(items, rest)
  {
    StringRoundTrip(PutBody(items), rest);
    BodyRoundTrip(items);
  }

  lemma FrameExtends(s: Bytes, more: Bytes)
    requires GetFrame(s).Got?
    ensures GetFrame(s + more) == Got(GetFrame(s).value, GetFrame(s).rest + more)
  {
    StringExtends(s, more);
  }
}
