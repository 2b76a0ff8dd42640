/** What goes over the wire for each command and each item of a sequence, byte by byte: a
    reference that names no table, to which the encoders are tied. */
module Layouts {
  import opened Wire
  import opened WireLists
  import opened SequenceItems
  import opened Fields
  import opened Requests

  /** A word goes out least significant byte first; a negative number as its 32-bit complement. */
  lemma WordIsLittleEndian(n: int)
    requires -0x8000_0000 <= n < 0x1_0000_0000
    ensures var w, m := PutWord(n), if n < 0 then n + 0x1_0000_0000 else n;
            && |w| == 4 && GetWord(w) == m
            && var w0: int, w1: int, w2: int, w3: int := w[0], w[1], w[2], w[3];
               w0 + 0x100 * w1 + 0x1_0000 * w2 + 0x100_0000 * w3 == m
  {
    WordRoundTrip(n, []);
    assert PutWord(n) + [] == PutWord(n);
    assert WORD_LIMIT == 0x1_0000_0000;
  }

  /** The four bytes of a word are all that it stands for. */
  lemma WordOfBytes(b: Bytes)
    requires |b| == 4
    ensures PutWord(GetWord(b)) == b
  {
    var c := PutWord(GetWord(b));
    WordRoundTrip(GetWord(b), []);
    assert c + [] == c;
    SameWord(c, b);
  }

  lemma SameWord(b: Bytes, c: Bytes)
    requires |b| == |c| == 4 && GetWord(b) == GetWord(c)
    ensures b == c
  {
    var b0: int, b1: int, b2: int, b3: int := b[0], b[1], b[2], b[3];
    var c0: int, c1: int, c2: int, c3: int := c[0], c[1], c[2], c[3];
    SameDigit(b0, b1 + 0x100 * b2 + 0x1_0000 * b3, c0, c1 + 0x100 * c2 + 0x1_0000 * c3);
    SameDigit(b1, b2 + 0x100 * b3, c1, c2 + 0x100 * c3);
    SameDigit(b2, b3, c2, c3);
  }

  lemma SameDigit(low: int, high: int, low': int, high': int)
    requires 0 <= low < 0x100 && 0 <= low' < 0x100 && low + 0x100 * high == low' + 0x100 * high'
    ensures low == low' && high == high'
  {
  }

  lemma ZeroWord()
    ensures PutWord(0) == [0, 0, 0, 0]
  {
  }

  function FlagLayout(b: bool): Bytes {
    [if b then 1 else 0]
  }

  function StringLayout(s: Bytes): Bytes {
    PutWord(|s|) + s
  }

  function OptionLayout(o: Option<Bytes>): Bytes {
    if o.None? then [0] else [1] + StringLayout(o.value)
  }

  function StringLayouts(xs: seq<Bytes>): Bytes {
    if xs == [] then [] else StringLayout(xs[0]) + StringLayouts(xs[1..])
  }

  function PairLayouts(ps: seq<(Bytes, Bytes)>): Bytes {
    if ps == [] then [] else StringLayout(ps[0].0) + StringLayout(ps[0].1) + PairLayouts(ps[1..])
  }

  lemma {:induction false} StringsLaidOut(xs: seq<Bytes>)
    ensures PutStrings(xs) == StringLayouts(xs)
  {
    if xs != [] {
      StringsLaidOut(xs[1..]);
    }
  }

  lemma {:induction false} PairsLaidOut(ps: seq<(Bytes, Bytes)>)
    ensures PutAll(PutPair, ps) == PairLayouts(ps)
  {
    if ps != [] {
      PairsLaidOut(ps[1..]);
    }
  }

  // ----- sequences ------------------------------------------------------------

  /** An item: its number, its key, and what is set or asserted. */
  function ItemLayout(x: Item): Bytes {
    match x
    case Set(k, v) => PutWord(1) + StringLayout(k) + StringLayout(v)
    case Delete(k) => PutWord(2) + StringLayout(k)
    case Assert(k, o) => PutWord(8) + StringLayout(k) + OptionLayout(o)
    case AssertExists(k) => PutWord(15) + StringLayout(k)
  }

  function ItemLayouts(items: seq<Item>): Bytes {
    if items == [] then [] else ItemLayout(items[0]) + ItemLayouts(items[1..])
  }

  /** The items, the word 5, their number, and the length of all that in front. */
  function FrameLayout(items: seq<Item>): Bytes {
    PutWord(8 + |ItemLayouts(items)|) + PutWord(5) + PutWord(|items|) + ItemLayouts(items)
  }

  lemma ItemLaidOut(x: Item)
    ensures PutItem(x) == ItemLayout(x)
  {
  }

  lemma {:induction false} ItemsLaidOut(items: seq<Item>)
    ensures PutAll(PutItem, items) == ItemLayouts(items)
  {
    hide PutItem, ItemLayout;
    if items != [] {
      ItemLaidOut(items[0]);
      ItemsLaidOut(items[1..]);
    }
  }

  lemma FrameLaidOut(items: seq<Item>)
    ensures PutFrame(items) == FrameLayout(items)
  {
    hide PutAll, PutWord, ItemLayouts;
    ItemsLaidOut(items);
  }

  /** Where item i starts in a sequence command: each item starts where the one before it ends. */
  function ItemStart(items: seq<Item>, i: nat): nat
    requires i <= |items|
  {
    if i == 0 then 16 else ItemStart(items, i - 1) + |ItemLayout(items[i - 1])|
  }

  lemma {:induction false} ItemIsThere(items: seq<Item>, i: nat)
    requires i < |items|
    ensures ItemStart(items, 0) == 16
    ensures 16 <= ItemStart(items, i) <= ItemStart(items, i + 1) <= 16 + |ItemLayouts(items)|
    ensures ItemLayouts(items)[ItemStart(items, i) - 16..ItemStart(items, i + 1) - 16] == ItemLayout(items[i])
  {
    hide ItemLayout;
    if i > 0 {
      StartsShift(items, i);
      StartsShift(items, i + 1);
      ItemIsThere(items[1..], i - 1);
      var first, rest := ItemLayout(items[0]), ItemLayouts(items[1..]);
      assert ItemLayouts(items) == first + rest;
      var from, to := ItemStart(items[1..], i - 1) - 16, ItemStart(items[1..], i) - 16;
      assert (first + rest)[|first| + from..|first| + to] == rest[from..to];
    } else {
      assert ItemStart(items, 1) == ItemStart(items, 0) + |ItemLayout(items[0])|;
      assert ItemLayouts(items)[..|ItemLayout(items[0])|] == ItemLayout(items[0]);
    }
  }

  lemma {:induction false} StartsShift(items: seq<Item>, i: nat)
    requires 0 < i <= |items|
    ensures ItemStart(items, i) == ItemStart(items[1..], i - 1) + |ItemLayout(items[0])|
  {
    hide ItemLayout;
    if i > 1 {
      StartsShift(items, i - 1);
    } else {
      assert ItemStart(items, 1) == ItemStart(items, 0) + |ItemLayout(items[0])|;
    }
  }

  /** The number of an item's kind, as it goes out. */
  function KindNumber(x: Item): byte {
    match x
    case Set(_, _) => 1
    case Delete(_) => 2
    case Assert(_, _) => 8
    case AssertExists(_) => 15
  }

  /** The bytes of a sequence command up front: its code, the length of what follows, the word
      5, and the number of items. */
  lemma SequenceHeader(r: Request)
    requires (r.Sequence? || r.SyncedSequence?) && ItemsFit(r.items)
    ensures var b := PutRequest(r);
            && |b| == 16 + |ItemLayouts(r.items)|
            && b[..4] == [if r.Sequence? then 0x10 else 0x24, 0x00, 0xff, 0xb1]
            && GetWord(b[4..]) == |b| - 8 && GetWord(b[8..]) == 5 && GetWord(b[12..]) == |r.items|
            && b[16..] == ItemLayouts(r.items)
  {
    hide PutRequest, ItemLayouts, ItemsFit, PutWord, GetWord;
    RequestLaidOut(r);
    FrameFits(r.items);
    var code := if r.Sequence? then Code(0x10) else Code(0x24);
    var list := ItemLayouts(r.items);
    assert PutRequest(r) == code + (PutWord(8 + |list|) + PutWord(5) + PutWord(|r.items|) + list);
    WordsUpFront(code, 8 + |list|, |r.items|, list);
  }

  /** From offset 16 on come the items, one after the other up to the end, each with the number
      of its kind, 1, 2, 8 or 15, in front of its key. */
  lemma SequenceItem(r: Request, i: nat)
    requires (r.Sequence? || r.SyncedSequence?) && ItemsFit(r.items) && i < |r.items|
    ensures ItemStart(r.items, 0) == 16 && ItemStart(r.items, |r.items|) == |PutRequest(r)|
    ensures var b, at, end := PutRequest(r), ItemStart(r.items, i), ItemStart(r.items, i + 1);
            && 16 <= at && at + 4 <= end <= |b|
            && b[at..end] == ItemLayout(r.items[i])
            && b[at..at + 4] == [KindNumber(r.items[i]), 0, 0, 0]
  {
    hide PutRequest, ItemLayouts, ItemLayout, ItemsFit, KindNumber, GetWord;
    SequenceHeader(r);
    LastItemEnds(r.items);
    ItemIsThere(r.items, i);
    ItemNumber(r.items[i]);
    var b, at, end := PutRequest(r), ItemStart(r.items, i), ItemStart(r.items, i + 1);
    assert b[at..end] == b[16..][at - 16..end - 16];
    assert b[at..at + 4] == b[at..end][..4];
  }

  lemma ItemNumber(x: Item)
    ensures |ItemLayout(x)| >= 8
    ensures ItemLayout(x)[..4] == [KindNumber(x), 0, 0, 0]
  {
  }

  lemma {:induction false} LastItemEnds(items: seq<Item>)
    ensures ItemStart(items, |items|) == 16 + |ItemLayouts(items)|
  {
    hide ItemLayout;
    if items != [] {
      StartsShift(items, |items|);
      LastItemEnds(items[1..]);
    }
  }

  lemma FrameFits(items: seq<Item>)
    requires ItemsFit(items)
    ensures FitsWord(8 + |ItemLayouts(items)|) && FitsWord(|items|)
  {
    hide PutWord, PutAll;
    ItemsLaidOut(items);
  }

  lemma WordsUpFront(command: Bytes, length: nat, count: nat, list: Bytes)
    requires |command| == 4 && FitsWord(length) && FitsWord(count)
    ensures var b := command + (PutWord(length) + PutWord(5) + PutWord(count) + list);
            && |b| == 16 + |list|
            && GetWord(b[4..]) == length && GetWord(b[8..]) == 5 && GetWord(b[12..]) == count && b[16..] == list
  {
    hide PutWord, GetWord;
    var b := command + (PutWord(length) + PutWord(5) + PutWord(count) + list);
    assert b[12..] == PutWord(count) + list;
    assert b[8..] == PutWord(5) + (PutWord(count) + list);
    assert b[4..] == PutWord(length) + (PutWord(5) + (PutWord(count) + list));
    WordRoundTrip(length, PutWord(5) + (PutWord(count) + list));
    WordRoundTrip(5, PutWord(count) + list);
    WordRoundTrip(count, list);
  }

  // ----- commands -------------------------------------------------------------

  function Code(n: byte): Bytes {
    [n, 0x00, 0xff, 0xb1]
  }

  function SpanLayout(dirty: bool, s: Span): Bytes {
    FlagLayout(dirty) + OptionLayout(s.begin) + FlagLayout(s.beginIncluded)
    + OptionLayout(s.end) + FlagLayout(s.endIncluded) + PutWord(s.max)
  }

  function RequestLayout(r: Request): Bytes {
    match r
    case Prologue(cluster) => Code(0x00) + (PutWord(1) + StringLayout(cluster))
    case Hello(client, cluster) => Code(0x01) + (StringLayout(client) + StringLayout(cluster))
    case WhoMaster => Code(0x02)
    case Exists(dirty, key) => Code(0x07) + (FlagLayout(dirty) + StringLayout(key))
    case Get(dirty, key) => Code(0x08) + (FlagLayout(dirty) + StringLayout(key))
    case Put(key, value) => Code(0x09) + (StringLayout(key) + StringLayout(value))
    case Remove(key) => Code(0x0a) + StringLayout(key)
    case Range(dirty, span) => Code(0x0b) + SpanLayout(dirty, span)
    case Prefix(dirty, key, max) => Code(0x0c) + (FlagLayout(dirty) + StringLayout(key) + PutWord(max))
    case TestAndSet(key, o, n) => Code(0x0d) + (StringLayout(key) + OptionLayout(o) + OptionLayout(n))
    case RangeEntries(dirty, span) => Code(0x0f) + SpanLayout(dirty, span)
    case Sequence(items) => Code(0x10) + FrameLayout(items)
    case MultiGet(dirty, keys) => Code(0x11) + (FlagLayout(dirty) + PutWord(|keys|) + StringLayouts(keys))
    case ExpectProgress => Code(0x12)
    case UserFunction(name, arg) => Code(0x15) + (StringLayout(name) + OptionLayout(arg))
    case AssertValue(dirty, key, o) => Code(0x16) + (FlagLayout(dirty) + StringLayout(key) + OptionLayout(o))
    case Routing => Code(0x20)
    case RevRangeEntries(dirty, span) => Code(0x23) + SpanLayout(dirty, span)
    case SyncedSequence(items) => Code(0x24) + FrameLayout(items)
    case DeletePrefix(prefix) => Code(0x27) + StringLayout(prefix)
    case Version => Code(0x28)
    case AssertKey(dirty, key) => Code(0x29) + (FlagLayout(dirty) + StringLayout(key))
  }

  function FieldLayout(f: Field): Bytes {
    match f
    case Flag(b) => FlagLayout(b)
    case Int32(i) => PutWord(i)
    case Uint32(n) => PutWord(n)
    case Text(s) => StringLayout(s)
    case OptText(o) => OptionLayout(o)
    case Texts(xs) => PutWord(|xs|) + StringLayouts(xs)
    case Pairs(ps) => PutWord(|ps|) + PairLayouts(ps)
    case Frame(items) => FrameLayout(items)
  }

  lemma FieldLaidOut(f: Field)
    ensures PutField(f) == FieldLayout(f)
  {
    hide PutAll, PutWord;
    match f {
      case Texts(xs) => StringsLaidOut(xs);
      case Pairs(ps) => PairsLaidOut(ps);
      case Frame(items) => FrameLaidOut(items);
      case _ =>
    }
  }

  function FieldLayouts(fs: seq<Field>): Bytes {
    if fs == [] then [] else FieldLayouts(fs[..|fs| - 1]) + FieldLayout(fs[|fs| - 1])
  }

  lemma {:induction false} FieldsLaidOut(fs: seq<Field>)
    ensures PutFields(fs) == FieldLayouts(fs)
  {
    hide PutField, FieldLayout;
    if fs != [] {
      var n := |fs| - 1;
      FieldsLaidOut(fs[..n]);
      FieldLaidOut(fs[n]);
      PutFieldsSnoc(fs[..n], fs[n]);
      assert fs == fs[..n] + [fs[n]];
    }
  }

  lemma OneLaidOut(a: Field)
    ensures FieldLayouts([a]) == FieldLayout(a)
  {
    assert [a][..0] == [];
  }

  lemma TwoLaidOut(a: Field, b: Field)
    ensures FieldLayouts([a, b]) == FieldLayout(a) + FieldLayout(b)
  {
    assert [a, b][..1] == [a];
    OneLaidOut(a);
  }

  lemma ThreeLaidOut(a: Field, b: Field, c: Field)
    ensures FieldLayouts([a, b, c]) == FieldLayout(a) + FieldLayout(b) + FieldLayout(c)
  {
    assert [a, b, c][..2] == [a, b];
    TwoLaidOut(a, b);
  }

  lemma LaidOutSnoc(fs: seq<Field>, f: Field)
    ensures FieldLayouts(fs + [f]) == FieldLayouts(fs) + FieldLayout(f)
  {
    assert (fs + [f])[..|fs|] == fs;
  }

  lemma SpanLaidOut(dirty: bool, s: Span)
    ensures FieldLayouts(SpanFields(dirty, s)) == SpanLayout(dirty, s)
  {
    hide FlagLayout, OptionLayout, FieldLayouts, PutWord;
    var fs := [Flag(dirty), OptText(s.begin), Flag(s.beginIncluded)];
    ThreeLaidOut(fs[0], fs[1], fs[2]);
    LaidOutSnoc(fs, OptText(s.end));
    LaidOutSnoc(fs + [OptText(s.end)], Flag(s.endIncluded));
    LaidOutSnoc(fs + [OptText(s.end)] + [Flag(s.endIncluded)], Int32(s.max));
    assert SpanFields(dirty, s) == fs + [OptText(s.end)] + [Flag(s.endIncluded)] + [Int32(s.max)];
  }

  /** Every command goes out as the reference has it. */
  lemma RequestLaidOut(r: Request)
    ensures PutRequest(r) == RequestLayout(r)
  {
    hide FieldLayouts, PutFields, RequestFields, Opcode, RequestLayout;
    FieldsLaidOut(RequestFields(r));
    CodeIs(r);
    FieldsOfRequest(r);
  }

  lemma CodeIs(r: Request)
    ensures Command(Opcode(r)) == Code(Opcode(r))
  {
    hide Opcode;
  }

  lemma FieldsOfRequest(r: Request)
    ensures Code(Opcode(r)) + FieldLayouts(RequestFields(r)) == RequestLayout(r)
  {
    hide FlagLayout, StringLayout, OptionLayout, FrameLayout, SpanLayout, SpanFields, PutWord, StringLayouts,
      FieldLayouts, Code;
    NoneLaidOut();
    assert forall n: byte :: Code(n) + [] == Code(n);
    match r {
      case Range(dirty, span) => SpanLaidOut(dirty, span);
      case RangeEntries(dirty, span) => SpanLaidOut(dirty, span);
      case RevRangeEntries(dirty, span) => SpanLaidOut(dirty, span);
      case Sequence(items) => OneLaidOut(Frame(items));
      case SyncedSequence(items) => OneLaidOut(Frame(items));
      case Prefix(dirty, key, max) => ThreeLaidOut(Flag(dirty), Text(key), Int32(max));
      case TestAndSet(key, o, n) => ThreeLaidOut(Text(key), OptText(o), OptText(n));
      case AssertValue(dirty, key, o) => ThreeLaidOut(Flag(dirty), Text(key), OptText(o));
      case Remove(key) => OneLaidOut(Text(key));
      case DeletePrefix(prefix) => OneLaidOut(Text(prefix));
      case _ => TwoFieldsOfRequest(r);
    }
  }

  lemma TwoFieldsOfRequest(r: Request)
    requires || r.Prologue? || r.Hello? || r.WhoMaster? || r.Exists? || r.Get? || r.Put? || r.MultiGet? || r.ExpectProgress?
             || r.UserFunction? || r.Routing? || r.Version? || r.AssertKey?
    ensures Code(Opcode(r)) + FieldLayouts(RequestFields(r)) == RequestLayout(r)
  {
    hide FlagLayout, StringLayout, OptionLayout, FrameLayout, SpanLayout, SpanFields, PutWord, StringLayouts,
      FieldLayouts, Code;
    NoneLaidOut();
    match r {
      case Prologue(cluster) => TwoLaidOut(Int32(1), Text(cluster));
      case Hello(client, cluster) => TwoLaidOut(Text(client), Text(cluster));
      case Exists(dirty, key) => TwoLaidOut(Flag(dirty), Text(key));
      case Get(dirty, key) => TwoLaidOut(Flag(dirty), Text(key));
      case Put(key, value) => TwoLaidOut(Text(key), Text(value));
      case MultiGet(dirty, keys) =>
        TwoLaidOut(Flag(dirty), Texts(keys));
        Regroup3(FlagLayout(dirty), PutWord(|keys|), StringLayouts(keys));
      case UserFunction(name, arg) => TwoLaidOut(Text(name), OptText(arg));
      case AssertKey(dirty, key) => TwoLaidOut(Flag(dirty), Text(key));
      case _ =>
    }
  }

  lemma Regroup3(a: Bytes, b: Bytes, c: Bytes)
    ensures a + (b + c) == a + b + c
  {
  }

  lemma NoneLaidOut()
    ensures FieldLayouts([]) == []
    ensures forall n: byte :: Code(n) + [] == Code(n)
  {
  }

  // ----- what was read --------------------------------------------------------

  /** These bytes, and no more, are what a field was read from. Any byte but zero is true. */
  predicate Spells(got: Bytes, f: Field) {
    match f
    case Flag(b) => |got| == 1 && (got[0] != 0 <==> b)
    case Int32(i) => FitsSigned(i) && got == PutWord(i)
    case Uint32(n) => FitsWord(n) && got == PutWord(n)
    case Text(s) => got == StringLayout(s)
    case OptText(o) => SpellsOption(got, o)
    case Texts(xs) => got == PutWord(|xs|) + StringLayouts(xs)
    case Pairs(ps) => got == PutWord(|ps|) + PairLayouts(ps)
    case Frame(items) => true
  }

  predicate SpellsOption(got: Bytes, o: Option<Bytes>) {
    if o.None? then got == [0] else |got| >= 1 && got[0] != 0 && got[1..] == StringLayout(o.value)
  }

  lemma WordSpelled(s: Bytes, w: int, rest: Bytes)
    requires GetUint(s) == Got(w, rest)
    ensures FitsWord(w) && s == PutWord(w) + rest
    ensures PutWord(Signed(w)) == PutWord(w) && FitsSigned(Signed(w))
  {
    assert s == s[..4] + s[4..];
    assert GetWord(s) == GetWord(s[..4]);
    WordOfBytes(s[..4]);
    assert Signed(w) % WORD_LIMIT == w % WORD_LIMIT;
  }

  lemma StringSpelled(s: Bytes, v: Bytes, rest: Bytes)
    requires GetString(s) == Got(v, rest)
    ensures s == StringLayout(v) + rest
  {
    var l := GetWord(s);
    WordSpelled(s, l, s[4..]);
    assert s[4..] == s[4..4 + l] + s[4 + l..];
    assert s == PutWord(l) + (v + rest);
  }

  lemma OptionSpelled(s: Bytes, o: Option<Bytes>, rest: Bytes)
    requires GetOption(s) == Got(o, rest)
    ensures var got := if o.None? then [0] else [s[0]] + StringLayout(o.value);
            s == got + rest && SpellsOption(got, o)
  {
    assert s == [s[0]] + s[1..];
    if s[0] != 0 {
      StringSpelled(s[1..], o.value, rest);
    }
  }

  lemma {:induction false} StringsSpelled(n: nat, s: Bytes, xs: seq<Bytes>, rest: Bytes)
    requires GetAll(GetString, n, s) == Got(xs, rest)
    ensures |xs| == n && s == StringLayouts(xs) + rest
  {
    hide GetString, StringLayout;
    if n != 0 {
      var first := GetString(s);
      StringSpelled(s, first.value, first.rest);
      StringsSpelled(n - 1, first.rest, xs[1..], rest);
      assert s == StringLayout(xs[0]) + (StringLayouts(xs[1..]) + rest);
    }
  }

  lemma {:induction false} PairsSpelled(n: nat, s: Bytes, ps: seq<(Bytes, Bytes)>, rest: Bytes)
    requires GetAll(GetPair, n, s) == Got(ps, rest)
    ensures |ps| == n && s == PairLayouts(ps) + rest
  {
    hide GetString, StringLayout;
    if n != 0 {
      var first := GetPair(s);
      StringSpelled(s, first.value.0, GetString(s).rest);
      StringSpelled(GetString(s).rest, first.value.1, first.rest);
      PairsSpelled(n - 1, first.rest, ps[1..], rest);
      assert s == StringLayout(ps[0].0) + (StringLayout(ps[0].1) + (PairLayouts(ps[1..]) + rest));
      assert StringLayout(ps[0].0) + (StringLayout(ps[0].1) + (PairLayouts(ps[1..]) + rest)) == PairLayouts(ps) + rest;
    }
  }

  /** A field that was read was spelled by the bytes that were consumed. */
  lemma FieldSpelled(t: FieldType, s: Bytes, f: Field, rest: Bytes) returns (got: Bytes)
    requires GetField(t, s) == Got(f, rest)
    ensures s == got + rest && Spells(got, f)
  {
    hide GetUint, GetString, GetOption, StringLayout, StringLayouts, PairLayouts, SpellsOption, PutWord, GetFrame, Signed;
    match f {
      case Flag(b) =>
        got := [s[0]];
        assert s == got + s[1..];
      case Int32(i) =>
        got := PutWord(i);
        WordSpelled(s, GetUint(s).value, rest);
      case Uint32(n) =>
        got := PutWord(n);
        WordSpelled(s, n, rest);
      case Text(v) =>
        got := StringLayout(v);
        StringSpelled(s, v, rest);
      case OptText(o) =>
        got := if o.None? then [0] else [s[0]] + StringLayout(o.value);
        OptionSpelled(s, o, rest);
      case Texts(xs) =>
        got := PutWord(|xs|) + StringLayouts(xs);
        WordSpelled(s, GetUint(s).value, GetUint(s).rest);
        StringsSpelled(GetUint(s).value, GetUint(s).rest, xs, rest);
        assert s == PutWord(|xs|) + (StringLayouts(xs) + rest);
      case Pairs(ps) =>
        got := PutWord(|ps|) + PairLayouts(ps);
        WordSpelled(s, GetUint(s).value, GetUint(s).rest);
        PairsSpelled(GetUint(s).value, GetUint(s).rest, ps, rest);
        assert s == PutWord(|ps|) + (PairLayouts(ps) + rest);
      case Frame(items) =>
        got := s[..|s| - |rest|];
        FrameConsumed(s, items, rest);
    }
  }

  lemma FrameConsumed(s: Bytes, items: seq<Item>, rest: Bytes)
    requires GetFrame(s) == Got(items, rest)
    ensures |rest| <= |s| && s == s[..|s| - |rest|] + rest
  {
    StringSpelled(s, GetString(s).value, rest);
  }
}
