/** The fields commands and replies are made of, and one codec for runs of them. */
module Fields {
  import opened Wire
  import opened WireLists
  import opened SequenceItems

  datatype Field =
    | Flag(flag: bool)
    | Int32(i: int)
    | Uint32(n: int)
    | Text(text: Bytes)
    | OptText(option: Option<Bytes>)
    | Texts(texts: seq<Bytes>)
    | Pairs(pairs: seq<(Bytes, Bytes)>)
    | Frame(items: seq<Item>)

  datatype FieldType = TFlag | TInt32 | TUint32 | TText | TOptText | TTexts | TPairs | TFrame

  function TypeOf(f: Field): FieldType {
    match f
    case Flag(_) => TFlag
    case Int32(_) => TInt32
    case Uint32(_) => TUint32
    case Text(_) => TText
    case OptText(_) => TOptText
    case Texts(_) => TTexts
    case Pairs(_) => TPairs
    case Frame(_) => TFrame
  }

  function TypesOf(fs: seq<Field>): (ts: seq<FieldType>)
    ensures |ts| == |fs|
    ensures forall i :: 0 <= i < |fs| ==> ts[i] == TypeOf(fs[i])
  {
    seq(|fs|, i requires 0 <= i < |fs| => TypeOf(fs[i]))
  }

  predicate FieldFits(f: Field) {
    match f
    case Flag(_) => true
    case Int32(i) => FitsSigned(i)
    case Uint32(n) => FitsWord(n)
    case Text(s) => StringFits(s)
    case OptText(o) => OptionFits(o)
    case Texts(xs) => FitsWord(|xs|) && forall x :: x in xs ==> StringFits(x)
    case Pairs(ps) => FitsWord(|ps|) && forall p :: p in ps ==> PairFits(p)
    case Frame(items) => ItemsFit(items)
  }

  predicate FieldsFit(fs: seq<Field>) {
    forall f :: f in fs ==> FieldFits(f)
  }

  function PutField(f: Field): Bytes {
    match f
    case Flag(b) => PutBool(b)
    case Int32(i) => PutWord(i)
    case Uint32(n) => PutWord(n)
    case Text(s) => PutString(s)
    case OptText(o) => PutOption(o)
    case Texts(xs) => PutWord(|xs|) + PutStrings(xs)
    case Pairs(ps) => PutWord(|ps|) + PutAll(PutPair, ps)
    case Frame(items) => PutFrame(items)
  }

  function GetInt(s: Bytes): Parsed<int> {
    match GetUint(s)
    case NoParse => NoParse
    case Got(w, rest) => Got(Signed(w), rest)
  }

  function GetTexts(s: Bytes): Parsed<seq<Bytes>> {
    match GetUint(s)
    case NoParse => NoParse
    case Got(n, rest) => GetAll(GetString, n, rest)
  }

  function GetPairs(s: Bytes): Parsed<seq<(Bytes, Bytes)>> {
    match GetUint(s)
    case NoParse => NoParse
    case Got(n, rest) => GetAll(GetPair, n, rest)
  }

  function GetField(t: FieldType, s: Bytes): Parsed<Field> {
    match t
    case TFlag => (match GetBool(s) case NoParse => NoParse case Got(b, rest) => Got(Flag(b), rest))
    case TInt32 => (match GetInt(s) case NoParse => NoParse case Got(i, rest) => Got(Int32(i), rest))
    case TUint32 => (match GetUint(s) case NoParse => NoParse case Got(w, rest) => Got(Uint32(w), rest))
    case TText => (match GetString(s) case NoParse => NoParse case Got(v, rest) => Got(Text(v), rest))
    case TOptText => (match GetOption(s) case NoParse => NoParse case Got(o, rest) => Got(OptText(o), rest))
    case TTexts => (match GetTexts(s) case NoParse => NoParse case Got(xs, rest) => Got(Texts(xs), rest))
    case TPairs => (match GetPairs(s) case NoParse => NoParse case Got(ps, rest) => Got(Pairs(ps), rest))
    case TFrame => (match GetFrame(s) case NoParse => NoParse case Got(xs, rest) => Got(Frame(xs), rest))
  }

  function PutFields(fs: seq<Field>): Bytes {
    PutAll(PutField, fs)
  }

  function GetFields(ts: seq<FieldType>, s: Bytes): (p: Parsed<seq<Field>>)
    ensures p.Got? ==> |p.value| == |ts| && forall i :: 0 <= i < |ts| ==> TypeOf(p.value[i]) == ts[i]
    decreases |ts|
  {
    if ts == [] then Got([], s)
    else
      match GetField(ts[0], s)
      case NoParse => NoParse
      case Got(f, rest) =>
        match GetFields(ts[1..], rest)
        case NoParse => NoParse
        case Got(fs, end) => Got([f] + fs, end)
  }

  lemma IntRoundTrip(i: int, rest: Bytes)
    requires FitsSigned(i)
    ensures GetInt(PutWord(i) + rest) == Got(i, rest)
  {
    WordRoundTrip(i, rest);
    SignedRoundTrip(i);
  }

  // ----- one field ------------------------------------------------------------

  lemma TextsRoundTrip(xs: seq<Bytes>, rest: Bytes)
    requires FieldFits(Texts(xs))
    ensures GetField(TTexts, PutField(Texts(xs)) + rest) == Got(Texts(xs), rest)
  {
    var list := PutStrings(xs);
    assert PutField(Texts(xs)) + rest == PutWord(|xs|) + (list + rest);
    UintRoundTrip(|xs|, list + rest);
    assert GetAll(GetString, |xs|, list + rest) == Got(xs, rest) by {
      StringLaws();
      AllReadBack(PutString, GetString, StringFits, xs, rest);
    }
  }

  lemma PairsRoundTrip(ps: seq<(Bytes, Bytes)>, rest: Bytes)
    requires FieldFits(Pairs(ps))
    ensures GetField(TPairs, PutField(Pairs(ps)) + rest) == Got(Pairs(ps), rest)
  {
    var list := PutAll(PutPair, ps);
    assert PutField(Pairs(ps)) + rest == PutWord(|ps|) + (list + rest);
    UintRoundTrip(|ps|, list + rest);
    assert GetAll(GetPair, |ps|, list + rest) == Got(ps, rest) by {
      PairLaws();
      AllReadBack(PutPair, GetPair, PairFits, ps, rest);
    }
  }

  lemma FrameFieldRoundTrip(items: seq<Item>, rest: Bytes)
    requires ItemsFit(items)
    ensures GetField(TFrame, PutField(Frame(items)) + rest) == Got(Frame(items), rest)
  {
    hide GetFrame, PutFrame, ItemsFit;
    FrameRoundTrip(items, rest);
  }

  predicate IsScalar(f: Field) {
    f.Flag? || f.Int32? || f.Uint32? || f.Text? || f.OptText?
  }

  lemma ScalarRoundTrip(f: Field, rest: Bytes)
    requires IsScalar(f) && FieldFits(f)
    ensures GetField(TypeOf(f), PutField(f) + rest) == Got(f, rest)
  {
    hide GetBool, GetInt, GetUint, GetString, GetOption, PutBool, PutWord, PutString, PutOption;
    match f {
      case Flag(b) => BoolRoundTrip(b, rest);
      case Int32(i) => IntRoundTrip(i, rest);
      case Uint32(n) => UintRoundTrip(n, rest);
      case Text(s) => StringRoundTrip(s, rest);
      case OptText(o) => OptionRoundTrip(o, rest);
    }
  }

  lemma FieldRoundTrip(f: Field, rest: Bytes)
    requires FieldFits(f)
    ensures GetField(TypeOf(f), PutField(f) + rest) == Got(f, rest)
  {
    hide GetField, PutField;
    match f {
      case Texts(xs) => TextsRoundTrip(xs, rest);
      case Pairs(ps) => PairsRoundTrip(ps, rest);
      case Frame(items) => FrameFieldRoundTrip(items, rest);
      case _ => ScalarRoundTrip(f, rest);
    }
  }

  lemma StringsExtend(n: nat, s: Bytes, more: Bytes)
    requires GetAll(GetString, n, s).Got?
    ensures GetAll(GetString, n, s + more) == Got(GetAll(GetString, n, s).value, GetAll(GetString, n, s).rest + more)
  {
    StringLaws();
    AllExtend(GetString, n, s, more);
  }

  lemma PairsExtend(n: nat, s: Bytes, more: Bytes)
    requires GetAll(GetPair, n, s).Got?
    ensures GetAll(GetPair, n, s + more) == Got(GetAll(GetPair, n, s).value, GetAll(GetPair, n, s).rest + more)
  {
    PairLaws();
    AllExtend(GetPair, n, s, more);
  }

  lemma FieldExtends(t: FieldType, s: Bytes, more: Bytes)
    requires GetField(t, s).Got?
    ensures GetField(t, s + more) == Got(GetField(t, s).value, GetField(t, s).rest + more)
  {
    if |s| >= 4 {
      WordExtends(s, more);
    }
    match t {
      case TFlag => assert (s + more)[1..] == s[1..] + more;
      case TInt32 =>
      case TUint32 =>
      case TText => StringExtends(s, more);
      case TOptText => OptionExtends(s, more);
      case TTexts => StringsExtend(GetWord(s), s[4..], more);
      case TPairs => PairsExtend(GetWord(s), s[4..], more);
      case TFrame => FrameExtends(s, more);
    }
  }

  // ----- runs of fields -------------------------------------------------------

  lemma {:induction false} FieldsRoundTrip(fs: seq<Field>, rest: Bytes)
    requires FieldsFit(fs)
    ensures GetFields(TypesOf(fs), PutFields(fs) + rest) == Got(fs, rest)
  {
    hide GetField, PutField, FieldFits;
    if fs == [] {
      assert PutFields(fs) + rest == rest;
    } else {
      var tail := PutFields(fs[1..]) + rest;
      assert PutFields(fs) + rest == PutField(fs[0]) + tail;
      FieldRoundTrip(fs[0], tail);
      FieldsRoundTrip(fs[1..], rest);
      assert TypesOf(fs)[1..] == TypesOf(fs[1..]);
      assert [fs[0]] + fs[1..] == fs;
    }
  }

  lemma {:induction false} FieldsExtend(ts: seq<FieldType>, s: Bytes, more: Bytes)
    requires GetFields(ts, s).Got?
    ensures GetFields(ts, s + more) == Got(GetFields(ts, s).value, GetFields(ts, s).rest + more)
    decreases |ts|
  {
    hide GetField;
    if ts != [] {
      FieldExtends(ts[0], s, more);
      FieldsExtend(ts[1..], GetField(ts[0], s).rest, more);
    }
  }

  lemma PutFieldsSnoc(fs: seq<Field>, f: Field)
    ensures PutFields(fs + [f]) == PutFields(fs) + PutField(f)
  {
    PutAllSplits(PutField, fs, [f]);
    assert PutFields([f]) == PutField(f) + [];
  }
}
