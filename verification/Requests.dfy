/** The commands of the client protocol and the replies to them, as messages and as bytes. */
module Requests {
  import opened Wire
  import opened WireLists
  import opened SequenceItems
  import opened Fields

  /** A key range as the range calls take it: either end may be absent (a NULL pointer). */
  datatype Span = Span(begin: Option<Bytes>, beginIncluded: bool, end: Option<Bytes>, endIncluded: bool, max: int)

  datatype Request =
    | Prologue(cluster: Bytes)
    | Hello(client: Bytes, cluster: Bytes)
    | WhoMaster
    | Exists(dirty: bool, key: Bytes)
    | Get(dirty: bool, key: Bytes)
    | Put(key: Bytes, value: Bytes)
    | Remove(key: Bytes)
    | Range(dirty: bool, span: Span)
    | Prefix(dirty: bool, key: Bytes, max: int)
    | TestAndSet(key: Bytes, old_: Option<Bytes>, new_: Option<Bytes>)
    | RangeEntries(dirty: bool, span: Span)
    | Sequence(items: seq<Item>)
    | MultiGet(dirty: bool, keys: seq<Bytes>)
    | ExpectProgress
    | UserFunction(name: Bytes, arg: Option<Bytes>)
    | AssertValue(dirty: bool, key: Bytes, expected: Option<Bytes>)
    | Routing
    | RevRangeEntries(dirty: bool, span: Span)
    | SyncedSequence(items: seq<Item>)
    | DeletePrefix(prefix: Bytes)
    | Version
    | AssertKey(dirty: bool, key: Bytes)

  const PROTOCOL_VERSION := 1
  const MAGIC: Bytes := [0x00, 0xff, 0xb1]

  function Opcode(r: Request): byte {
    match r
    case Prologue(_) => 0x00
    case Hello(_, _) => 0x01
    case WhoMaster => 0x02
    case Exists(_, _) => 0x07
    case Get(_, _) => 0x08
    case Put(_, _) => 0x09
    case Remove(_) => 0x0a
    case Range(_, _) => 0x0b
    case Prefix(_, _, _) => 0x0c
    case TestAndSet(_, _, _) => 0x0d
    case RangeEntries(_, _) => 0x0f
    case Sequence(_) => 0x10
    case MultiGet(_, _) => 0x11
    case ExpectProgress => 0x12
    case UserFunction(_, _) => 0x15
    case AssertValue(_, _, _) => 0x16
    case Routing => 0x20
    case RevRangeEntries(_, _) => 0x23
    case SyncedSequence(_) => 0x24
    case DeletePrefix(_) => 0x27
    case Version => 0x28
    case AssertKey(_, _) => 0x29
  }

  function SpanFields(dirty: bool, s: Span): seq<Field> {
    [Flag(dirty), OptText(s.begin), Flag(s.beginIncluded), OptText(s.end), Flag(s.endIncluded), Int32(s.max)]
  }

  function RequestFields(r: Request): seq<Field> {
    match r
    case Prologue(cluster) => [Int32(PROTOCOL_VERSION), Text(cluster)]
    case Hello(client, cluster) => [Text(client), Text(cluster)]
    case WhoMaster => []
    case Exists(dirty, key) => [Flag(dirty), Text(key)]
    case Get(dirty, key) => [Flag(dirty), Text(key)]
    case Put(key, value) => [Text(key), Text(value)]
    case Remove(key) => [Text(key)]
    case Range(dirty, span) => SpanFields(dirty, span)
    case Prefix(dirty, key, max) => [Flag(dirty), Text(key), Int32(max)]
    case TestAndSet(key, o, n) => [Text(key), OptText(o), OptText(n)]
    case RangeEntries(dirty, span) => SpanFields(dirty, span)
    case Sequence(items) => [Frame(items)]
    case MultiGet(dirty, keys) => [Flag(dirty), Texts(keys)]
    case ExpectProgress => []
    case UserFunction(name, arg) => [Text(name), OptText(arg)]
    case AssertValue(dirty, key, o) => [Flag(dirty), Text(key), OptText(o)]
    case Routing => []
    case RevRangeEntries(dirty, span) => SpanFields(dirty, span)
    case SyncedSequence(items) => [Frame(items)]
    case DeletePrefix(prefix) => [Text(prefix)]
    case Version => []
    case AssertKey(dirty, key) => [Flag(dirty), Text(key)]
  }

  const SPAN_TYPES := [TFlag, TOptText, TFlag, TOptText, TFlag, TInt32]

  /** What the peer expects after each command code; None for a code it does not know. */
  function Schema(op: byte): Option<seq<FieldType>> {
    match op
    case 0x00 => Some([TInt32, TText])
    case 0x01 => Some([TText, TText])
    case 0x02 => Some([])
    case 0x07 => Some([TFlag, TText])
    case 0x08 => Some([TFlag, TText])
    case 0x09 => Some([TText, TText])
    case 0x0a => Some([TText])
    case 0x0b => Some(SPAN_TYPES)
    case 0x0c => Some([TFlag, TText, TInt32])
    case 0x0d => Some([TText, TOptText, TOptText])
    case 0x0f => Some(SPAN_TYPES)
    case 0x10 => Some([TFrame])
    case 0x11 => Some([TFlag, TTexts])
    case 0x12 => Some([])
    case 0x15 => Some([TText, TOptText])
    case 0x16 => Some([TFlag, TText, TOptText])
    case 0x20 => Some([])
    case 0x23 => Some(SPAN_TYPES)
    case 0x24 => Some([TFrame])
    case 0x27 => Some([TText])
    case 0x28 => Some([])
    case 0x29 => Some([TFlag, TText])
    case _ => None
  }

  predicate Matches(fs: seq<Field>, ts: seq<FieldType>) {
    |fs| == |ts| && forall i :: 0 <= i < |fs| ==> TypeOf(fs[i]) == ts[i]
  }

  function SpanOf(fs: seq<Field>): Span
    requires Matches(fs, SPAN_TYPES)
  {
    Span(fs[1].option, fs[2].flag, fs[3].option, fs[4].flag, fs[5].i)
  }

  function FromFields(op: byte, fs: seq<Field>): Request
    requires Schema(op).Some? && Matches(fs, Schema(op).value)
  {
    match op
    case 0x00 => Prologue(fs[1].text)
    case 0x01 => Hello(fs[0].text, fs[1].text)
    case 0x02 => WhoMaster
    case 0x07 => Exists(fs[0].flag, fs[1].text)
    case 0x08 => Get(fs[0].flag, fs[1].text)
    case 0x09 => Put(fs[0].text, fs[1].text)
    case 0x0a => Remove(fs[0].text)
    case 0x0b => Range(fs[0].flag, SpanOf(fs))
    case 0x0c => Prefix(fs[0].flag, fs[1].text, fs[2].i)
    case 0x0d => TestAndSet(fs[0].text, fs[1].option, fs[2].option)
    case 0x0f => RangeEntries(fs[0].flag, SpanOf(fs))
    case 0x10 => Sequence(fs[0].items)
    case 0x11 => MultiGet(fs[0].flag, fs[1].texts)
    case 0x12 => ExpectProgress
    case 0x15 => UserFunction(fs[0].text, fs[1].option)
    case 0x16 => AssertValue(fs[0].flag, fs[1].text, fs[2].option)
    case 0x20 => Routing
    case 0x23 => RevRangeEntries(fs[0].flag, SpanOf(fs))
    case 0x24 => SyncedSequence(fs[0].items)
    case 0x27 => DeletePrefix(fs[0].text)
    case 0x28 => Version
    case _ => AssertKey(fs[0].flag, fs[1].text)
  }

  function Command(op: byte): (b: Bytes)
    ensures |b| == 4
  {
    [op] + MAGIC
  }

  function PutRequest(r: Request): Bytes {
    Command(Opcode(r)) + PutFields(RequestFields(r))
  }

  /** The peer's reading of the client's byte stream: one whole command, or nothing yet. */
  function GetRequest(s: Bytes): (p: Parsed<Request>) {
    if |s| < 4 || s[1..4] != MAGIC || Schema(s[0]).None? then NoParse
    else
      match GetFields(Schema(s[0]).value, s[4..])
      case NoParse => NoParse
      case Got(fs, rest) => Got(FromFields(s[0], fs), rest)
  }

  /** Every length and count fits its 32-bit word, every number its int32_t. */
  predicate RequestFits(r: Request) {
    FieldsFit(RequestFields(r))
  }

  lemma FieldsIdentifyRequest(r: Request)
    ensures Schema(Opcode(r)) == Some(TypesOf(RequestFields(r)))
    ensures Matches(RequestFields(r), Schema(Opcode(r)).value)
    ensures FromFields(Opcode(r), RequestFields(r)) == r
  {
    assert TypesOf(RequestFields(r)) == Schema(Opcode(r)).value;
  }

  /** Reading a command back gives the command and leaves exactly what followed it. */
  lemma RequestRoundTrip(r: Request, rest: Bytes)
    requires RequestFits(r)
    ensures GetRequest(PutRequest(r) + rest) == Got(r, rest)
  {
    var s := PutRequest(r) + rest;
    FieldsIdentifyRequest(r);
    assert s[..4] == Command(Opcode(r));
    assert s[1..4] == s[..4][1..] == MAGIC;
    assert s[4..] == PutFields(RequestFields(r)) + rest;
    FieldsRoundTrip(RequestFields(r), rest);
  }

  lemma RequestExtends(s: Bytes, more: Bytes)
    requires GetRequest(s).Got?
    ensures GetRequest(s + more) == Got(GetRequest(s).value, GetRequest(s).rest + more)
  {
    assert (s + more)[1..4] == s[1..4];
    assert (s + more)[4..] == s[4..] + more;
    FieldsExtend(Schema(s[0]).value, s[4..], more);
  }

  /** No proper prefix of a command reads as a command: while a command is only partly
      written the peer keeps waiting. */
  lemma ProperPrefixIsIncomplete(r: Request, sent: Bytes, unsent: Bytes)
    requires RequestFits(r)
    requires PutRequest(r) == sent + unsent && unsent != []
    ensures GetRequest(sent).NoParse?
  {
    if GetRequest(sent).Got? {
      RequestExtends(sent, unsent);
      assert PutRequest(r) + [] == sent + unsent;
      RequestRoundTrip(r, []);
    }
  }

  function PutRequests(rs: seq<Request>): Bytes {
    PutAll(PutRequest, rs)
  }

  /** A stream of commands can be cut up in only one way. */
  lemma {:induction false} StreamIsUnambiguous(rs: seq<Request>, qs: seq<Request>)
    requires forall r :: r in rs ==> RequestFits(r)
    requires forall q :: q in qs ==> RequestFits(q)
    requires PutRequests(rs) == PutRequests(qs)
    ensures rs == qs
  {
    if rs != [] && qs != [] {
      RequestRoundTrip(rs[0], PutRequests(rs[1..]));
      RequestRoundTrip(qs[0], PutRequests(qs[1..]));
      StreamIsUnambiguous(rs[1..], qs[1..]);
      assert rs == [rs[0]] + rs[1..] && qs == [qs[0]] + qs[1..];
    }
  }

  // ----- replies --------------------------------------------------------------

  datatype Reply = Success(fields: seq<Field>) | Failure(code: int, message: Bytes)

  /** What a successful reply carries after its return code. */
  function ReplySchema(r: Request): seq<FieldType> {
    match r
    case Hello(_, _) => [TText]
    case WhoMaster => [TOptText]
    case Exists(_, _) => [TFlag]
    case Get(_, _) => [TText]
    case Range(_, _) => [TTexts]
    case Prefix(_, _, _) => [TTexts]
    case TestAndSet(_, _, _) => [TOptText]
    case RangeEntries(_, _) => [TPairs]
    case MultiGet(_, _) => [TTexts]
    case ExpectProgress => [TFlag]
    case UserFunction(_, _) => [TOptText]
    case Routing => [TText]
    case RevRangeEntries(_, _) => [TPairs]
    case DeletePrefix(_) => [TUint32]
    case Version => [TInt32, TInt32, TInt32, TText]
    case _ => []
  }

  /** A well-formed reply: zero and the result, or a nonzero code and a message. */
  predicate ReplyFor(r: Request, reply: Reply) {
    match reply
    case Success(fs) => TypesOf(fs) == ReplySchema(r) && FieldsFit(fs)
    case Failure(code, message) => code != 0 && FitsWord(code) && StringFits(message)
  }

  /** The peer does not answer the prologue. */
  function PutReply(r: Request, reply: Reply): Bytes {
    if r.Prologue? then []
    else
      match reply
      case Success(fs) => PutWord(0) + PutFields(fs)
      case Failure(code, message) => PutWord(code) + PutString(message)
  }

  function GetReply(r: Request, s: Bytes): Parsed<Reply> {
    match GetUint(s)
    case NoParse => NoParse
    case Got(code, rest) =>
      if code == 0 then
        match GetFields(ReplySchema(r), rest)
        case NoParse => NoParse
        case Got(fs, end) => Got(Success(fs), end)
      else
        match GetString(rest)
        case NoParse => NoParse
        case Got(message, end) => Got(Failure(code, message), end)
  }

  lemma ReplyRoundTrip(r: Request, reply: Reply, rest: Bytes)
    requires !r.Prologue? && ReplyFor(r, reply)
    ensures GetReply(r, PutReply(r, reply) + rest) == Got(reply, rest)
  {
    var code := if reply.Success? then 0 else reply.code;
    var body := if reply.Success? then PutFields(reply.fields) else PutString(reply.message);
    assert PutReply(r, reply) + rest == PutWord(code) + (body + rest);
    UintRoundTrip(code, body + rest);
    if reply.Success? {
      FieldsRoundTrip(reply.fields, rest);
    } else {
      StringRoundTrip(reply.message, rest);
    }
  }
}
