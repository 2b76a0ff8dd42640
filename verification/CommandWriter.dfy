/** Building commands: a buffer of a size worked out beforehand, and a cursor that each
    WRITE_* macro stores through and advances. */
module CommandBuilder {
  import opened Wire
  import opened WireLists
  import opened Fields
  import opened Requests
  import opened Layouts

  /** ARAKOON_PROTOCOL_STRING_LEN */
  function StringLen(n: nat): nat {
    4 + n
  }

  /** ARAKOON_PROTOCOL_STRING_OPTION_LEN: the size argument counts only for a non-NULL pointer. */
  function StringOptionLen(s: Option<Bytes>, n: nat): nat {
    1 + if s.None? then 0 else StringLen(n)
  }

  class CommandWriter {
    const command: array<byte>
    var c: nat
    ghost const op: byte
    ghost var written: seq<Field>
    ghost var partial: Bytes

    /** Up to the cursor the buffer holds the command code, the fields written and the bytes
        stored so far of a field under way. */
    ghost predicate Holds()
      reads this, command
    {
      && c <= command.Length
      && command[..c] == Command(op) + PutFields(written) + partial
    }

    ghost predicate Valid()
      reads this, command
    {
      Holds() && partial == []
    }

    /** `arakoon_mem_new(len, char)` followed by WRITE_COMMAND(c, n0, 0x00). */
    constructor (len: nat, n0: byte)
      requires len >= 4
      ensures Valid() && fresh(command)
      ensures command.Length == len && c == 4 && op == n0 && written == []
    {
      command := new byte[len];
      op := n0;
      written, partial := [], [];
      c := 4;
      new;
      command[0], command[1], command[2], command[3] := n0, 0x00, 0xff, 0xb1;
      assert command[..4] == Command(n0) + PutFields([]) + [];
    }

    /** One store through the cursor, which moves past it. */
    method Store(bytes: Bytes)
      requires Holds() && c + |bytes| <= command.Length
      modifies this`c, this`partial, command
      ensures Holds() && c == old(c) + |bytes| && partial == old(partial) + bytes
    {
      hide PutFields, Command;
      forall i | 0 <= i < |bytes| {
        command[c + i] := bytes[i];
      }
      assert command[..c] == old(command[..c]);
      assert command[c..c + |bytes|] == bytes;
      assert command[..c + |bytes|] == command[..c] + bytes;
      assert (Command(op) + PutFields(written) + partial) + bytes == Command(op) + PutFields(written) + (partial + bytes);
      c := c + |bytes|;
      partial := partial + bytes;
    }

    /** The stores since the last field make up this one. */
    ghost method Complete(f: Field)
      requires Holds() && partial == PutField(f)
      modifies this`written, this`partial
      ensures Valid() && written == old(written) + [f]
    {
      hide PutFields, PutField, Command;
      PutFieldsSnoc(written, f);
      assert Command(op) + PutFields(written) + PutField(f) == Command(op) + (PutFields(written) + PutField(f)) + [];
      written, partial := written + [f], [];
    }

    method WriteBool(b: bool)
      requires Valid() && c + 1 <= command.Length
      modifies this`c, this`written, this`partial, command
      ensures Valid() && c == old(c) + 1 && written == old(written) + [Flag(b)]
    {
      hide Holds;
      Store([if b then 1 else 0]);
      Complete(Flag(b));
    }

    method WriteInt32(i: int)
      requires Valid() && c + 4 <= command.Length
      modifies this`c, this`written, this`partial, command
      ensures Valid() && c == old(c) + 4 && written == old(written) + [Int32(i)]
    {
      hide Holds;
      Store(PutWord(i));
      Complete(Int32(i));
    }

    method WriteUint32(n: int)
      requires Valid() && c + 4 <= command.Length
      modifies this`c, this`written, this`partial, command
      ensures Valid() && c == old(c) + 4 && written == old(written) + [Uint32(n)]
    {
      hide Holds;
      Store(PutWord(n));
      Complete(Uint32(n));
    }

    /** The length, then the bytes. */
    method StoreString(s: Bytes)
      requires Holds() && c + StringLen(|s|) <= command.Length
      modifies this`c, this`partial, command
      ensures Holds() && c == old(c) + StringLen(|s|) && partial == old(partial) + PutString(s)
    {
      hide Holds, PutWord;
      Store(PutWord(|s|));
      Store(s);
      assert old(partial) + PutWord(|s|) + s == old(partial) + (PutWord(|s|) + s);
    }

    method WriteString(s: Bytes)
      requires Valid() && c + StringLen(|s|) <= command.Length
      modifies this`c, this`written, this`partial, command
      ensures Valid() && c == old(c) + StringLen(|s|) && written == old(written) + [Text(s)]
    {
      hide Holds;
      StoreString(s);
      assert [] + PutString(s) == PutString(s);
      Complete(Text(s));
    }

    /** A NULL pointer is written as absent whatever size came with it. */
    method WriteStringOption(s: Option<Bytes>, n: nat)
      requires Valid() && c + StringOptionLen(s, n) <= command.Length
      requires s.Some? ==> n == |s.value|
      modifies this`c, this`written, this`partial, command
      ensures Valid() && c == old(c) + StringOptionLen(s, n) && written == old(written) + [OptText(s)]
    {
      hide Holds, PutString;
      if s.None? {
        Store([0]);
      } else {
        Store([1]);
        StoreString(s.value);
      }
      Complete(OptText(s));
    }
  }

  /** The size argument passed along with an optional string; for a NULL pointer it is
      whatever the caller put there. */
  function SizeArgument(s: Option<Bytes>, stray: nat): nat {
    if s.None? then stray else |s.value|
  }

  /** A buffer filled to the end holds the command and nothing else. */
  lemma Whole(w: CommandWriter)
    requires w.Valid() && w.c == w.command.Length
    ensures w.command[..] == Command(w.op) + PutFields(w.written)
  {
    hide PutFields, Command;
    assert w.command[..] == w.command[..w.c];
  }

  /** The three range calls share one layout. */
  method BuildRange(op: byte, dirty: bool, span: Span, stray0: nat, stray1: nat) returns (command: array<byte>)
    ensures fresh(command) && command[..] == Command(op) + PutFields(SpanFields(dirty, span))
  {
    hide PutFields, Command, CommandWriter.Valid, CommandWriter.Holds;
    var beginSize, endSize := SizeArgument(span.begin, stray0), SizeArgument(span.end, stray1);
    var len := 4 + 1 + StringOptionLen(span.begin, beginSize) + 1 + StringOptionLen(span.end, endSize) + 1 + 4;
    var w := new CommandWriter(len, op);
    w.WriteBool(dirty);
    w.WriteStringOption(span.begin, beginSize);
    w.WriteBool(span.beginIncluded);
    w.WriteStringOption(span.end, endSize);
    w.WriteBool(span.endIncluded);
    w.WriteInt32(span.max);
    assert w.c == len;  // ASSERT_ALL_WRITTEN
    assert w.written == SpanFields(dirty, span);
    Whole(w);
    command := w.command;
  }

  method BuildString(op: byte, s: Bytes) returns (command: array<byte>)
    ensures fresh(command) && command[..] == Command(op) + PutFields([Text(s)])
  {
    hide PutFields, Command, CommandWriter.Valid, CommandWriter.Holds;
    var len := 4 + StringLen(|s|);
    var w := new CommandWriter(len, op);
    w.WriteString(s);
    assert w.c == len;
    assert w.written == [Text(s)];
    Whole(w);
    command := w.command;
  }

  method BuildTwoStrings(op: byte, s: Bytes, t: Bytes) returns (command: array<byte>)
    ensures fresh(command) && command[..] == Command(op) + PutFields([Text(s), Text(t)])
  {
    hide PutFields, Command, CommandWriter.Valid, CommandWriter.Holds;
    var len := 4 + StringLen(|s|) + StringLen(|t|);
    var w := new CommandWriter(len, op);
    w.WriteString(s);
    w.WriteString(t);
    assert w.c == len;
    assert w.written == [Text(s), Text(t)];
    Whole(w);
    command := w.command;
  }

  /** Commands that carry the dirty flag and a key. */
  method BuildKeyed(op: byte, dirty: bool, key: Bytes) returns (command: array<byte>)
    ensures fresh(command) && command[..] == Command(op) + PutFields([Flag(dirty), Text(key)])
  {
    hide PutFields, Command, CommandWriter.Valid, CommandWriter.Holds;
    var len := 4 + 1 + StringLen(|key|);
    var w := new CommandWriter(len, op);
    w.WriteBool(dirty);
    w.WriteString(key);
    assert w.c == len;
    assert w.written == [Flag(dirty), Text(key)];
    Whole(w);
    command := w.command;
  }

  /** Commands that are nothing but their code. */
  method BuildBare(op: byte) returns (command: array<byte>)
    ensures fresh(command) && command[..] == Command(op) + PutFields([])
  {
    hide PutFields, Command, CommandWriter.Valid, CommandWriter.Holds;
    var w := new CommandWriter(4, op);
    Whole(w);
    command := w.command;
  }

  method BuildPrologue(name: Bytes) returns (command: array<byte>)
    ensures fresh(command) && command[..] == PutRequest(Prologue(name))
  {
    hide PutFields, Command, CommandWriter.Valid, CommandWriter.Holds;
    var len := 4 + 4 + StringLen(|name|);
    var w := new CommandWriter(len, 0x00);
    w.WriteInt32(PROTOCOL_VERSION);
    w.WriteString(name);
    assert w.c == len;
    assert w.written == [Int32(PROTOCOL_VERSION), Text(name)];
    Whole(w);
    command := w.command;
  }

  method BuildPrefix(dirty: bool, key: Bytes, max: int) returns (command: array<byte>)
    ensures fresh(command) && command[..] == PutRequest(Prefix(dirty, key, max))
  {
    hide PutFields, Command, CommandWriter.Valid, CommandWriter.Holds;
    var len := 4 + 1 + StringLen(|key|) + 4;
    var w := new CommandWriter(len, 0x0c);
    w.WriteBool(dirty);
    w.WriteString(key);
    w.WriteInt32(max);
    assert w.c == len;
    assert w.written == [Flag(dirty), Text(key), Int32(max)];
    Whole(w);
    command := w.command;
  }

  method BuildTestAndSet(key: Bytes, old_: Option<Bytes>, new_: Option<Bytes>, stray0: nat, stray1: nat)
    returns (command: array<byte>)
    ensures fresh(command) && command[..] == PutRequest(TestAndSet(key, old_, new_))
  {
    hide PutFields, Command, CommandWriter.Valid, CommandWriter.Holds;
    var oldSize, newSize := SizeArgument(old_, stray0), SizeArgument(new_, stray1);
    var len := 4 + StringLen(|key|) + StringOptionLen(old_, oldSize) + StringOptionLen(new_, newSize);
    var w := new CommandWriter(len, 0x0d);
    w.WriteString(key);
    w.WriteStringOption(old_, oldSize);
    w.WriteStringOption(new_, newSize);
    assert w.c == len;
    assert w.written == [Text(key), OptText(old_), OptText(new_)];
    Whole(w);
    command := w.command;
  }

  method BuildUserFunction(name: Bytes, arg: Option<Bytes>, stray: nat) returns (command: array<byte>)
    ensures fresh(command) && command[..] == PutRequest(UserFunction(name, arg))
  {
    hide PutFields, Command, CommandWriter.Valid, CommandWriter.Holds;
    var argSize := SizeArgument(arg, stray);
    var len := 4 + StringLen(|name|) + StringOptionLen(arg, argSize);
    var w := new CommandWriter(len, 0x15);
    w.WriteString(name);
    w.WriteStringOption(arg, argSize);
    assert w.c == len;
    assert w.written == [Text(name), OptText(arg)];
    Whole(w);
    command := w.command;
  }

  method BuildAssert(dirty: bool, key: Bytes, expected: Option<Bytes>, stray: nat) returns (command: array<byte>)
    ensures fresh(command) && command[..] == PutRequest(AssertValue(dirty, key, expected))
  {
    hide PutFields, Command, CommandWriter.Valid, CommandWriter.Holds;
    var size := SizeArgument(expected, stray);
    var len := 4 + 1 + StringLen(|key|) + StringOptionLen(expected, size);
    var w := new CommandWriter(len, 0x16);
    w.WriteBool(dirty);
    w.WriteString(key);
    w.WriteStringOption(expected, size);
    assert w.c == len;
    assert w.written == [Flag(dirty), Text(key), OptText(expected)];
    Whole(w);
    command := w.command;
  }

  /** The first write of a multi_get: everything but the keys. */
  method BuildMultiGetHeader(dirty: bool, count: nat) returns (command: array<byte>)
    ensures fresh(command) && command[..] == Command(0x11) + PutFields([Flag(dirty), Uint32(count)])
  {
    hide PutFields, Command, CommandWriter.Valid, CommandWriter.Holds;
    var len := 4 + 1 + 4;
    var w := new CommandWriter(len, 0x11);
    w.WriteBool(dirty);
    w.WriteUint32(count);
    assert w.c == len;
    assert w.written == [Flag(dirty), Uint32(count)];
    Whole(w);
    command := w.command;
  }

  /** The commands sent from a single buffer filled front to back. */
  predicate InOneBuffer(r: Request) {
    !r.MultiGet? && !r.Sequence? && !r.SyncedSequence?
  }

  /** Whatever the optional arguments, and the sizes that came with a NULL, the buffer has exactly
      the size worked out for it and holds exactly the command. */
  method BuildCommand(r: Request, stray0: nat, stray1: nat) returns (command: array<byte>)
    requires InOneBuffer(r)
    ensures fresh(command) && command[..] == PutRequest(r) == RequestLayout(r)
  {
    hide PutFields, Command, CommandWriter.Valid, CommandWriter.Holds, RequestLayout;
    RequestLaidOut(r);
    match r {
      case Prologue(name) => command := BuildPrologue(name);
      case Hello(client, cluster) => command := BuildTwoStrings(0x01, client, cluster);
      case WhoMaster => command := BuildBare(0x02);
      case Exists(dirty, key) => command := BuildKeyed(0x07, dirty, key);
      case Get(dirty, key) => command := BuildKeyed(0x08, dirty, key);
      case Put(key, value) => command := BuildTwoStrings(0x09, key, value);
      case Remove(key) => command := BuildString(0x0a, key);
      case Range(dirty, span) => command := BuildRange(0x0b, dirty, span, stray0, stray1);
      case Prefix(dirty, key, max) => command := BuildPrefix(dirty, key, max);
      case TestAndSet(key, o, n) => command := BuildTestAndSet(key, o, n, stray0, stray1);
      case RangeEntries(dirty, span) => command := BuildRange(0x0f, dirty, span, stray0, stray1);
      case ExpectProgress => command := BuildBare(0x12);
      case UserFunction(name, arg) => command := BuildUserFunction(name, arg, stray0);
      case AssertValue(dirty, key, o) => command := BuildAssert(dirty, key, o, stray0);
      case Routing => command := BuildBare(0x20);
      case RevRangeEntries(dirty, span) => command := BuildRange(0x23, dirty, span, stray0, stray1);
      case DeletePrefix(prefix) => command := BuildString(0x27, prefix);
      case Version => command := BuildBare(0x28);
      case AssertKey(dirty, key) => command := BuildKeyed(0x29, dirty, key);
    }
  }
}
