/** The client's calls on a connected master: one request out, one reply in. */
module Client {
  import opened Wire
  import opened WireLists
  import opened SequenceItems
  import opened Fields
  import opened Requests
  import opened Layouts
  import opened CommandBuilder
  import SequenceBuilder
  import opened Time
  import opened Acts
  import opened Kernels
  import opened Transfer
  import opened Topology
  import opened Protocol
  import opened Discovery
  import ValueLists
  import KeyValueLists

  /** What a call hands to its caller besides the return code. */
  datatype Result =
    | Nothing
    | Truth(b: bool)
    | Number(n: int)
    | Data(data: Bytes)
    | MaybeData(option: Option<Bytes>)
    | Values(values: ValueLists.ValueList)
    | Entries(entries: KeyValueLists.KeyValueList)
    | VersionInfo(major: int, minor: int, patch: int, info: Bytes)

  /** The result shows the fields of a successful reply. Lists come out in the reverse of
      their order on the wire. */
  ghost predicate Shows(result: Result, fs: seq<Field>)
    reads if result.Values? then {result.values} else {}
    reads if result.Values? then result.values.spine else []
    reads if result.Entries? then {result.entries} else {}
  {
    match result
    case Nothing => fs == []
    case Truth(b) => fs == [Flag(b)]
    case Number(n) => fs == [Uint32(n)]
    case Data(s) => fs == [Text(s)]
    case MaybeData(o) => fs == [OptText(o)]
    case Values(list) =>
      |fs| == 1 && fs[0].Texts? && list.Valid() && list.size == |fs[0].texts| && list.Contents() == Reverse(fs[0].texts)
    case Entries(list) =>
      |fs| == 1 && fs[0].Pairs? && list.Valid() && list.size == |fs[0].pairs| && list.Contents() == Reverse(fs[0].pairs)
    case VersionInfo(major, minor, patch, info) => fs == [Int32(major), Int32(minor), Int32(patch), Text(info)]
  }

  // ----- decoding field by field ----------------------------------------------

  lemma NoFields(s: Bytes)
    ensures GetFields([], s) == Got([], s)
  {
  }

  lemma FieldThenFields(t: FieldType, ts: seq<FieldType>, s: Bytes, f: Field, mid: Bytes, fs: seq<Field>, rest: Bytes)
    requires GetField(t, s) == Got(f, mid) && GetFields(ts, mid) == Got(fs, rest)
    ensures GetFields([t] + ts, s) == Got([f] + fs, rest)
  {
  }

  lemma OneField(t: FieldType, s: Bytes, f: Field, rest: Bytes)
    requires GetField(t, s) == Got(f, rest)
    ensures GetFields([t], s) == Got([f], rest)
  {
    NoFields(rest);
    FieldThenFields(t, [], s, f, rest, [], rest);
    assert [t] + [] == [t] && [f] + [] == [f];
  }

  lemma FourFields(t0: FieldType, t1: FieldType, t2: FieldType, t3: FieldType, s: Bytes,
                   f0: Field, s0: Bytes, f1: Field, s1: Bytes, f2: Field, s2: Bytes, f3: Field, s3: Bytes)
    requires GetField(t0, s) == Got(f0, s0) && GetField(t1, s0) == Got(f1, s1)
    requires GetField(t2, s1) == Got(f2, s2) && GetField(t3, s2) == Got(f3, s3)
    ensures GetFields([t0, t1, t2, t3], s) == Got([f0, f1, f2, f3], s3)
  {
    hide GetField, GetFields;
    OneField(t3, s2, f3, s3);
    FieldThenFields(t2, [t3], s1, f2, s2, [f3], s3);
    assert [t2] + [t3] == [t2, t3] && [f2] + [f3] == [f2, f3];
    FieldThenFields(t1, [t2, t3], s0, f1, s1, [f2, f3], s3);
    assert [t1] + [t2, t3] == [t1, t2, t3] && [f1] + [f2, f3] == [f1, f2, f3];
    FieldThenFields(t0, [t1, t2, t3], s, f0, s0, [f1, f2, f3], s3);
    assert [t0] + [t1, t2, t3] == [t0, t1, t2, t3] && [f0] + [f1, f2, f3] == [f0, f1, f2, f3];
  }

  // ----- reading the result ---------------------------------------------------

  /** The three numbers and the text of a version reply, read one after the other. */
  method ReadVersion(k: Kernel, node: Node, timeout: int) returns (rc: int, result: Result, ghost fs: seq<Field>)
    requires k.Valid() && IsInt(timeout)
    modifies k`now, k`idle, k`calls, k`acts, k`table, k`closings, node`fd
    ensures k.Valid()
    ensures Shared(old(k.acts), k.acts, timeout) && ReadOn(old(k.acts), k.acts, old(node.fd), rc)
    ensures rc != SUCCESS ==> node.fd == -1 && k.table == old(k.table) - {old(node.fd)}
    ensures rc == SUCCESS ==>
              && node.fd == old(node.fd)
              && Took(old(k.table), k.table, old(k.acts), k.acts, node.fd)
              && Decoded(old(k.table), k.table, node.fd,
                         GetFields([TInt32, TInt32, TInt32, TText], Unread(old(k.table), node.fd)), fs)
              && Shows(result, fs)
  {
    hide Consistent, Explains, Reads, Spends, Shared, ReadOn, Took, OnlyRead, GetInt, GetString, GetFields;
    result, fs := Nothing, [];
    ghost var t0, a0, fd := k.table, k.acts, node.fd;
    var major, minor, patch, info, left;
    rc, major, left := ReadInt32(k, node, timeout);
    ReadsSpends(t0, k.table, a0, k.acts, fd, timeout, rc, left);
    if rc != SUCCESS { return; }
    ghost var t1, a1, b1 := k.table, k.acts, left;
    rc, minor, left := ReadInt32(k, node, left);
    ReadsMore(t0, t1, k.table, a0, a1, k.acts, fd, timeout, b1, left, rc);
    ReadsSpends(t0, k.table, a0, k.acts, fd, timeout, rc, left);
    if rc != SUCCESS {
      DroppedAnywayAfterRead(t0, t1, fd);
      return;
    }
    ghost var t2, a2, b2 := k.table, k.acts, left;
    ReadsCompose(t0, t1, t2, fd);
    rc, patch, left := ReadInt32(k, node, left);
    ReadsMore(t0, t2, k.table, a0, a2, k.acts, fd, timeout, b2, left, rc);
    ReadsSpends(t0, k.table, a0, k.acts, fd, timeout, rc, left);
    if rc != SUCCESS {
      DroppedAnywayAfterRead(t0, t2, fd);
      return;
    }
    ghost var t3, a3, b3 := k.table, k.acts, left;
    ReadsCompose(t0, t2, t3, fd);
    rc, info, left := ReadString(k, node, rc, left);
    ReadsMore(t0, t3, k.table, a0, a3, k.acts, fd, timeout, b3, left, rc);
    ReadsSpends(t0, k.table, a0, k.acts, fd, timeout, rc, left);
    if rc != SUCCESS {
      DroppedAnywayAfterRead(t0, t3, fd);
      return;
    }
    ReadsCompose(t0, t3, k.table, fd);
    result := VersionInfo(major, minor, patch, info);
    fs := [Int32(major), Int32(minor), Int32(patch), Text(info)];
    FourFields(TInt32, TInt32, TInt32, TText, Unread(t0, fd), Int32(major), Unread(t1, fd), Int32(minor), Unread(t2, fd),
               Int32(patch), Unread(t3, fd), Text(info), Unread(k.table, fd));
  }

  method ReadScalar(k: Kernel, node: Node, t: FieldType, timeout: int) returns (rc: int, result: Result, ghost fs: seq<Field>)
    requires k.Valid() && IsInt(timeout) && (t.TFlag? || t.TUint32? || t.TText? || t.TOptText?)
    modifies k`now, k`idle, k`calls, k`acts, k`table, k`closings, node`fd
    ensures k.Valid()
    ensures Shared(old(k.acts), k.acts, timeout) && ReadOn(old(k.acts), k.acts, old(node.fd), rc)
    ensures rc != SUCCESS ==> node.fd == -1 && k.table == old(k.table) - {old(node.fd)}
    ensures rc == SUCCESS ==>
              && node.fd == old(node.fd)
              && Took(old(k.table), k.table, old(k.acts), k.acts, node.fd)
              && Decoded(old(k.table), k.table, node.fd, GetFields([t], Unread(old(k.table), node.fd)), fs)
              && Shows(result, fs)
  {
    hide Consistent, Explains, Reads, Spends, Shared, ReadOn, Took, OnlyRead, GetField, GetFields;
    result, fs := Nothing, [];
    ghost var stream := Unread(k.table, node.fd);
    var left;
    match t {
      case TFlag =>
        var b;
        rc, b, left := ReadBool(k, node, timeout);
        result, fs := Truth(b), [Flag(b)];
      case TUint32 =>
        var n;
        rc, n, left := ReadUint32(k, node, timeout);
        result, fs := Number(n), [Uint32(n)];
      case TText =>
        var s;
        rc, s, left := ReadString(k, node, SUCCESS, timeout);
        result, fs := Data(s), [Text(s)];
      case TOptText =>
        var o;
        rc, o, left := ReadStringOption(k, node, SUCCESS, timeout);
        result, fs := MaybeData(o), [OptText(o)];
    }
    ReadsSpends(old(k.table), k.table, old(k.acts), k.acts, old(node.fd), timeout, rc, left);
    if rc == SUCCESS {
      FieldOf(t, stream, fs[0], Unread(k.table, node.fd));
    } else {
      result := Nothing;
    }
  }

  /** Reads what a successful reply to the request carries. */
  method ReadResult(k: Kernel, node: Node, r: Request, timeout: int) returns (rc: int, result: Result, ghost fs: seq<Field>)
    requires k.Valid() && IsInt(timeout) && !r.Prologue? && node.fd in k.table
    modifies k`now, k`idle, k`calls, k`acts, k`table, k`closings, node`fd
    ensures k.Valid()
    ensures Shared(old(k.acts), k.acts, timeout) && ReadOn(old(k.acts), k.acts, old(node.fd), rc)
    ensures rc != SUCCESS ==> node.fd == -1 && k.table == old(k.table) - {old(node.fd)}
    ensures rc == SUCCESS ==>
              && node.fd == old(node.fd)
              && Took(old(k.table), k.table, old(k.acts), k.acts, node.fd)
              && Decoded(old(k.table), k.table, node.fd, GetFields(ReplySchema(r), Unread(old(k.table), node.fd)), fs)
              && Shows(result, fs)
  {
    hide Consistent, Explains, Reads, Spends, Shared, ReadOn, Took, OnlyRead, GetFields, Shows;
    if r.Range? || r.Prefix? || r.MultiGet? {
      rc, result, fs := ReadValues(k, node, timeout);
    } else if r.RangeEntries? || r.RevRangeEntries? {
      rc, result, fs := ReadEntries(k, node, timeout);
    } else if r.Version? {
      rc, result, fs := ReadVersion(k, node, timeout);
    } else if r.Hello? || r.Get? || r.Routing? {
      rc, result, fs := ReadScalar(k, node, TText, timeout);
    } else if r.Exists? || r.ExpectProgress? {
      rc, result, fs := ReadScalar(k, node, TFlag, timeout);
    } else if r.WhoMaster? || r.TestAndSet? || r.UserFunction? {
      rc, result, fs := ReadScalar(k, node, TOptText, timeout);
    } else if r.DeletePrefix? {
      rc, result, fs := ReadScalar(k, node, TUint32, timeout);
    } else {
      rc, result, fs := SUCCESS, Nothing, [];
      SharedNothing(k.acts, timeout);
      ReadOnNone(k.acts, node.fd);
      TookNothing(k.table, k.acts, node.fd);
      NoFields(Unread(k.table, node.fd));
      ReadNothing(k.table, node.fd);
      ShowsNothing();
    }
  }

  lemma ShowsNothing()
    ensures Shows(Nothing, [])
  {
  }

  /** One field on the wire, as a run of one. */
  lemma FieldOf(t: FieldType, stream: Bytes, f: Field, rest: Bytes)
    requires match t
             case TFlag => f.Flag? && GetBool(stream) == Got(f.flag, rest)
             case TInt32 => f.Int32? && GetInt(stream) == Got(f.i, rest)
             case TUint32 => f.Uint32? && GetUint(stream) == Got(f.n, rest)
             case TText => f.Text? && GetString(stream) == Got(f.text, rest)
             case TOptText => f.OptText? && GetOption(stream) == Got(f.option, rest)
             case TTexts => f.Texts? && GetTexts(stream) == Got(f.texts, rest)
             case TPairs => f.Pairs? && GetPairs(stream) == Got(f.pairs, rest)
             case TFrame => f.Frame? && GetFrame(stream) == Got(f.items, rest)
    ensures GetField(t, stream) == Got(f, rest) && GetFields([t], stream) == Got([f], rest)
  {
    hide GetBool, GetInt, GetUint, GetString, GetOption, GetTexts, GetPairs, GetFrame, GetFields;
    OneField(t, stream, f, rest);
  }

  lemma ReadNothing(table: map<int, Conn>, fd: int)
    requires fd in table
    ensures OnlyRead(table, table, fd)
  {
  }

  method ReadValues(k: Kernel, node: Node, timeout: int) returns (rc: int, result: Result, ghost fs: seq<Field>)
    requires k.Valid() && IsInt(timeout)
    modifies k`now, k`idle, k`calls, k`acts, k`table, k`closings, node`fd
    ensures k.Valid()
    ensures Shared(old(k.acts), k.acts, timeout) && ReadOn(old(k.acts), k.acts, old(node.fd), rc)
    ensures rc != SUCCESS ==> node.fd == -1 && k.table == old(k.table) - {old(node.fd)}
    ensures rc == SUCCESS ==>
              && node.fd == old(node.fd)
              && Took(old(k.table), k.table, old(k.acts), k.acts, node.fd)
              && Decoded(old(k.table), k.table, node.fd, GetFields([TTexts], Unread(old(k.table), node.fd)), fs)
              && Shows(result, fs)
  {
    hide Consistent, Explains, Reads, Spends, Shared, ReadOn, Took, OnlyRead, GetTexts, GetFields;
    result, fs := Nothing, [];
    ghost var stream := Unread(k.table, node.fd);
    var list := new ValueLists.ValueList();
    var left;
    ghost var strings;
    rc, left, strings := ReadStringList(k, node, list, timeout);
    ReadsSpends(old(k.table), k.table, old(k.acts), k.acts, old(node.fd), timeout, rc, left);
    if rc == SUCCESS {
      result, fs := Values(list), [Texts(strings)];
      FieldOf(TTexts, stream, fs[0], Unread(k.table, node.fd));
    }
  }

  method ReadEntries(k: Kernel, node: Node, timeout: int) returns (rc: int, result: Result, ghost fs: seq<Field>)
    requires k.Valid() && IsInt(timeout)
    modifies k`now, k`idle, k`calls, k`acts, k`table, k`closings, node`fd
    ensures k.Valid()
    ensures Shared(old(k.acts), k.acts, timeout) && ReadOn(old(k.acts), k.acts, old(node.fd), rc)
    ensures rc != SUCCESS ==> node.fd == -1 && k.table == old(k.table) - {old(node.fd)}
    ensures rc == SUCCESS ==>
              && node.fd == old(node.fd)
              && Took(old(k.table), k.table, old(k.acts), k.acts, node.fd)
              && Decoded(old(k.table), k.table, node.fd, GetFields([TPairs], Unread(old(k.table), node.fd)), fs)
              && Shows(result, fs)
  {
    hide Consistent, Explains, Reads, Spends, Shared, ReadOn, Took, OnlyRead, GetPairs, GetFields;
    hide KeyValueLists.IsChain;
    result, fs := Nothing, [];
    ghost var stream := Unread(k.table, node.fd);
    var list := new KeyValueLists.KeyValueList();
    var left;
    ghost var pairs;
    rc, left, pairs := ReadPairList(k, node, list, timeout);
    ReadsSpends(old(k.table), k.table, old(k.acts), k.acts, old(node.fd), timeout, rc, left);
    if rc == SUCCESS {
      result, fs := Entries(list), [Pairs(pairs)];
      FieldOf(TPairs, stream, fs[0], Unread(k.table, node.fd));
    }
  }

  // ----- the reply ------------------------------------------------------------

  /** The caller is told exactly what the reply said. */
  ghost predicate Conveys(reply: Reply, r: Request, rc: int, result: Result, lastError: Option<Bytes>)
    reads if result.Values? then {result.values} else {}
    reads if result.Values? then result.values.spine else []
    reads if result.Entries? then {result.entries} else {}
  {
    match reply
    case Success(fs) => rc == SUCCESS && Shows(result, fs)
    case Failure(code, message) =>
      FitsWord(code) && code != 0 && rc == Signed(code) && (r.WhoMaster? || r.Routing? || lastError == Some(message))
  }

  /** The bytes of a successful reply, command by command, and the result made of them. */
  ghost predicate Reports(r: Request, result: Result, got: Bytes)
    reads if result.Values? then {result.values} else {}
    reads if result.Values? then result.values.spine else []
    reads if result.Entries? then {result.entries} else {}
  {
    && |got| >= 4 && got[..4] == [0, 0, 0, 0]
    && var body := got[4..];
       match r
       case Hello(_, _) => result.Data? && body == StringLayout(result.data)
       case Get(_, _) => result.Data? && body == StringLayout(result.data)
       case Routing => result.Data? && body == StringLayout(result.data)
       case Exists(_, _) => result.Truth? && |body| == 1 && (body[0] != 0 <==> result.b)
       case ExpectProgress => result.Truth? && |body| == 1 && (body[0] != 0 <==> result.b)
       case WhoMaster => result.MaybeData? && SpellsOption(body, result.option)
       case TestAndSet(_, _, _) => result.MaybeData? && SpellsOption(body, result.option)
       case UserFunction(_, _) => result.MaybeData? && SpellsOption(body, result.option)
       case Range(_, _) => ReportsValues(result, body)
       case Prefix(_, _, _) => ReportsValues(result, body)
       case MultiGet(_, _) => ReportsValues(result, body)
       case RangeEntries(_, _) => ReportsEntries(result, body)
       case RevRangeEntries(_, _) => ReportsEntries(result, body)
       case DeletePrefix(_) => result.Number? && FitsWord(result.n) && body == PutWord(result.n)
       case Version =>
         && result.VersionInfo? && FitsSigned(result.major) && FitsSigned(result.minor) && FitsSigned(result.patch)
         && body == PutWord(result.major) + PutWord(result.minor) + PutWord(result.patch) + StringLayout(result.info)
       case _ => result.Nothing? && body == []
  }

  ghost predicate ReportsValues(result: Result, body: Bytes)
    reads if result.Values? then {result.values} else {}
    reads if result.Values? then result.values.spine else []
  {
    && result.Values? && result.values.Valid()
    && exists xs :: result.values.Contents() == Reverse(xs) && body == PutWord(|xs|) + StringLayouts(xs)
  }

  ghost predicate ReportsEntries(result: Result, body: Bytes)
    reads if result.Entries? then {result.entries} else {}
  {
    && result.Entries? && result.entries.Valid()
    && exists ps :: result.entries.Contents() == Reverse(ps) && body == PutWord(|ps|) + PairLayouts(ps)
  }

  /** The bytes of an error reply, as far as they are read, the return code and the last error
      made of them. The message is not read after who_master and the routing query. */
  predicate Complains(r: Request, rc: int, lastError: Option<Bytes>, got: Bytes) {
    && |got| >= 4 && GetWord(got) != 0 && rc == Signed(GetWord(got))
    && match r
       case WhoMaster => |got| == 4
       case Routing => |got| == 4
       case _ => lastError.Some? && got[4..] == StringLayout(lastError.value)
  }

  ghost predicate Relates(r: Request, rc: int, result: Result, lastError: Option<Bytes>, got: Bytes)
    reads if result.Values? then {result.values} else {}
    reads if result.Values? then result.values.spine else []
    reads if result.Entries? then {result.entries} else {}
  {
    if rc == SUCCESS then Reports(r, result, got) else Complains(r, rc, lastError, got)
  }

  lemma SameFront(a: Bytes, b: Bytes, rest: Bytes)
    requires a + rest == b + rest
    ensures a == b
  {
    assert (a + rest)[..|a|] == a && (b + rest)[..|b|] == b;
  }

  /** What was read of a successful reply is what the result reports. */
  lemma ReplyReports(r: Request, stream: Bytes, got: Bytes, rest: Bytes, fs: seq<Field>, result: Result)
    requires !r.Prologue? && stream == got + rest
    requires GetReply(r, stream) == Got(Success(fs), rest) && Shows(result, fs)
    ensures Reports(r, result, got)
  {
    hide GetUint, PutWord, GetField, GetFields, Spells, SpellsOption, StringLayout, StringLayouts, PairLayouts, Shows, Reports;
    var body := GetUint(stream).rest;
    WordSpelled(stream, 0, body);
    ZeroWord();
    var types := ReplySchema(r);
    var spelled: Bytes := [];
    if types == [] {
      NoMoreFields(body, fs, rest);
    } else if r.Version? {
      spelled := VersionSpelled(body, fs, rest);
    } else {
      var mid := FirstField(types, body, fs, rest);
      assert types[1..] == [];
      NoMoreFields(mid, fs[1..], rest);
      spelled := FieldSpelled(types[0], body, fs[0], rest);
    }
    assert body == spelled + rest;
    assert PutWord(0) + (spelled + rest) == (PutWord(0) + spelled) + rest;
    SameFront(got, PutWord(0) + spelled, rest);
    assert got[4..] == spelled;
    FieldReports(r, fs, result, got, spelled);
  }

  lemma FirstField(ts: seq<FieldType>, s: Bytes, fs: seq<Field>, rest: Bytes) returns (mid: Bytes)
    requires ts != [] && GetFields(ts, s) == Got(fs, rest)
    ensures |fs| == |ts| && TypeOf(fs[0]) == ts[0]
    ensures GetField(ts[0], s) == Got(fs[0], mid) && GetFields(ts[1..], mid) == Got(fs[1..], rest)
  {
    hide GetField;
    mid := GetField(ts[0], s).rest;
  }

  lemma NumberSpelled(ts: seq<FieldType>, s: Bytes, fs: seq<Field>, rest: Bytes) returns (mid: Bytes)
    requires ts != [] && ts[0] == TInt32 && GetFields(ts, s) == Got(fs, rest)
    ensures |fs| == |ts| && fs[0].Int32? && FitsSigned(fs[0].i) && s == PutWord(fs[0].i) + mid
    ensures GetFields(ts[1..], mid) == Got(fs[1..], rest)
  {
    hide GetField, GetFields, PutWord;
    mid := FirstField(ts, s, fs, rest);
    var got := FieldSpelled(ts[0], s, fs[0], mid);
  }

  lemma VersionSpelled(body: Bytes, fs: seq<Field>, rest: Bytes) returns (spelled: Bytes)
    requires GetFields([TInt32, TInt32, TInt32, TText], body) == Got(fs, rest)
    ensures |fs| == 4 && fs[0].Int32? && fs[1].Int32? && fs[2].Int32? && fs[3].Text?
    ensures FitsSigned(fs[0].i) && FitsSigned(fs[1].i) && FitsSigned(fs[2].i)
    ensures spelled == PutWord(fs[0].i) + PutWord(fs[1].i) + PutWord(fs[2].i) + StringLayout(fs[3].text)
    ensures body == spelled + rest
  {
    hide GetField, GetFields, PutWord, StringLayout;
    var ts := [TInt32, TInt32, TInt32, TText];
    var s1 := NumberSpelled(ts, body, fs, rest);
    var s2 := NumberSpelled(ts[1..], s1, fs[1..], rest);
    var s3 := NumberSpelled(ts[1..][1..], s2, fs[1..][1..], rest);
    assert ts[1..][1..][1..] == [TText] && fs[1..][1..][1..] == [fs[3]];
    var s4 := FirstField([TText], s3, [fs[3]], rest);
    NoMoreFields(s4, [fs[3]][1..], rest);
    var got := FieldSpelled(TText, s3, fs[3], s4);
    spelled := PutWord(fs[0].i) + PutWord(fs[1].i) + PutWord(fs[2].i) + got;
    assert body == PutWord(fs[0].i) + (PutWord(fs[1].i) + (PutWord(fs[2].i) + (got + rest)));
  }

  lemma NoMoreFields(s: Bytes, fs: seq<Field>, rest: Bytes)
    requires GetFields([], s) == Got(fs, rest)
    ensures s == rest
  {
  }

  lemma FieldReports(r: Request, fs: seq<Field>, result: Result, got: Bytes, spelled: Bytes)
    requires !r.Prologue? && got == [0, 0, 0, 0] + spelled && got[4..] == spelled
    requires TypesOf(fs) == ReplySchema(r) && Shows(result, fs)
    requires |ReplySchema(r)| == 1 ==> Spells(spelled, fs[0])
    requires ReplySchema(r) == [] ==> spelled == []
    requires r.Version? ==>
               && FitsSigned(fs[0].i) && FitsSigned(fs[1].i) && FitsSigned(fs[2].i)
               && spelled == PutWord(fs[0].i) + PutWord(fs[1].i) + PutWord(fs[2].i) + StringLayout(fs[3].text)
    ensures Reports(r, result, got)
  {
    hide PutWord, SpellsOption, StringLayout, StringLayouts, PairLayouts;
    var types := ReplySchema(r);
    assert |fs| == |types| && forall i :: 0 <= i < |fs| ==> TypeOf(fs[i]) == types[i];
  }

  lemma SuccessRelates(r: Request, s0: Bytes, s1: Bytes, s2: Bytes, got: Bytes, fs: seq<Field>, result: Result,
                       error: Option<Bytes>)
    requires !r.Prologue? && GetUint(s0) == Got(0, s1) && GetFields(ReplySchema(r), s1) == Got(fs, s2)
    requires s0 == got + s2 && Shows(result, fs)
    ensures Relates(r, SUCCESS, result, error, got)
  {
    hide GetUint, GetFields, Shows, Reports, Complains;
    ReplyReports(r, s0, got, s2, fs, result);
  }

  lemma ErrorRelates(r: Request, s0: Bytes, s1: Bytes, s2: Bytes, got: Bytes, code: int, result: Result, error: Option<Bytes>)
    requires GetUint(s0) == Got(code, s1) && code != 0 && s0 == got + s2
    requires if r.WhoMaster? || r.Routing? then s1 == s2 else error.Some? && GetString(s1) == Got(error.value, s2)
    ensures FitsWord(code) && Relates(r, Signed(code), result, error, got)
  {
    hide GetUint, GetString, PutWord, GetWord, StringLayout, Signed, Reports;
    WordSpelled(s0, code, s1);
    var tail: Bytes := [];
    if !(r.WhoMaster? || r.Routing?) {
      StringSpelled(s1, error.value, s2);
      tail := StringLayout(error.value);
    }
    assert s1 == tail + s2;
    assert PutWord(code) + (tail + s2) == (PutWord(code) + tail) + s2;
    SameFront(got, PutWord(code) + tail, s2);
    WordRoundTrip(code, tail);
    SignedIsZero(code);
  }

  lemma SignedIsZero(code: int)
    requires FitsWord(code)
    ensures Signed(code) == 0 <==> code == 0
  {
  }

  /** HANDLE_ERROR: after a nonzero code, reads the message that comes with it. */
  method HandleError(k: Kernel, cluster: Cluster, node: Node, rc: int, timeout: int)
    returns (ghost io: int)
    requires k.Valid() && IsInt(timeout)
    modifies k`now, k`idle, k`calls, k`acts, k`table, k`closings, node`fd, cluster`lastError
    ensures k.Valid()
    ensures Shared(old(k.acts), k.acts, timeout)
    ensures ReadOn(old(k.acts), k.acts, old(node.fd), io) && (rc == SUCCESS ==> k.acts == old(k.acts))
    ensures io != SUCCESS <==> rc != SUCCESS && node.fd == -1
    ensures io == SUCCESS ==> Took(old(k.table), k.table, old(k.acts), k.acts, old(node.fd))
    ensures rc == SUCCESS ==> node.fd == old(node.fd) && k.table == old(k.table) && cluster.lastError == old(cluster.lastError)
    ensures rc != SUCCESS ==>
              || (node.fd == -1 && k.table == old(k.table) - {old(node.fd)} && cluster.lastError == old(cluster.lastError))
              || (&& node.fd == old(node.fd) && cluster.lastError.Some?
                  && Decoded(old(k.table), k.table, node.fd, GetString(Unread(old(k.table), node.fd)), cluster.lastError.value))
  {
    hide Consistent, Explains, Reads, Spends, Shared, ReadOn, Took, OnlyRead, GetString;
    io := SUCCESS;
    TookNothing(k.table, k.acts, node.fd);
    ReadOnNone(k.acts, node.fd);
    SharedNothing(k.acts, timeout);
    if rc != SUCCESS {
      var errRc, message, left := ReadString(k, node, SUCCESS, timeout);
      ReadsSpends(old(k.table), k.table, old(k.acts), k.acts, old(node.fd), timeout, errRc, left);
      io := errRc;
      if errRc != SUCCESS {
        return;
      }
      OpenWhenRead(old(k.table), k.table, node.fd);
      NotOpen(k.table, k.created, k.closings);
      cluster.lastError := Some(message);
    }
  }

  // ----- the acts of a call ---------------------------------------------------

  /** The reads of a reply: on one descriptor until one fails; what is tried after that finds
      it closed. */
  ghost predicate ReadsUntilFailure(acts: seq<Act>, fd: int) {
    forall i :: 0 <= i < |acts| ==>
      && acts[i].Transferred? && acts[i].action.ReadAction?
      && acts[i].fd == if FirstFailure(acts[..i]) == SUCCESS then fd else -1
  }

  /** The error code that the first read of a reply brought, zero if none. */
  function ErrorCodeIn(acts: seq<Act>): int {
    if acts == [] || !acts[0].Transferred? || acts[0].rc != SUCCESS then 0
    else
      match GetUint(acts[0].moved)
      case NoParse => 0
      case Got(code, _) => code
  }

  /** What the reads of a reply come to: the peer's error code if it came; else the code of the
      first read that failed. */
  function ReplyCode(acts: seq<Act>): int {
    var code := ErrorCodeIn(acts);
    if code != 0 && FitsWord(code) then Signed(code) else FirstFailure(acts)
  }

  lemma ReadsInTwo(a0: seq<Act>, a1: seq<Act>, a2: seq<Act>, fd: int, rc1: int, fd2: int, rc2: int)
    requires ReadOn(a0, a1, fd, rc1) && |a1| == |a0| + 1
    requires ReadOn(a1, a2, fd2, rc2) && fd2 == if rc1 == SUCCESS then fd else -1
    ensures a0 <= a2
    ensures var acts := a2[|a0|..];
            && acts != [] && acts[0] == a1[|a0|] && acts[0].rc == rc1 && ReadsUntilFailure(acts, fd)
            && FirstFailure(acts) == if rc1 != SUCCESS then rc1 else rc2
  {
    var x, y, acts := a1[|a0|..], a2[|a1|..], a2[|a0|..];
    assert acts == x + y;
    assert x[|x| - 1].rc == rc1;
    OutcomeIsFirstFailure(x, rc1);
    OutcomeIsFirstFailure(y, rc2);
    FirstFailureMore(x, y);
    forall i | 0 <= i < |acts|
      ensures acts[i].Transferred? && acts[i].action.ReadAction?
      ensures acts[i].fd == if FirstFailure(acts[..i]) == SUCCESS then fd else -1
    {
      if i > 0 {
        assert acts[..i] == x + y[..i - 1];
        FirstFailureMore(x, y[..i - 1]);
        OutcomeIsFirstFailure(y[..i - 1], SUCCESS);
        assert acts[i] == y[i - 1];
      }
    }
  }

  lemma CodeAlone(acts: seq<Act>, t0: map<int, Conn>, t1: map<int, Conn>, fd: int, code: int)
    requires |acts| == 1 && acts[0].Transferred? && acts[0].rc == SUCCESS
    requires Unread(t0, fd) == Delivered(acts) + Unread(t1, fd) && GetUint(Unread(t0, fd)) == Got(code, Unread(t1, fd))
    ensures forall more :: ErrorCodeIn(acts + more) == code && FitsWord(code)
  {
    assert acts[..0] == [] && Delivered([]) == [];
    assert Delivered(acts) == [] + acts[0].moved == acts[0].moved;
    UintAlone(Unread(t0, fd), acts[0].moved, Unread(t1, fd), code);
  }

  /** Reads the reply to a request that was sent: the code, then the message or the result. */
  method ReadReply(k: Kernel, cluster: Cluster, node: Node, r: Request, timeout: int) returns (rc: int, result: Result)
    requires k.Valid() && IsInt(timeout) && !r.Prologue? && node.fd >= 0
    modifies k`now, k`idle, k`calls, k`acts, k`table, k`closings, node`fd, cluster`lastError
    ensures k.Valid()
    ensures Shared(old(k.acts), k.acts, timeout)
    ensures node.fd == -1 || node.fd == old(node.fd)
    ensures var acts := k.acts[|old(k.acts)|..];
            && acts != [] && ReadsUntilFailure(acts, old(node.fd)) && rc == ReplyCode(acts)
            && (node.fd == -1 <==> FirstFailure(acts) != SUCCESS)
    // The bytes delivered, and what the caller is told of them.
    ensures node.fd != -1 ==>
              && Took(old(k.table), k.table, old(k.acts), k.acts, node.fd)
              && Relates(r, rc, result, cluster.lastError, Delivered(k.acts[|old(k.acts)|..]))
    ensures rc == SUCCESS ==> cluster.lastError == old(cluster.lastError)
    ensures node.fd == -1 ==> rc != SUCCESS && k.table == old(k.table) - {old(node.fd)}
    ensures node.fd != -1 ==> OnlyRead(old(k.table), k.table, node.fd)
    ensures node.fd != -1 && (rc == SUCCESS || !(r.WhoMaster? || r.Routing?)) ==>
              var reply := GetReply(r, Unread(old(k.table), node.fd));
              reply.Got? && reply.rest == Unread(k.table, node.fd) && Conveys(reply.value, r, rc, result, cluster.lastError)
    ensures node.fd != -1 && rc != SUCCESS && (r.WhoMaster? || r.Routing?) ==>
              var code := GetUint(Unread(old(k.table), node.fd));
              && code.Got? && code.value != 0 && rc == Signed(code.value)
              && code.rest == Unread(k.table, node.fd)
    ensures r.WhoMaster? || r.Routing? ==> cluster.lastError == old(cluster.lastError)
  {
    hide Consistent, Explains, Reads, Spends, Shared, ReadOn, ReadsUntilFailure, FirstFailure, ReplyCode, OnlyRead, GetUint,
      GetString, GetFields, Shows;
    hide Took, Relates, Delivered;
    ghost var io := SUCCESS;
    result := Nothing;
    ghost var t0, a0, fd := k.table, k.acts, node.fd;
    var code, left;
    rc, code, left := ReadUint32(k, node, timeout);
    ghost var t1, a1 := k.table, k.acts;
    ReadsSpends(t0, t1, a0, a1, fd, timeout, rc, left);
    ReadOnNone(a1, if rc == SUCCESS then fd else -1);
    if rc != SUCCESS {
      NotOpen(k.table, k.created, k.closings);
      if !(r.WhoMaster? || r.Routing?) {
        io := HandleErrorWhenClosed(k, cluster, node, rc, left);
        SharedMore(a0, a1, k.acts, timeout, left);
      }
      ReplyCut(a0, a1, k.acts, fd, rc, io);
      return;
    }
    OpenWhenRead(t0, t1, fd);
    ghost var budget := left;
    if code != 0 {
      rc := Signed(code);
      if !(r.WhoMaster? || r.Routing?) {
        io := HandleError(k, cluster, node, rc, left);
        SharedMore(a0, a1, k.acts, timeout, left);
        if node.fd == -1 {
          DroppedAnywayAfterRead(t0, t1, fd);
        } else {
          ReadsCompose(t0, t1, k.table, fd);
        }
      }
      ReplyReads(a0, a1, k.acts, t0, t1, fd, timeout, budget, code, io);
      if node.fd != -1 {
        if r.WhoMaster? || r.Routing? {
          TookNothing(t1, a1, fd);
        }
        TookMore(t0, t1, k.table, a0, a1, k.acts, fd);
        TookShows(t0, k.table, a0, k.acts, fd);
        ErrorRelates(r, Unread(t0, fd), Unread(t1, fd), Unread(k.table, fd), Delivered(k.acts[|a0|..]), code, result,
                     cluster.lastError);
      }
      return;
    }
    ghost var fs;
    rc, result, fs := ReadResult(k, node, r, left);
    SharedMore(a0, a1, k.acts, timeout, left);
    ReplyReads(a0, a1, k.acts, t0, t1, fd, timeout, budget, 0, rc);
    if rc != SUCCESS {
      DroppedAnywayAfterRead(t0, t1, fd);
      return;
    }
    ReadsCompose(t0, t1, k.table, fd);
    TookMore(t0, t1, k.table, a0, a1, k.acts, fd);
    TookShows(t0, k.table, a0, k.acts, fd);
    SuccessRelates(r, Unread(t0, fd), Unread(t1, fd), Unread(k.table, fd), Delivered(k.acts[|a0|..]), fs, result,
                   cluster.lastError);
  }

  /** The acts of a reply whose first read failed. */
  lemma ReplyCut(a0: seq<Act>, a1: seq<Act>, a2: seq<Act>, fd: int, rc: int, io: int)
    requires ReadOn(a0, a1, fd, rc) && |a1| == |a0| + 1 && ReadOn(a1, a2, -1, io) && rc != SUCCESS
    ensures a0 <= a2
    ensures var acts := a2[|a0|..];
            && acts != [] && ReadsUntilFailure(acts, fd)
            && FirstFailure(acts) == ReplyCode(acts) == rc
  {
    hide ReadOn, FirstFailure;
    ReadsInTwo(a0, a1, a2, fd, rc, -1, io);
  }

  /** The acts of a reply whose first read brought the code. */
  lemma ReplyReads(a0: seq<Act>, a1: seq<Act>, a2: seq<Act>, t0: map<int, Conn>, t1: map<int, Conn>, fd: int,
                   e0: int, e1: int, code: int, io: int)
    requires Reads(t0, t1, a0, a1, fd, e0, SUCCESS, e1) && |a1| == |a0| + 1 && ReadOn(a1, a2, fd, io)
    requires GetUint(Unread(t0, fd)) == Got(code, Unread(t1, fd))
    ensures a0 <= a2 && FitsWord(code)
    ensures var acts := a2[|a0|..];
            && acts != [] && ReadsUntilFailure(acts, fd) && FirstFailure(acts) == io
            && ReplyCode(acts) == if code != 0 then Signed(code) else io
  {
    hide FirstFailure, ErrorCodeIn, ReadsUntilFailure, Signed, GetUint, Delivered;
    ReadsSpends(t0, t1, a0, a1, fd, e0, SUCCESS, e1);
    ReadsInTwo(a0, a1, a2, fd, SUCCESS, fd, io);
    var x := a1[|a0|..];
    assert x[0] in x;
    CodeAlone(x, t0, t1, fd, code);
    SuffixSplits(a0, a1, a2);
  }

  lemma OpenWhenRead(a: map<int, Conn>, b: map<int, Conn>, fd: int)
    requires OnlyRead(a, b, fd)
    ensures fd in b
  {
  }

  lemma NotOpen(table: map<int, Conn>, created: nat, closings: seq<Closing>)
    requires Consistent(table, created, closings)
    ensures -1 !in table && table - {-1} == table
  {
  }

  /** After an I/O failure HANDLE_ERROR finds the connection gone and does nothing. */
  method HandleErrorWhenClosed(k: Kernel, cluster: Cluster, node: Node, rc: int, timeout: int)
    returns (ghost io: int)
    requires k.Valid() && IsInt(timeout) && node.fd == -1 && -1 !in k.table
    modifies k`now, k`idle, k`calls, k`acts, k`table, k`closings, node`fd, cluster`lastError
    ensures k.Valid() && node.fd == -1 && k.table == old(k.table) && cluster.lastError == old(cluster.lastError)
    ensures Shared(old(k.acts), k.acts, timeout) && ReadOn(old(k.acts), k.acts, -1, io)
  {
    hide Consistent, Explains, Reads, Spends, Shared, ReadOn, GetString;
    NotOpen(k.table, k.created, k.closings);
    io := HandleError(k, cluster, node, rc, timeout);
  }

  // ----- the request ----------------------------------------------------------

  /** How far a request has got that started at a message boundary: while bytes are missing
      the peer holds what was sent and has said nothing; then it has answered, once. */
  ghost predicate InFlight(start: Conn, now: Conn, log0: seq<Exchange>, log: seq<Exchange>, r: Request, sent: Bytes) {
    && sent <= PutRequest(r)
    && now.serial == start.serial
    && log0 <= log
    && if |sent| < |PutRequest(r)| then
         now.up == sent && now.down == [] && log == log0
       else
         && now.up == [] && |log| == |log0| + 1
         && log[|log0|].serial == start.serial && log[|log0|].request == r
         && ReplyFor(r, log[|log0|].reply)
         && now.down == PutReply(r, log[|log0|].reply)
  }

  lemma NothingInFlight(start: Conn, log: seq<Exchange>, r: Request)
    requires start.up == [] && start.down == []
    ensures InFlight(start, start, log, log, r, [])
  {
  }

  lemma EmptyIsNoRequest()
    ensures GetRequest([]).NoParse?
  {
  }

  lemma InFlightMore(start: Conn, c: Conn, d: Conn, log0: seq<Exchange>, log: seq<Exchange>, log': seq<Exchange>,
                     r: Request, sent: Bytes, more: Bytes)
    requires RequestFits(r) && InFlight(start, c, log0, log, r, sent)
    requires sent + more <= PutRequest(r)
    requires log <= log' && d.serial == c.serial && TookIn(c, d, more, log'[|log|..])
    ensures InFlight(start, d, log0, log', r, sent + more)
  {
    hide GetRequest, PutRequest, ReplyFor, RequestFits, PutReply;
    var full := PutRequest(r);
    var exchanges := log'[|log|..];
    if |sent| == |full| {
      assert more == [] && c.up + more == [];
      EmptyIsNoRequest();
      assert exchanges == [] && log' == log;
      assert sent + more == sent;
    } else if |sent + more| < |full| {
      assert full == (sent + more) + full[|sent + more|..];
      ProperPrefixIsIncomplete(r, sent + more, full[|sent + more|..]);
      assert exchanges == [] && log' == log;
    } else {
      assert c.up + more == full;
      OneRequestOneReply(r, exchanges, d.up);
      assert log' == log0 + exchanges;
    }
  }

  /** How a call ended, as seen from both sides; `taken` is the reply the peer gave, if the
      request reached it, to a request whose reply the client did not read. */
  datatype Ending =
    | NotSent
    | Dropped(taken: Option<Reply>)
    | Replied(reply: Reply)
    | LeftOpen(sent: nat, taken: Option<Reply>)

  /** What the peer has seen of a call. */
  function PeerSaw(serial: nat, r: Request, end: Ending): seq<Exchange> {
    match end
    case NotSent => []
    case Dropped(taken) => if taken.None? then [] else [Exchange(serial, r, taken.value)]
    case Replied(reply) => [Exchange(serial, r, reply)]
    case LeftOpen(_, taken) => if taken.None? then [] else [Exchange(serial, r, taken.value)]
  }

  /** The calls after which an open connection is out of step: a raw write that stopped part
      of the way or was reported as failed, and an error reply whose message is not read. */
  predicate Lapse(r: Request, end: Ending) {
    || (end.LeftOpen? && end.sent > 0)
    || (end.Replied? && end.reply.Failure? && (r.WhoMaster? || r.Routing?))
  }

  /** A call on an open connection that was at a message boundary. */
  ghost predicate Ended(end: Ending, r: Request, rc: int, fd: int, fdAfter: int,
                        before: map<int, Conn>, after: map<int, Conn>, log0: seq<Exchange>, log: seq<Exchange>)
  {
    && fd in before
    && log == log0 + PeerSaw(before[fd].serial, r, end)
    && match end
       case NotSent => false
       case Dropped(_) => rc != SUCCESS && fdAfter == -1 && after == before - {fd}
       case Replied(reply) =>
         && fdAfter == fd && OnlyStreams(before, after, fd) && ReplyFor(r, reply)
         && after[fd].up == [] && after[fd].down == Unheard(r, reply)
       case LeftOpen(sent, taken) =>
         && (r.Hello? || r.Version?) && rc != SUCCESS
         && fdAfter == fd && OnlyStreams(before, after, fd)
         && sent <= |PutRequest(r)|
         && if sent < |PutRequest(r)| then
              taken == None && after[fd].up == PutRequest(r)[..sent] && after[fd].down == []
            else
              taken.Some? && ReplyFor(r, taken.value) && after[fd].up == [] && after[fd].down == PutReply(r, taken.value)
  }

  /** What is left unread of a reply. */
  function Unheard(r: Request, reply: Reply): Bytes {
    if (r.WhoMaster? || r.Routing?) && reply.Failure? then PutString(reply.message) else []
  }

  /** An open connection is out of step after a call exactly if the call lapsed. */
  lemma OutOfStepIffLapse(end: Ending, r: Request, rc: int, fd: int, fdAfter: int,
                          before: map<int, Conn>, after: map<int, Conn>, log0: seq<Exchange>, log: seq<Exchange>)
    requires Ended(end, r, rc, fd, fdAfter, before, after, log0, log) && !end.Dropped? && !r.Prologue?
    ensures fd in after && (AtBoundary(after, fd) <==> !Lapse(r, end))
  {
    hide PutRequest, ReplyFor;
    RequestIsNotEmpty(r);
    if end.LeftOpen? && end.taken.Some? {
      ReplyIsNotEmpty(r, end.taken.value);
    }
  }

  /** Sends a request held in one buffer. */
  method SendBuffer(k: Kernel, node: Node, ghost r: Request, raw: bool, command: array<byte>, timeout: int)
    returns (rc: int, left: int, ghost end: Ending)
    requires k.Valid() && IsInt(timeout) && node.fd >= 0
    requires command[..] == PutRequest(r) && raw == (r.Hello? || r.Version?) && !r.Prologue?
    modifies k`now, k`idle, k`calls, k`acts, k`table, k`log, k`closings, node`fd, command
    ensures k.Valid() && IsInt(left) && old(k.log) <= k.log
    ensures Spends(old(k.acts), k.acts, timeout, left)
    ensures Writes(old(k.acts), k.acts, old(node.fd), PutRequest(r), rc)
    ensures !end.Replied?
    ensures node.fd == if rc == SUCCESS || raw then old(node.fd) else -1
    ensures node.fd != -1 ==> OnlyStreams(old(k.table), k.table, node.fd) && (rc == SUCCESS ==> node.fd in k.table)
    ensures k.honest && RequestFits(r) && AtBoundary(old(k.table), old(node.fd)) ==>
              if rc == SUCCESS then
                InFlight(old(k.table)[node.fd], k.table[node.fd], old(k.log), k.log, r, PutRequest(r))
              else
                Ended(end, r, rc, old(node.fd), node.fd, old(k.table), k.table, old(k.log), k.log)
    ensures old(node.fd) !in old(k.table) ==>
              rc != SUCCESS && end == NotSent && k.table == old(k.table) && k.log == old(k.log)
  {
    hide Consistent, Explains, Reads, Spends, Shared, OnlyStreams, TookIn, InFlight, Ended, PutRequest, RequestFits, Writes;
    end := NotSent;
    ghost var t0, log0, fd := k.table, k.log, node.fd;
    ghost var faithful := k.honest && RequestFits(r) && AtBoundary(t0, fd);
    RequestIsNotEmpty(r);
    ghost var act, reached;
    if raw {
      rc, left, act := PollWrite(k, node.fd, command, timeout);
      SpendsOne(old(k.acts), act);
      SameKeys(t0, k.table, fd);
      SerialKept(t0, k.table, fd);
      reached := if fd in k.table then k.table[fd] else Conn(0, false, false, [], []);
    } else {
      rc, left, act, reached := WriteBytes(k, node, command, timeout);
      SameKeysOnSuccess(t0, k.table, fd, rc);
    }
    WritesOne(old(k.acts), act, fd, PutRequest(r));
    if fd !in t0 {
      StaleChangesNothing(t0, k.table, fd);
    }
    if faithful {
      NothingInFlight(t0[fd], log0, r);
      assert [] + act.moved == act.moved;
      InFlightMore(t0[fd], t0[fd], reached, log0, log0, k.log, r, [], act.moved);
      if rc != SUCCESS {
        end := if raw then LeftOpen(|act.moved|, TakenReply(log0, k.log)) else Dropped(TakenReply(log0, k.log));
        StoppedShort(t0, k.table, log0, k.log, r, rc, fd, node.fd, reached, act.moved, end);
      }
    }
  }

  /** A descriptor that is not open carries nothing. */
  lemma StaleChangesNothing(a: map<int, Conn>, b: map<int, Conn>, fd: int)
    requires fd !in a && (OnlyStreams(a, b, fd) || b == a - {fd})
    ensures b == a
  {
    assert b.Keys == a.Keys;
    assert forall f :: f in a ==> b[f] == a[f];
  }

  lemma SameKeysOnSuccess(a: map<int, Conn>, b: map<int, Conn>, fd: int, rc: int)
    requires rc == SUCCESS ==> OnlyStreams(a, b, fd)
    ensures rc == SUCCESS ==> (fd in a <==> fd in b)
  {
  }

  lemma RequestIsNotEmpty(r: Request)
    ensures |PutRequest(r)| >= 4
  {
  }

  /** The reply the peer has given to the request of this call, if it has. */
  function TakenReply(log0: seq<Exchange>, log: seq<Exchange>): Option<Reply> {
    if |log| == |log0| + 1 then Some(log[|log0|].reply) else None
  }

  lemma StoppedShort(t0: map<int, Conn>, t1: map<int, Conn>, log0: seq<Exchange>, log: seq<Exchange>, r: Request,
                     rc: int, fd: int, fdAfter: int, reached: Conn, sent: Bytes, end: Ending)
    requires fd in t0 && !r.Prologue? && rc != SUCCESS
    requires InFlight(t0[fd], reached, log0, log, r, sent)
    requires if r.Hello? || r.Version? then
               && end == LeftOpen(|sent|, TakenReply(log0, log))
               && fdAfter == fd && OnlyStreams(t0, t1, fd) && t1[fd] == reached
             else end == Dropped(TakenReply(log0, log)) && fdAfter == -1 && t1 == t0 - {fd}
    ensures Ended(end, r, rc, fd, fdAfter, t0, t1, log0, log)
  {
    hide PutRequest, ReplyFor;
    RequestIsNotEmpty(r);
    assert |sent| < |PutRequest(r)| ==> log == log0;
    if |sent| == |PutRequest(r)| {
      ReplyIsNotEmpty(r, log[|log0|].reply);
      assert log == log0 + [log[|log0|]];
    }
  }

  lemma ReplyIsNotEmpty(r: Request, reply: Reply)
    requires !r.Prologue?
    ensures PutReply(r, reply) != []
  {
  }

  // ----- multi_get: the request in pieces -------------------------------------

  /** The header, then each key as its length and its bytes, is one whole command. */
  lemma MultiGetLayout(dirty: bool, keys: seq<Bytes>)
    ensures PutRequest(MultiGet(dirty, keys))
         == Command(0x11) + PutFields([Flag(dirty), Uint32(|keys|)]) + PutStrings(keys)
  {
    hide PutStrings, PutFields, PutWord, Command;
    var list := PutStrings(keys);
    PutFieldsSnoc([Flag(dirty)], Uint32(|keys|));
    PutFieldsSnoc([Flag(dirty)], Texts(keys));
    assert [Flag(dirty)] + [Uint32(|keys|)] == [Flag(dirty), Uint32(|keys|)];
    assert [Flag(dirty)] + [Texts(keys)] == [Flag(dirty), Texts(keys)];
    assert PutField(Texts(keys)) == PutWord(|keys|) + list;
    assert PutField(Uint32(|keys|)) == PutWord(|keys|);
    assert PutRequest(MultiGet(dirty, keys)) == Command(0x11) + PutFields([Flag(dirty), Texts(keys)]);
    Regroup(Command(0x11), PutFields([Flag(dirty)]), PutWord(|keys|), list);
  }

  /** The bytes sent once the header and the first n keys are out. */
  ghost function SentSoFar(dirty: bool, keys: seq<Bytes>, n: nat): Bytes
    requires n <= |keys|
  {
    Command(0x11) + PutFields([Flag(dirty), Uint32(|keys|)]) + PutStrings(keys[..n])
  }

  lemma SentAll(dirty: bool, keys: seq<Bytes>)
    ensures SentSoFar(dirty, keys, |keys|) == PutRequest(MultiGet(dirty, keys))
  {
    MultiGetLayout(dirty, keys);
    assert keys[..|keys|] == keys;
  }

  /** The next key's length, and then the key, continue the command. */
  lemma NextKey(dirty: bool, keys: seq<Bytes>, n: nat)
    requires n < |keys|
    ensures var sent, whole := SentSoFar(dirty, keys, n), PutRequest(MultiGet(dirty, keys));
            && sent + PutWord(|keys[n]|) <= whole
            && sent + PutWord(|keys[n]|) + keys[n] == SentSoFar(dirty, keys, n + 1) <= whole
  {
    hide PutWord, PutFields, Command, PutStrings, PutRequest;
    MultiGetLayout(dirty, keys);
    var header := Command(0x11) + PutFields([Flag(dirty), Uint32(|keys|)]);
    assert keys[..n + 1] == keys[..n] + [keys[n]];
    assert keys == keys[..n] + [keys[n]] + keys[n + 1..];
    PutStringsSplit(keys[..n], keys[n], keys[n + 1..]);
    SplitAt(header, PutStrings(keys[..n]), PutWord(|keys[n]|), keys[n], PutStrings(keys[n + 1..]));
  }

  lemma SplitAt(a: Bytes, b: Bytes, c: Bytes, d: Bytes, e: Bytes)
    ensures a + b + c <= a + (b + (c + d) + e)
    ensures a + b + c + d == a + (b + (c + d)) <= a + (b + (c + d) + e)
  {
  }

  method ToArray(bytes: Bytes) returns (a: array<byte>)
    ensures fresh(a) && a[..] == bytes
  {
    a := new byte[|bytes|](i requires 0 <= i < |bytes| => bytes[i]);
  }

  /** One piece of a request: WRITE_BYTES, or the connection is dropped. */
  method SendPiece(k: Kernel, node: Node, piece: array<byte>, timeout: int,
                   ghost r: Request, ghost t0: map<int, Conn>, ghost log0: seq<Exchange>, ghost a0: seq<Act>,
                   ghost sent: Bytes)
    returns (rc: int, left: int, ghost end: Ending)
    requires k.Valid() && IsInt(timeout) && node.fd >= 0 && !r.Prologue? && !(r.Hello? || r.Version?)
    requires node.fd in t0 ==> node.fd in k.table
    requires OnlyStreams(t0, k.table, node.fd) && sent + piece[..] <= PutRequest(r)
    requires k.honest && RequestFits(r) && AtBoundary(t0, node.fd) ==>
               InFlight(t0[node.fd], k.table[node.fd], log0, k.log, r, sent)
    requires Writes(a0, k.acts, node.fd, sent, SUCCESS)
    modifies k`now, k`idle, k`calls, k`acts, k`table, k`log, k`closings, node`fd, piece
    ensures k.Valid() && IsInt(left) && piece[..] == old(piece[..]) && old(k.log) <= k.log
    ensures Spends(old(k.acts), k.acts, timeout, left)
    ensures Writes(a0, k.acts, old(node.fd), sent + piece[..], rc)
    ensures !end.Replied?
    ensures rc != SUCCESS ==> node.fd == -1 && k.table == t0 - {old(node.fd)}
    ensures rc == SUCCESS ==> node.fd == old(node.fd) && OnlyStreams(t0, k.table, node.fd)
                              && (node.fd in t0 ==> node.fd in k.table) && (piece.Length > 0 ==> node.fd in k.table)
    ensures k.honest && RequestFits(r) && AtBoundary(t0, old(node.fd)) ==>
              if rc == SUCCESS then InFlight(t0[node.fd], k.table[node.fd], log0, k.log, r, sent + piece[..])
              else Ended(end, r, rc, old(node.fd), node.fd, t0, k.table, log0, k.log)
    ensures old(node.fd) !in t0 && piece.Length > 0 ==> rc != SUCCESS && end == NotSent && k.log == old(k.log)
  {
    hide Consistent, Explains, Reads, Spends, Shared, OnlyStreams, TookIn, InFlight, Ended, PutRequest, RequestFits, Writes;
    end := NotSent;
    ghost var fd, t, log := node.fd, k.table, k.log;
    ghost var act, reached;
    ghost var faithful := k.honest && RequestFits(r) && AtBoundary(t0, fd);
    SameKeys(t0, t, fd);
    rc, left, act, reached := WriteBytes(k, node, piece, timeout);
    WritesMore(a0, old(k.acts), act, fd, sent, piece[..]);
    if rc == SUCCESS {
      StreamsCompose(t0, t, k.table, fd);
      SameKeys(t, k.table, fd);
    } else {
      DroppedAnyway(t0, t, fd);
    }
    if faithful {
      PrefixOfPiece(sent, piece[..], act.moved, PutRequest(r));
      InFlightMore(t0[fd], t[fd], reached, log0, log, k.log, r, sent, act.moved);
      if rc != SUCCESS {
        end := Dropped(TakenReply(log0, k.log));
        StoppedShort(t0, k.table, log0, k.log, r, rc, fd, node.fd, reached, sent + act.moved, end);
      }
    }
  }

  lemma PrefixOfPiece(sent: Bytes, piece: Bytes, part: Bytes, whole: Bytes)
    requires sent + piece <= whole && part <= piece
    ensures sent + part <= whole
  {
  }

  lemma StreamsCompose(a: map<int, Conn>, b: map<int, Conn>, c: map<int, Conn>, fd: int)
    requires OnlyStreams(a, b, fd) && OnlyStreams(b, c, fd)
    ensures OnlyStreams(a, c, fd)
  {
  }

  lemma StreamsSame(a: map<int, Conn>, fd: int)
    ensures OnlyStreams(a, a, fd)
  {
  }

  /** One key: four bytes of length, then the key, which may be empty. */
  method SendKey(k: Kernel, node: Node, key: Bytes, timeout: int, ghost dirty: bool, ghost keys: seq<Bytes>, ghost n: nat,
                 ghost t0: map<int, Conn>, ghost log0: seq<Exchange>, ghost a0: seq<Act>)
    returns (rc: int, left: int, ghost end: Ending)
    requires k.Valid() && IsInt(timeout) && node.fd >= 0 && n < |keys| && key == keys[n]
    requires node.fd in t0 && node.fd in k.table && OnlyStreams(t0, k.table, node.fd)
    requires k.honest && RequestFits(MultiGet(dirty, keys)) && AtBoundary(t0, node.fd) ==>
               InFlight(t0[node.fd], k.table[node.fd], log0, k.log, MultiGet(dirty, keys), SentSoFar(dirty, keys, n))
    requires Writes(a0, k.acts, node.fd, SentSoFar(dirty, keys, n), SUCCESS)
    modifies k`now, k`idle, k`calls, k`acts, k`table, k`log, k`closings, node`fd
    ensures k.Valid() && IsInt(left) && old(k.log) <= k.log
    ensures Spends(old(k.acts), k.acts, timeout, left)
    ensures Writes(a0, k.acts, old(node.fd), SentSoFar(dirty, keys, n + 1), rc)
    ensures !end.Replied?
    ensures rc != SUCCESS ==> node.fd == -1 && k.table == t0 - {old(node.fd)}
    ensures rc == SUCCESS ==> node.fd == old(node.fd) && node.fd in k.table && OnlyStreams(t0, k.table, node.fd)
    ensures k.honest && RequestFits(MultiGet(dirty, keys)) && AtBoundary(t0, old(node.fd)) ==>
              if rc == SUCCESS then
                InFlight(t0[node.fd], k.table[node.fd], log0, k.log, MultiGet(dirty, keys), SentSoFar(dirty, keys, n + 1))
              else Ended(end, MultiGet(dirty, keys), rc, old(node.fd), node.fd, t0, k.table, log0, k.log)
  {
    hide Consistent, Explains, Reads, Spends, Shared, OnlyStreams, InFlight, Ended, PutRequest, RequestFits, SentSoFar, PutWord,
      Writes;
    ghost var r := MultiGet(dirty, keys);
    NextKey(dirty, keys, n);
    ghost var sent := SentSoFar(dirty, keys, n);
    var piece := ToArray(PutWord(|key|));
    rc, left, end := SendPiece(k, node, piece, timeout, r, t0, log0, a0, sent);
    if rc != SUCCESS {
      WritesOf(a0, k.acts, old(node.fd), sent + PutWord(|key|), SentSoFar(dirty, keys, n + 1), rc);
      return;
    }
    ghost var acts, budget := k.acts, left;
    piece := ToArray(key);
    rc, left, end := SendPiece(k, node, piece, left, r, t0, log0, a0, sent + PutWord(|key|));
    SpendsMore(old(k.acts), acts, k.acts, timeout, budget, left);
  }

  /** FOR_ARAKOON_VALUE_ITER over the keys. No key ends the loop early, however short, because
      only the end of the list is NULL. */
  method SendKeys(k: Kernel, node: Node, keys: ValueLists.ValueList, timeout: int, ghost dirty: bool,
                  ghost t0: map<int, Conn>, ghost log0: seq<Exchange>, ghost a0: seq<Act>)
    returns (rc: int, left: int, ghost end: Ending)
    requires k.Valid() && IsInt(timeout) && node.fd >= 0 && keys.Valid()
    requires node.fd in t0 && node.fd in k.table && OnlyStreams(t0, k.table, node.fd)
    requires var values := keys.Contents();
             k.honest && RequestFits(MultiGet(dirty, values)) && AtBoundary(t0, node.fd) ==>
               InFlight(t0[node.fd], k.table[node.fd], log0, k.log, MultiGet(dirty, values), SentSoFar(dirty, values, 0))
    requires Writes(a0, k.acts, node.fd, SentSoFar(dirty, keys.Contents(), 0), SUCCESS)
    modifies k`now, k`idle, k`calls, k`acts, k`table, k`log, k`closings, node`fd
    ensures k.Valid() && IsInt(left) && old(k.log) <= k.log
    ensures Spends(old(k.acts), k.acts, timeout, left)
    ensures Writes(a0, k.acts, old(node.fd), PutRequest(MultiGet(dirty, keys.Contents())), rc)
    ensures !end.Replied?
    ensures rc != SUCCESS ==> node.fd == -1 && k.table == t0 - {old(node.fd)}
    ensures rc == SUCCESS ==> node.fd == old(node.fd) && node.fd in k.table && OnlyStreams(t0, k.table, node.fd)
    ensures var values := keys.Contents();
            k.honest && RequestFits(MultiGet(dirty, values)) && AtBoundary(t0, old(node.fd)) ==>
              if rc == SUCCESS then
                InFlight(t0[node.fd], k.table[node.fd], log0, k.log, MultiGet(dirty, values),
                         SentSoFar(dirty, values, |values|))
              else Ended(end, MultiGet(dirty, values), rc, old(node.fd), node.fd, t0, k.table, log0, k.log)
  {
    hide Consistent, Explains, Reads, Spends, Shared, OnlyStreams, InFlight, Ended, RequestFits, SentSoFar, AtBoundary, Writes,
      PutRequest,
      ValueLists.ValueList.Valid, ValueLists.ValueList.Contents, ValueLists.ValueListIter.Remaining,
      ValueLists.ValueListIter.Valid;
    ghost var fd, values := node.fd, keys.Contents();
    ghost var r := MultiGet(dirty, values);
    rc, left, end := SUCCESS, timeout, NotSent;
    SpendsNothing(k.acts, timeout);
    var iter := new ValueLists.ValueListIter(keys);
    ghost var n := 0;
    var value := iter.Next();
    ghost var rest := iter.Remaining();
    while value != None
      invariant k.Valid() && IsInt(left) && rc == SUCCESS && node.fd == fd && fd in k.table && fd in t0
      invariant keys.Valid() && keys.Contents() == values
      invariant iter.Valid() && iter.list == keys
      invariant n <= |values|
      invariant value == None ==> n == |values|
      invariant rest == iter.Remaining()
      invariant value != None ==> n < |values| && value.value == values[n] && rest == values[n + 1..]
      invariant old(k.log) <= k.log && OnlyStreams(t0, k.table, fd) && !end.Replied?
      invariant Spends(old(k.acts), k.acts, timeout, left)
      invariant Writes(a0, k.acts, fd, SentSoFar(dirty, values, n), SUCCESS)
      invariant k.honest && RequestFits(r) && AtBoundary(t0, fd) ==>
                  InFlight(t0[fd], k.table[fd], log0, k.log, r, SentSoFar(dirty, values, n))
      decreases |values| - n
    {
      ghost var acts, budget := k.acts, left;
      rc, left, end := SendKey(k, node, value.value, left, dirty, values, n, t0, log0, a0);
      SpendsMore(old(k.acts), acts, k.acts, timeout, budget, left);
      NextKey(dirty, values, n);
      if rc != SUCCESS {
        WritesOf(a0, k.acts, fd, SentSoFar(dirty, values, n + 1), PutRequest(r), rc);
        return;
      }
      assert rest == iter.Remaining();
      Remainder(values, n);
      n := n + 1;
      value := iter.Next();
      rest := if rest == [] then [] else rest[1..];
    }
    SentAll(dirty, values);
  }

  /** Sends the keys of a list, each as two writes, after a header that counts them. */
  method SendMultiGet(k: Kernel, node: Node, dirty: bool, keys: ValueLists.ValueList, timeout: int)
    returns (rc: int, left: int, ghost end: Ending)
    requires k.Valid() && IsInt(timeout) && node.fd >= 0 && keys.Valid()
    modifies k`now, k`idle, k`calls, k`acts, k`table, k`log, k`closings, node`fd
    ensures k.Valid() && IsInt(left) && old(k.log) <= k.log
    ensures Spends(old(k.acts), k.acts, timeout, left)
    ensures Writes(old(k.acts), k.acts, old(node.fd), PutRequest(MultiGet(dirty, keys.Contents())), rc)
    ensures !end.Replied?
    ensures node.fd == if rc == SUCCESS then old(node.fd) else -1
    ensures rc == SUCCESS ==> node.fd == old(node.fd) && node.fd in k.table && OnlyStreams(old(k.table), k.table, node.fd)
    ensures var r := MultiGet(dirty, keys.Contents());
            k.honest && RequestFits(r) && AtBoundary(old(k.table), old(node.fd)) ==>
              if rc == SUCCESS then
                InFlight(old(k.table)[node.fd], k.table[node.fd], old(k.log), k.log, r, PutRequest(r))
              else
                Ended(end, r, rc, old(node.fd), node.fd, old(k.table), k.table, old(k.log), k.log)
    ensures old(node.fd) !in old(k.table) ==>
              rc != SUCCESS && end == NotSent && k.table == old(k.table) && k.log == old(k.log)
  {
    hide Consistent, Explains, Reads, Spends, Shared, OnlyStreams, InFlight, Ended, PutRequest, RequestFits, SentSoFar,
      PutWord, PutFields, Command, ValueLists.ValueList.Valid, ValueLists.ValueList.Contents, AtBoundary, Writes;
    ghost var t0, log0, fd, values := k.table, k.log, node.fd, keys.Contents();
    ghost var r := MultiGet(dirty, values);
    var count := keys.GetSize();
    var piece := BuildMultiGetHeader(dirty, count);
    StreamsSame(t0, fd);
    HeaderFirst(dirty, values, piece[..]);
    if AtBoundary(t0, fd) {
      StartInFlight(t0, fd, log0, r);
    }
    NothingWritten(k.acts, fd);
    rc, left, end := SendPiece(k, node, piece, timeout, r, t0, log0, k.acts, []);
    if rc != SUCCESS {
      WritesOf(old(k.acts), k.acts, fd, [] + piece[..], PutRequest(r), rc);
      if fd !in t0 {
        StaleChangesNothing(t0, k.table, fd);
      }
      return;
    }
    SameKeys(t0, k.table, fd);
    ghost var acts, budget := k.acts, left;
    rc, left, end := SendKeys(k, node, keys, left, dirty, t0, log0, old(k.acts));
    SpendsMore(old(k.acts), acts, k.acts, timeout, budget, left);
    SentAll(dirty, values);
  }

  lemma Remainder(values: seq<Bytes>, n: nat)
    requires n < |values|
    ensures values[n + 1..] == [] <==> n + 1 == |values|
    ensures n + 1 < |values| ==> values[n + 1..][0] == values[n + 1] && values[n + 1..][1..] == values[n + 2..]
  {
  }

  lemma StartInFlight(t0: map<int, Conn>, fd: int, log: seq<Exchange>, r: Request)
    requires AtBoundary(t0, fd)
    ensures fd in t0 && InFlight(t0[fd], t0[fd], log, log, r, [])
  {
  }

  lemma HeaderFirst(dirty: bool, keys: seq<Bytes>, header: Bytes)
    requires header == Command(0x11) + PutFields([Flag(dirty), Uint32(|keys|)])
    ensures [] + header == SentSoFar(dirty, keys, 0) && [] + header <= PutRequest(MultiGet(dirty, keys))
  {
    MultiGetLayout(dirty, keys);
    assert keys[..0] == [];
  }

  // ----- whole calls ----------------------------------------------------------

  datatype Operation =
    | Simple(request: Request, stray0: nat, stray1: nat)
    | SendSequence(synced: bool, sequence: SequenceBuilder.ArakoonSequence)
    | FetchMany(dirty: bool, keys: ValueLists.ValueList)

  ghost predicate Callable(op: Operation)
    reads if op.SendSequence? then {op.sequence} else {}
    reads if op.FetchMany? then {op.keys} else {}
    reads if op.FetchMany? then op.keys.spine else []
  {
    match op
    case Simple(r, _, _) => InOneBuffer(r) && !r.Prologue?
    case SendSequence(_, sequence) => sequence.Valid()
    case FetchMany(_, keys) => keys.Valid()
  }

  ghost function RequestOf(op: Operation): Request
    reads if op.SendSequence? then {op.sequence} else {}
    reads if op.FetchMany? then {op.keys} else {}
  {
    match op
    case Simple(r, _, _) => r
    case SendSequence(synced, sequence) => SequenceBuilder.SequenceRequest(synced, sequence.Calls())
    case FetchMany(dirty, keys) => MultiGet(dirty, keys.Contents())
  }

  /** A call that can be made: its lengths and counts fit their words. */
  ghost predicate Sendable(op: Operation)
    reads if op.SendSequence? then {op.sequence} else {}
    reads if op.FetchMany? then {op.keys} else {}
    reads if op.FetchMany? then op.keys.spine else []
  {
    Callable(op) && RequestFits(RequestOf(op))
  }

  lemma SendableShows(op: Operation)
    requires Sendable(op)
    ensures Callable(op) && RequestFits(RequestOf(op))
  {
  }

  /** Builds and sends the operation's request. */
  method Send(k: Kernel, node: Node, op: Operation, timeout: int) returns (rc: int, left: int, ghost end: Ending)
    requires k.Valid() && IsInt(timeout) && node.fd >= 0 && Callable(op)
    modifies k`now, k`idle, k`calls, k`acts, k`table, k`log, k`closings, node`fd
    ensures k.Valid() && IsInt(left) && old(k.log) <= k.log
    ensures Spends(old(k.acts), k.acts, timeout, left)
    ensures Writes(old(k.acts), k.acts, old(node.fd), PutRequest(old(RequestOf(op))), rc)
    ensures !end.Replied?
    ensures var r := old(RequestOf(op));
            node.fd == if rc == SUCCESS || r.Hello? || r.Version? then old(node.fd) else -1
    ensures node.fd != -1 ==> OnlyStreams(old(k.table), k.table, node.fd) && (rc == SUCCESS ==> node.fd in k.table)
    ensures var r := old(RequestOf(op));
            k.honest && RequestFits(r) && AtBoundary(old(k.table), old(node.fd)) ==>
              if rc == SUCCESS then
                InFlight(old(k.table)[node.fd], k.table[node.fd], old(k.log), k.log, r, PutRequest(r))
              else
                Ended(end, r, rc, old(node.fd), node.fd, old(k.table), k.table, old(k.log), k.log)
    ensures old(node.fd) !in old(k.table) ==>
              rc != SUCCESS && end == NotSent && k.table == old(k.table) && k.log == old(k.log)
  {
    hide Consistent, Explains, Reads, Spends, Shared, OnlyStreams, InFlight, Ended, PutRequest, RequestFits, AtBoundary, Writes;
    match op {
      case Simple(r, stray0, stray1) =>
        var command := BuildCommand(r, stray0, stray1);
        rc, left, end := SendBuffer(k, node, r, r.Hello? || r.Version?, command, timeout);
      case SendSequence(synced, sequence) =>
        var command := SequenceBuilder.EncodeSequence(synced, sequence);
        ghost var r := SequenceBuilder.SequenceRequest(synced, sequence.Calls());
        rc, left, end := SendBuffer(k, node, r, false, command, timeout);
      case FetchMany(dirty, keys) =>
        rc, left, end := SendMultiGet(k, node, dirty, keys, timeout);
    }
  }

  /** A request that is out and a reply that was read bring the connection back to a message
      boundary, unless the reply was an error whose message was left unread. */
  lemma ReplyEndsCall(t0: map<int, Conn>, t1: map<int, Conn>, t2: map<int, Conn>, fd: int,
                      log0: seq<Exchange>, log: seq<Exchange>, r: Request, rc: int)
    requires fd in t0 && fd in t1 && !r.Prologue? && OnlyStreams(t0, t1, fd) && OnlyRead(t1, t2, fd)
    requires InFlight(t0[fd], t1[fd], log0, log, r, PutRequest(r))
    requires rc == SUCCESS || !(r.WhoMaster? || r.Routing?) ==>
               GetReply(r, Unread(t1, fd)).Got? && GetReply(r, Unread(t1, fd)).rest == Unread(t2, fd)
    requires rc == SUCCESS ==> GetReply(r, Unread(t1, fd)).value.Success?
    requires rc != SUCCESS && (r.WhoMaster? || r.Routing?) ==>
               var code := GetUint(Unread(t1, fd));
               code.Got? && code.value != 0 && rc == Signed(code.value) && code.rest == Unread(t2, fd)
    ensures |log| == |log0| + 1 && log0 <= log
    ensures var reply := log[|log0|].reply;
            && Ended(Replied(reply), r, rc, fd, fd, t0, t2, log0, log)
            && (rc == SUCCESS || !(r.WhoMaster? || r.Routing?) ==> GetReply(r, Unread(t1, fd)).value == reply)
            && (rc != SUCCESS && (r.WhoMaster? || r.Routing?) ==>
                  reply.Failure? && FitsWord(reply.code) && reply.code != 0 && rc == Signed(reply.code))
  {
    hide GetRequest, PutRequest, GetReply, PutReply, GetUint, PutString, Signed;
    var reply := log[|log0|].reply;
    WholeReply(r, reply);
    ReplyStartsWithCode(r, reply);
    ThenRead(t0, t1, t2, fd);
    assert log == log0 + [log[|log0|]];
  }

  /** The request as far as its reply's form goes. */
  function Shape(op: Operation): Request {
    match op
    case Simple(r, _, _) => r
    case SendSequence(_, _) => Sequence([])
    case FetchMany(dirty, _) => MultiGet(dirty, [])
  }

  lemma ShapeAgrees(op: Operation)
    requires Callable(op)
    ensures !Shape(op).Prologue? && !RequestOf(op).Prologue?
    ensures (Shape(op).WhoMaster? || Shape(op).Routing?) == (RequestOf(op).WhoMaster? || RequestOf(op).Routing?)
    ensures forall s :: GetReply(Shape(op), s) == GetReply(RequestOf(op), s)
    ensures SameKind(Shape(op), RequestOf(op))
  {
    hide GetUint, GetFields, GetString;
    assert ReplySchema(Shape(op)) == ReplySchema(RequestOf(op));
  }

  lemma DroppedAfterSend(t0: map<int, Conn>, t1: map<int, Conn>, fd: int, log0: seq<Exchange>, log: seq<Exchange>,
                         r: Request, rc: int)
    requires fd in t0 && fd in t1 && OnlyStreams(t0, t1, fd) && rc != SUCCESS
    requires InFlight(t0[fd], t1[fd], log0, log, r, PutRequest(r))
    ensures Ended(Dropped(TakenReply(log0, log)), r, rc, fd, -1, t0, t1 - {fd}, log0, log)
  {
    hide PutRequest, ReplyFor, PutReply;
    DroppedAnyway(t0, t1, fd);
    assert log == log0 + [log[|log0|]];
  }

  /** The acts of a call, for any peer: the request is written, until a write fails; then the
      reply is read, until a read fails. The code is that of the first act that failed, or the
      peer's. The connection is dropped exactly if an act failed, unless that was a raw write. */
  ghost predicate Did(acts: seq<Act>, fd: int, r: Request, rc: int, fdAfter: int) {
    if fd < 0 then acts == [] && rc == 0x400 && fdAfter == fd
    else exists n :: 0 < n <= |acts| && WroteThenRead(acts[..n], acts[n..], fd, r, rc, fdAfter)
  }

  ghost predicate WroteThenRead(question: seq<Act>, answer: seq<Act>, fd: int, r: Request, rc: int, fdAfter: int) {
    && AllWrites(question, fd) && Delivered(question) <= PutRequest(r)
    && Outcome(question, FirstFailure(question))
    && if FirstFailure(question) != SUCCESS then
         && answer == [] && rc == FirstFailure(question)
         && fdAfter == if r.Hello? || r.Version? then fd else -1
       else
         && Delivered(question) == PutRequest(r)
         && answer != [] && ReadsUntilFailure(answer, fd) && rc == ReplyCode(answer)
         && fdAfter == if FirstFailure(answer) != SUCCESS then -1 else fd
  }

  lemma DidNothing(fd: int, r: Request)
    requires fd < 0
    ensures Did([], fd, r, NOT_CONNECTED, fd)
  {
  }

  lemma DidNotSend(a0: seq<Act>, a1: seq<Act>, fd: int, r: Request, rc: int, fdAfter: int)
    requires Writes(a0, a1, fd, PutRequest(r), rc) && rc != SUCCESS && fd >= 0
    requires fdAfter == if r.Hello? || r.Version? then fd else -1
    ensures Did(a1[|a0|..], fd, r, rc, fdAfter) && FirstFailure(a1[|a0|..]) == rc
  {
    hide Delivered, AllWrites, PutRequest, ReplyCode, ReadsUntilFailure, FirstFailure;
    var acts := a1[|a0|..];
    OutcomeIsFirstFailure(acts, rc);
    assert acts[..|acts|] == acts && acts[|acts|..] == [];
    assert WroteThenRead(acts[..|acts|], acts[|acts|..], fd, r, rc, fdAfter);
  }

  lemma DidSend(a0: seq<Act>, a1: seq<Act>, a2: seq<Act>, fd: int, r: Request, rc: int, fdAfter: int)
    requires Writes(a0, a1, fd, PutRequest(r), SUCCESS) && a1 <= a2 && fd >= 0
    requires var answer := a2[|a1|..];
             && answer != [] && ReadsUntilFailure(answer, fd) && rc == ReplyCode(answer)
             && fdAfter == if FirstFailure(answer) != SUCCESS then -1 else fd
    ensures a0 <= a2 && Did(a2[|a0|..], fd, r, rc, fdAfter)
    ensures FirstFailure(a2[|a0|..]) == SUCCESS <==> fdAfter == fd
  {
    hide AllWrites, PutRequest, ReplyCode, ReadsUntilFailure, FirstFailure;
    var question, answer, acts := a1[|a0|..], a2[|a1|..], a2[|a0|..];
    SuffixSplits(a0, a1, a2);
    OutcomeIsFirstFailure(question, SUCCESS);
    FirstFailureMore(question, answer);
    assert question != [] by {
      RequestIsNotEmpty(r);
    }
    assert acts[..|question|] == question && acts[|question|..] == answer;
    assert WroteThenRead(acts[..|question|], acts[|question|..], fd, r, rc, fdAfter);
  }

  /** The bytes that a call moved when no act of it failed: the request, and the reply as far as
      it was read, of which the caller is told. */
  ghost predicate Exchanged(acts: seq<Act>, r: Request, rc: int, result: Result, lastError: Option<Bytes>)
    reads if result.Values? then {result.values} else {}
    reads if result.Values? then result.values.spine else []
    reads if result.Entries? then {result.entries} else {}
  {
    exists got :: Delivered(acts) == RequestLayout(r) + got && Relates(r, rc, result, lastError, got)
  }

  lemma ExchangedInTwo(a0: seq<Act>, a1: seq<Act>, a2: seq<Act>, fd: int, r: Request, shape: Request,
                       rc: int, result: Result, error: Option<Bytes>)
    requires Writes(a0, a1, fd, PutRequest(r), SUCCESS) && a1 <= a2
    requires Relates(shape, rc, result, error, Delivered(a2[|a1|..]))
    requires SameKind(shape, r)
    ensures a0 <= a2 && Exchanged(a2[|a0|..], r, rc, result, error)
  {
    hide Delivered, AllWrites, Outcome, PutRequest, RequestLayout, Relates;
    SuffixSplits(a0, a1, a2);
    DeliveredMore(a1[|a0|..], a2[|a1|..]);
    RequestLaidOut(r);
    var got := Delivered(a2[|a1|..]);
    RelatesKind(shape, r, rc, result, error, got);
    assert Relates(r, rc, result, error, got);
  }

  /** The same command, whatever it carries. */
  predicate SameKind(a: Request, b: Request) {
    a == b || (a.Sequence? && (b.Sequence? || b.SyncedSequence?)) || (a.MultiGet? && b.MultiGet?)
  }

  lemma RelatesKind(a: Request, b: Request, rc: int, result: Result, error: Option<Bytes>, got: Bytes)
    requires SameKind(a, b) && Relates(a, rc, result, error, got)
    ensures Relates(b, rc, result, error, got)
  {
    hide GetWord, ReportsValues, ReportsEntries;
  }

  /** An error reply that was read: its message is the last error and the connection is at a
      boundary again, or, after who_master and the routing query, it is left unread. */
  lemma ErrorLeaves(end: Ending, r: Request, rc: int, fd: int, fdAfter: int, before: map<int, Conn>, after: map<int, Conn>,
                    log0: seq<Exchange>, log: seq<Exchange>, result: Result, error: Option<Bytes>)
    requires Ended(end, r, rc, fd, fdAfter, before, after, log0, log) && end.Replied? && end.reply.Failure?
    requires Conveys(end.reply, r, rc, result, error)
    ensures fdAfter == fd && fd in after
    ensures if r.WhoMaster? || r.Routing? then after[fd].up == [] && after[fd].down == StringLayout(end.reply.message)
            else error == Some(end.reply.message) && AtBoundary(after, fd)
  {
    hide ReplyFor, PutRequest, PutReply;
  }

  /** One call on a node with a descriptor: send, then read the reply. */
  method CallNode(k: Kernel, cluster: Cluster, node: Node, op: Operation, timeout: int)
    returns (rc: int, result: Result, ghost end: Ending)
    requires k.Valid() && IsInt(timeout) && Callable(op) && node.fd >= 0
    modifies k`now, k`idle, k`calls, k`acts, k`table, k`log, k`closings, cluster`lastError, node`fd
    ensures k.Valid() && Shared(old(k.acts), k.acts, timeout) && old(k.log) <= k.log
    ensures Did(k.acts[|old(k.acts)|..], old(node.fd), old(RequestOf(op)), rc, node.fd)
    ensures node.fd == -1 || (node.fd == old(node.fd) && OnlyStreams(old(k.table), k.table, node.fd))
    ensures var r := old(RequestOf(op));
            k.honest && RequestFits(r) && AtBoundary(old(k.table), old(node.fd)) ==>
              && Ended(end, r, rc, old(node.fd), node.fd, old(k.table), k.table, old(k.log), k.log)
              && (end.Replied? ==> Conveys(end.reply, r, rc, result, cluster.lastError))
              && (end.Replied? <==> FirstFailure(k.acts[|old(k.acts)|..]) == SUCCESS)
              && (end.Replied? && end.reply.Failure? ==>
                    && node.fd in k.table
                    && if r.WhoMaster? || r.Routing? then k.table[node.fd].down == StringLayout(end.reply.message)
                       else cluster.lastError == Some(end.reply.message) && AtBoundary(k.table, node.fd))
    // For any peer: the bytes that went out and came in, and what the caller is told of them.
    ensures FirstFailure(k.acts[|old(k.acts)|..]) == SUCCESS ==>
              Exchanged(k.acts[|old(k.acts)|..], old(RequestOf(op)), rc, result, cluster.lastError)
    ensures old(node.fd) !in old(k.table) ==>
              && rc != SUCCESS && end == NotSent && k.table == old(k.table) && k.log == old(k.log)
              && FirstFailure(k.acts[|old(k.acts)|..]) != SUCCESS
    ensures rc == SUCCESS || Shape(op).Routing? ==> cluster.lastError == old(cluster.lastError)
  {
    hide Consistent, Explains, Reads, Spends, Shared, OnlyStreams, OnlyRead, InFlight, Ended, PutRequest, RequestFits,
      AtBoundary, GetReply, GetUint, Shows, Signed, Callable, Writes, Did, FirstFailure, ReplyCode, ReadsUntilFailure,
      Relates, Exchanged, Took, Delivered, RequestLayout, StringLayout;
    result, end := Nothing, NotSent;
    ghost var t0, log0, a0, fd, r := k.table, k.log, k.acts, node.fd, RequestOf(op);
    ghost var faithful := k.honest && RequestFits(r) && AtBoundary(t0, fd);
    var left;
    rc, left, end := Send(k, node, op, timeout);
    SpendsIsShared(a0, k.acts, timeout, left);
    if rc != SUCCESS {
      DidNotSend(a0, k.acts, fd, r, rc, node.fd);
      return;
    }
    ghost var t1, a1 := k.table, k.acts;
    ShapeAgrees(op);
    rc, result := ReadReply(k, cluster, node, Shape(op), left);
    SharedMore(a0, a1, k.acts, timeout, left);
    DidSend(a0, a1, k.acts, fd, r, rc, node.fd);
    if node.fd != -1 {
      ThenRead(t0, t1, k.table, fd);
      ExchangedInTwo(a0, a1, k.acts, fd, r, Shape(op), rc, result, cluster.lastError);
    }
    if faithful {
      BoundaryIsOpen(t0, fd);
      if node.fd == -1 {
        end := Dropped(TakenReply(log0, k.log));
        DroppedAfterSend(t0, t1, fd, log0, k.log, r, rc);
      } else {
        ReplyEndsCall(t0, t1, k.table, fd, log0, k.log, r, rc);
        end := Replied(k.log[|log0|].reply);
        if end.reply.Failure? {
          ErrorLeaves(end, r, rc, fd, node.fd, t0, k.table, log0, k.log, result, cluster.lastError);
        }
      }
    }
  }

  /** One call. On an open connection at a message boundary it drops the connection, or
      conveys exactly the reply the peer gave to this very request, or (hello and version
      only) fails to write and leaves the connection open. */
  method Call(k: Kernel, cluster: Cluster, op: Operation, timeout: int)
    returns (rc: int, result: Result, ghost end: Ending)
    requires k.Valid() && IsInt(timeout) && Callable(op)
    modifies k`now, k`idle, k`calls, k`acts, k`table, k`log, k`closings, cluster`lastError
    modifies if cluster.master == null then {} else {cluster.master}`fd
    ensures k.Valid() && Shared(old(k.acts), k.acts, timeout) && old(k.log) <= k.log
    ensures Did(k.acts[|old(k.acts)|..], if cluster.master == null then -1 else old(cluster.master.fd),
                old(RequestOf(op)), rc, if cluster.master == null then -1 else cluster.master.fd)
    ensures cluster.master == null || old(cluster.master.fd) < 0 ==>
              && rc == NOT_CONNECTED && end == NotSent && k.table == old(k.table) && k.log == old(k.log)
              && (cluster.master != null ==> cluster.master.fd == old(cluster.master.fd))
    ensures cluster.master != null && old(cluster.master.fd) >= 0 ==>
              cluster.master.fd == -1 || cluster.master.fd == old(cluster.master.fd)
    ensures var r := old(RequestOf(op));
            cluster.master != null && old(cluster.master.fd) >= 0
            && k.honest && RequestFits(r) && AtBoundary(old(k.table), old(cluster.master.fd)) ==>
              && Ended(end, r, rc, old(cluster.master.fd), cluster.master.fd, old(k.table), k.table, old(k.log), k.log)
              && (end.Replied? ==> Conveys(end.reply, r, rc, result, cluster.lastError))
              && (end.Replied? <==> FirstFailure(k.acts[|old(k.acts)|..]) == SUCCESS)
              && (end.Replied? && end.reply.Failure? ==>
                    && cluster.master.fd in k.table
                    && if r.WhoMaster? || r.Routing? then k.table[cluster.master.fd].down == StringLayout(end.reply.message)
                       else cluster.lastError == Some(end.reply.message) && AtBoundary(k.table, cluster.master.fd))
    // For any peer: the bytes that went out and came in, and what the caller is told of them.
    ensures cluster.master != null && old(cluster.master.fd) >= 0 && FirstFailure(k.acts[|old(k.acts)|..]) == SUCCESS ==>
              Exchanged(k.acts[|old(k.acts)|..], old(RequestOf(op)), rc, result, cluster.lastError)
    // A descriptor that is no longer open carries nothing, and the call fails.
    ensures cluster.master != null && old(cluster.master.fd) >= 0 && old(cluster.master.fd) !in old(k.table) ==>
              && rc != SUCCESS && end == NotSent && k.table == old(k.table) && k.log == old(k.log)
              && FirstFailure(k.acts[|old(k.acts)|..]) != SUCCESS
    ensures cluster.master != null && cluster.master.fd >= 0 ==> OnlyStreams(old(k.table), k.table, cluster.master.fd)
    // The message of the last call that failed: none after a success, untouched by the routing query.
    ensures rc == SUCCESS && !Shape(op).Routing? ==> cluster.lastError == None
    ensures Shape(op).Routing? ==> cluster.lastError == old(cluster.lastError)
  {
    hide Consistent, Explains, Shared, OnlyStreams, Ended, RequestFits, AtBoundary, Shows, Callable, Did, FirstFailure,
      Exchanged, StringLayout;
    result, end := Nothing, NotSent;
    ghost var a0, r := k.acts, RequestOf(op);
    assert a0[|a0|..] == [];
    SharedNothing(k.acts, timeout);
    if !Shape(op).Routing? {
      cluster.lastError := None;
    }
    var node := cluster.GetMaster();
    if node == null {
      rc := NOT_CONNECTED;
      DidNothing(if cluster.master == null then -1 else cluster.master.fd, r);
      return;
    }
    rc, result, end := CallNode(k, cluster, node, op, timeout);
  }

  lemma BoundaryIsOpen(table: map<int, Conn>, fd: int)
    requires AtBoundary(table, fd)
    ensures fd in table
  {
  }

  // ----- whole runs -----------------------------------------------------------

  /** What the peer has seen of a run of calls. */
  ghost function PeerSawAll(serial: nat, rs: seq<Request>, ends: seq<Ending>): seq<Exchange>
    requires |rs| == |ends|
  {
    if rs == [] then []
    else
      var n := |rs| - 1;
      PeerSawAll(serial, rs[..n], ends[..n]) + PeerSaw(serial, rs[n], ends[n])
  }

  lemma PeerSawSnoc(serial: nat, rs: seq<Request>, ends: seq<Ending>, r: Request, end: Ending)
    requires |rs| == |ends|
    ensures PeerSawAll(serial, rs + [r], ends + [end]) == PeerSawAll(serial, rs, ends) + PeerSaw(serial, r, end)
  {
    assert (rs + [r])[..|rs|] == rs && (ends + [end])[..|ends|] == ends;
  }

  ghost predicate NoLapse(rs: seq<Request>, ends: seq<Ending>)
    requires |rs| == |ends|
  {
    forall i :: 0 <= i < |rs| ==> !Lapse(rs[i], ends[i])
  }

  /** What the ending of a call can be, given its request and return code. */
  predicate Credible(r: Request, rc: int, end: Ending) {
    match end
    case NotSent => rc != SUCCESS
    case Dropped(_) => rc != SUCCESS
    case Replied(reply) => ReplyFor(r, reply) && (rc == SUCCESS <==> reply.Success?)
    case LeftOpen(_, _) => (r.Hello? || r.Version?) && rc != SUCCESS
  }

  /** Up to and including the first lapse, the endings are credible and the peer has seen
      what they say, in order. */
  ghost predicate OnRecord(serial: nat, rs: seq<Request>, rcs: seq<int>, ends: seq<Ending>,
                           log0: seq<Exchange>, log: seq<Exchange>)
  {
    && |rs| == |rcs| == |ends| && log0 <= log
    && forall i :: 0 <= i < |rs| && NoLapse(rs[..i], ends[..i]) ==>
         && Credible(rs[i], rcs[i], ends[i])
         && log0 + PeerSawAll(serial, rs[..i + 1], ends[..i + 1]) <= log
  }

  lemma OnRecordAtFirst(serial: nat, log: seq<Exchange>)
    ensures OnRecord(serial, [], [], [], log, log)
  {
  }

  lemma OnRecordMore(serial: nat, rs: seq<Request>, rcs: seq<int>, ends: seq<Ending>,
                     log0: seq<Exchange>, log1: seq<Exchange>, log2: seq<Exchange>, r: Request, rc: int, end: Ending)
    requires OnRecord(serial, rs, rcs, ends, log0, log1) && log1 <= log2
    requires NoLapse(rs, ends) ==>
               && Credible(r, rc, end) && log1 == log0 + PeerSawAll(serial, rs, ends)
               && log2 == log1 + PeerSaw(serial, r, end)
    ensures OnRecord(serial, rs + [r], rcs + [rc], ends + [end], log0, log2)
  {
    hide Credible, PeerSaw, NoLapse, PeerSawAll;
    var rs', rcs', ends' := rs + [r], rcs + [rc], ends + [end];
    PrefixesSame(rs, r);
    PrefixesSame(ends, end);
    PeerSawSnoc(serial, rs, ends, r, end);
    forall i | 0 <= i < |rs'| && NoLapse(rs'[..i], ends'[..i])
      ensures Credible(rs'[i], rcs'[i], ends'[i]) && log0 + PeerSawAll(serial, rs'[..i + 1], ends'[..i + 1]) <= log2
    {
      if i < |rs| {
        StillPrefix(log0 + PeerSawAll(serial, rs[..i + 1], ends[..i + 1]), log1, log2);
      } else {
        assert rs'[..i + 1] == rs' && ends'[..i + 1] == ends';
        Reassociate(log0, PeerSawAll(serial, rs, ends), PeerSaw(serial, r, end));
      }
    }
  }

  /** Every hello, version, who_master and routing call was reported a success. */
  predicate NoRiskyFailure(rs: seq<Request>, rcs: seq<int>)
    requires |rs| == |rcs|
  {
    forall i :: 0 <= i < |rs| && (rs[i].Hello? || rs[i].Version? || rs[i].WhoMaster? || rs[i].Routing?) ==>
      rcs[i] == SUCCESS
  }

  lemma CredibleLapse(r: Request, rc: int, end: Ending)
    requires Credible(r, rc, end) && Lapse(r, end)
    ensures (r.Hello? || r.Version? || r.WhoMaster? || r.Routing?) && rc != SUCCESS
  {
  }

  /** What a caller can tell from return codes alone: without a failure of those calls there
      was no lapse. */
  lemma {:induction false} NoRiskyFailureNoLapse(serial: nat, rs: seq<Request>, rcs: seq<int>, ends: seq<Ending>,
                                                 log0: seq<Exchange>, log: seq<Exchange>, n: nat)
    requires OnRecord(serial, rs, rcs, ends, log0, log) && NoRiskyFailure(rs, rcs) && n <= |rs|
    ensures NoLapse(rs[..n], ends[..n])
  {
    hide Credible, PeerSawAll, Lapse;
    if n > 0 {
      NoRiskyFailureNoLapse(serial, rs, rcs, ends, log0, log, n - 1);
      if Lapse(rs[n - 1], ends[n - 1]) {
        CredibleLapse(rs[n - 1], rcs[n - 1], ends[n - 1]);
      }
      assert forall i :: 0 <= i < n - 1 ==> rs[..n][i] == rs[..n - 1][i] && ends[..n][i] == ends[..n - 1][i];
    }
  }

  /** The shape of a run without lapses: up to some call the connection stays open and in
      step; that call drops it; the calls after it are refused. And what the peer has seen
      is exactly the calls, in order, each with the reply that the client was told. */
  ghost predicate InStep(serial: nat, fd: int, rs: seq<Request>, rcs: seq<int>, ends: seq<Ending>, cut: nat,
                         table: map<int, Conn>, fdNow: int, log0: seq<Exchange>, log: seq<Exchange>)
  {
    && |rs| == |rcs| == |ends| && cut <= |rs|
    && (forall i :: 0 <= i < cut ==> ends[i].Replied? || ends[i].LeftOpen?)
    && (cut < |rs| ==> ends[cut].Dropped? && rcs[cut] != SUCCESS)
    && (forall i :: cut < i < |rs| ==> ends[i] == NotSent && rcs[i] == NOT_CONNECTED)
    && log == log0 + PeerSawAll(serial, rs, ends)
    && if cut < |rs| then fdNow == -1
       else fdNow == fd && AtBoundary(table, fd) && table[fd].serial == serial
  }

  lemma InStepBegins(table: map<int, Conn>, fd: int, log: seq<Exchange>)
    requires AtBoundary(table, fd)
    ensures InStep(table[fd].serial, fd, [], [], [], 0, table, fd, log, log)
  {
  }

  lemma InStepContinues(serial: nat, fd: int, rs: seq<Request>, rcs: seq<int>, ends: seq<Ending>, cut: nat,
                        t1: map<int, Conn>, t2: map<int, Conn>, fd1: int, fd2: int,
                        log0: seq<Exchange>, log1: seq<Exchange>, log2: seq<Exchange>,
                        r: Request, rc: int, end: Ending) returns (cut': nat)
    requires InStep(serial, fd, rs, rcs, ends, cut, t1, fd1, log0, log1) && fd >= 0
    requires fd1 < 0 ==> rc == NOT_CONNECTED && end == NotSent && t2 == t1 && log2 == log1 && fd2 == fd1
    requires fd1 >= 0 ==> Ended(end, r, rc, fd1, fd2, t1, t2, log1, log2) && !Lapse(r, end)
    ensures InStep(serial, fd, rs + [r], rcs + [rc], ends + [end], cut', t2, fd2, log0, log2)
  {
    hide OnlyStreams, ReplyFor;
    cut' := if fd1 >= 0 && !end.Dropped? then cut + 1 else cut;
    PeerSawSnoc(serial, rs, ends, r, end);
    if fd1 >= 0 && fd2 != -1 {
      SerialKept(t1, t2, fd);
    }
    assert log0 + (PeerSawAll(serial, rs, ends) + PeerSaw(serial, r, end))
        == (log0 + PeerSawAll(serial, rs, ends)) + PeerSaw(serial, r, end);
  }

  // ----- the acts of a run ----------------------------------------------------

  /** The acts of one call of a run, and the master's descriptor before and after it. */
  datatype Deed = Deed(fd: int, acts: seq<Act>, fdAfter: int)

  function ActsOfDeeds(deeds: seq<Deed>): seq<Act> {
    if deeds == [] then [] else ActsOfDeeds(deeds[..|deeds| - 1]) + deeds[|deeds| - 1].acts
  }

  /** A reply was read exactly if the call was made and none of its acts failed. */
  predicate Heeds(end: Ending, deed: Deed) {
    end.Replied? <==> deed.acts != [] && FirstFailure(deed.acts) == SUCCESS
  }

  /** The master's descriptor before call i. */
  function FdBefore(deeds: seq<Deed>, i: nat, fd: int): int
    requires i <= |deeds|
  {
    if i == 0 then fd else deeds[i - 1].fdAfter
  }

  /** What a caller is told when no act of the call failed, whoever the peer is. */
  ghost predicate Hears(deed: Deed, r: Request, rc: int, result: Result, lastError: Option<Bytes>)
    reads if result.Values? then {result.values} else {}
    reads if result.Values? then result.values.spine else []
    reads if result.Entries? then {result.entries} else {}
  {
    deed.acts != [] && FirstFailure(deed.acts) == SUCCESS ==> Exchanged(deed.acts, r, rc, result, lastError)
  }

  /** What a caller is told: when no act of the call failed, of the bytes that came in; and as
      long as the run is in step, when no act failed and only then, the peer's reply. */
  ghost predicate Answered(inStep: bool, end: Ending, deed: Deed, r: Request, rc: int, result: Result, lastError: Option<Bytes>)
    reads if result.Values? then {result.values} else {}
    reads if result.Values? then result.values.spine else []
    reads if result.Entries? then {result.entries} else {}
  {
    && Hears(deed, r, rc, result, lastError)
    && (inStep ==> Heeds(end, deed) && (end.Replied? ==> Conveys(end.reply, r, rc, result, lastError)))
  }

  /** The acts of a run, call by call: each call did what it does, on the descriptor that the
      one before it left. */
  ghost predicate AllDid(deeds: seq<Deed>, rs: seq<Request>, rcs: seq<int>, fd: int, fdNow: int,
                         acts0: seq<Act>, acts: seq<Act>)
  {
    && |deeds| == |rs| == |rcs|
    && acts == acts0 + ActsOfDeeds(deeds)
    && (forall i :: 0 <= i < |deeds| ==> Did(deeds[i].acts, deeds[i].fd, rs[i], rcs[i], deeds[i].fdAfter))
    && (forall i :: 0 <= i < |deeds| ==> deeds[i].fd == FdBefore(deeds, i, fd))
    && fdNow == FdBefore(deeds, |deeds|, fd)
  }

  lemma NothingDone(fd: int, acts: seq<Act>)
    ensures AllDid([], [], [], fd, fd, acts, acts)
  {
  }

  lemma AllDidMore(deeds: seq<Deed>, rs: seq<Request>, rcs: seq<int>, fd: int, acts0: seq<Act>, acts1: seq<Act>,
                   acts2: seq<Act>, deed: Deed, r: Request, rc: int)
    requires AllDid(deeds, rs, rcs, fd, deed.fd, acts0, acts1) && acts2 == acts1 + deed.acts
    requires Did(deed.acts, deed.fd, r, rc, deed.fdAfter)
    ensures AllDid(deeds + [deed], rs + [r], rcs + [rc], fd, deed.fdAfter, acts0, acts2)
  {
    hide Did;
    var more := deeds + [deed];
    assert more[..|deeds|] == deeds;
    assert ActsOfDeeds(more) == ActsOfDeeds(deeds) + deed.acts;
    forall i | 0 <= i < |more|
      ensures Did(more[i].acts, more[i].fd, (rs + [r])[i], (rcs + [rc])[i], more[i].fdAfter)
      ensures more[i].fd == FdBefore(more, i, fd)
    {
      assert FdBefore(more, i, fd) == FdBefore(deeds, i, fd);
    }
  }

  /** The next call of a run. */
  method CallNext(k: Kernel, cluster: Cluster, op: Operation, timeout: int, ghost serial: nat, ghost fd: int,
                  ghost rs: seq<Request>, ghost rcs: seq<int>, ghost ends: seq<Ending>, ghost cut: nat,
                  ghost log0: seq<Exchange>)
    returns (rc: int, result: Result, ghost end: Ending, ghost cut': nat, ghost deed: Deed)
    requires k.Valid() && IsInt(timeout) && cluster.master != null && k.honest && Sendable(op) && fd >= 0
    requires RunSoFar(serial, fd, rs, rcs, ends, cut, k.table, cluster.master.fd, log0, k.log)
    modifies k`now, k`idle, k`calls, k`acts, k`table, k`log, k`closings, cluster`lastError, cluster.master`fd
    ensures k.Valid() && |rs| == |ends|
    ensures old(k.acts) <= k.acts && deed == Deed(old(cluster.master.fd), k.acts[|old(k.acts)|..], cluster.master.fd)
    ensures Did(deed.acts, deed.fd, RequestOf(op), rc, deed.fdAfter)
    ensures Answered(NoLapse(rs, ends), end, deed, RequestOf(op), rc, result, cluster.lastError)
    ensures RunSoFar(serial, fd, rs + [RequestOf(op)], rcs + [rc], ends + [end], cut', k.table, cluster.master.fd, log0, k.log)
  {
    hide Consistent, Explains, Shared, Ended, Conveys, AtBoundary, Callable, RequestOf, RequestFits, NoLapse, RunSoFar,
      Shape, Did, FirstFailure, Exchanged;
    ghost var t1, log1, fd1, r := k.table, k.log, cluster.master.fd, RequestOf(op);
    SendableShows(op);
    RunIsOpenOrClosed(serial, fd, rs, rcs, ends, cut, t1, fd1, log0, log1);
    rc, result, end := Call(k, cluster, op, timeout);
    SharedShows(old(k.acts), k.acts, timeout);
    deed := Deed(fd1, k.acts[|old(k.acts)|..], cluster.master.fd);
    DidNothingIff(deed, r, rc);
    cut' := RunGoesOn(serial, fd, rs, rcs, ends, cut, t1, k.table, fd1, cluster.master.fd, log0, log1, k.log, r, rc, result,
                      end, cluster.lastError);
  }

  lemma SharedShows(before: seq<Act>, after: seq<Act>, entry: int)
    requires Shared(before, after, entry)
    ensures before <= after
  {
  }

  lemma DidNothingIff(deed: Deed, r: Request, rc: int)
    requires Did(deed.acts, deed.fd, r, rc, deed.fdAfter)
    ensures deed.acts == [] <==> deed.fd < 0
  {
  }

  /** Any series of calls on a connected master whose peer keeps to the protocol. Up to the
      first lapse every caller that is told of a success or an error is told the peer's reply
      to its own request, which is on the peer's record in order. If no call lapsed, which is
      so at least when no hello, version, who_master or routing call failed, the connection is
      at the end closed or at a message boundary, and the record is of these calls only. */
  method RunCalls(k: Kernel, cluster: Cluster, ops: seq<Operation>, timeout: int)
    returns (rcs: seq<int>, results: seq<Result>, errors: seq<Option<Bytes>>,
             ghost rs: seq<Request>, ghost ends: seq<Ending>, ghost cut: nat, ghost deeds: seq<Deed>)
    requires k.Valid() && IsInt(timeout) && cluster.master != null && k.honest
    requires AtBoundary(k.table, cluster.master.fd) && cluster.master.fd >= 0
    requires forall op :: op in ops ==> Sendable(op)
    modifies k`now, k`idle, k`calls, k`acts, k`table, k`log, k`closings, cluster`lastError, cluster.master`fd
    ensures k.Valid()
    ensures |rs| == |rcs| == |results| == |errors| == |ends| == |deeds| == |ops|
    ensures forall i :: 0 <= i < |ops| ==> rs[i] == RequestOf(ops[i])
    ensures OnRecord(old(k.table[cluster.master.fd].serial), rs, rcs, ends, old(k.log), k.log)
    ensures forall i :: 0 <= i < |ops| ==>
              Answered(NoLapse(rs[..i], ends[..i]), ends[i], deeds[i], rs[i], rcs[i], results[i], errors[i])
    ensures AllDid(deeds, rs, rcs, old(cluster.master.fd), cluster.master.fd, old(k.acts), k.acts)
    ensures (forall i :: 0 <= i < |ops| && (rs[i].Hello? || rs[i].Version? || rs[i].WhoMaster? || rs[i].Routing?) ==>
               rcs[i] == SUCCESS) ==>
              NoLapse(rs, ends) && (cluster.master.fd == -1 || AtBoundary(k.table, cluster.master.fd))
    ensures NoLapse(rs, ends) ==>
              InStep(old(k.table[cluster.master.fd].serial), old(cluster.master.fd), rs, rcs, ends, cut,
                     k.table, cluster.master.fd, old(k.log), k.log)
  {
    hide Consistent, Explains, Shared, Ended, Conveys, AtBoundary, Callable, RequestOf, RequestFits, NoLapse, RunSoFar,
      OnRecord, InStep, NoRiskyFailure, Shape, Lapse, Sendable, Credible, PeerSaw, Shows,
      AllDid, Did, Answered;
    rcs, results, errors, rs, ends, cut, deeds := [], [], [], [], [], 0, [];
    ghost var log0, fd := k.log, cluster.master.fd;
    BoundaryIsOpen(k.table, fd);
    ghost var serial := k.table[fd].serial;
    RunBegins(k.table, fd, log0);
    NothingDone(fd, k.acts);
    for i := 0 to |ops|
      invariant k.Valid()
      invariant |rs| == |rcs| == |results| == |errors| == |ends| == |deeds| == i
      invariant forall j :: 0 <= j < |ops| ==> Sendable(ops[j])
      invariant forall j :: 0 <= j < i ==> rs[j] == RequestOf(ops[j])
      invariant RunSoFar(serial, fd, rs, rcs, ends, cut, k.table, cluster.master.fd, log0, k.log)
      invariant AllDid(deeds, rs, rcs, fd, cluster.master.fd, old(k.acts), k.acts)
      invariant forall j :: 0 <= j < i ==>
                  Answered(NoLapse(rs[..j], ends[..j]), ends[j], deeds[j], rs[j], rcs[j], results[j], errors[j])
    {
      ghost var r, end, deed, acts := RequestOf(ops[i]), NotSent, Deed(0, [], 0), k.acts;
      var rc, result;
      rc, result, end, cut, deed := CallNext(k, cluster, ops[i], timeout, serial, fd, rs, rcs, ends, cut, log0);
      AllDidMore(deeds, rs, rcs, fd, old(k.acts), acts, k.acts, deed, r, rc);
      PrefixesSame(rs, r);
      PrefixesSame(ends, end);
      rcs, results, errors, rs, ends := rcs + [rc], results + [result], errors + [cluster.lastError], rs + [r], ends + [end];
      deeds := deeds + [deed];
    }
    RunShows(serial, fd, rs, rcs, ends, cut, k.table, cluster.master.fd, log0, k.log);
  }

  /** A run so far: on record up to its first lapse, and without one in step. */
  ghost predicate RunSoFar(serial: nat, fd: int, rs: seq<Request>, rcs: seq<int>, ends: seq<Ending>, cut: nat,
                           table: map<int, Conn>, fdNow: int, log0: seq<Exchange>, log: seq<Exchange>)
  {
    && OnRecord(serial, rs, rcs, ends, log0, log)
    && (NoLapse(rs, ends) ==> InStep(serial, fd, rs, rcs, ends, cut, table, fdNow, log0, log))
  }

  lemma RunBegins(table: map<int, Conn>, fd: int, log: seq<Exchange>)
    requires AtBoundary(table, fd)
    ensures RunSoFar(table[fd].serial, fd, [], [], [], 0, table, fd, log, log)
  {
    InStepBegins(table, fd, log);
    OnRecordAtFirst(table[fd].serial, log);
  }

  lemma RunIsOpenOrClosed(serial: nat, fd: int, rs: seq<Request>, rcs: seq<int>, ends: seq<Ending>, cut: nat,
                          table: map<int, Conn>, fdNow: int, log0: seq<Exchange>, log: seq<Exchange>)
    requires RunSoFar(serial, fd, rs, rcs, ends, cut, table, fdNow, log0, log)
    ensures |rs| == |ends| && (NoLapse(rs, ends) ==> fdNow == -1 || (fdNow == fd && AtBoundary(table, fdNow)))
  {
    hide NoLapse, PeerSawAll;
  }

  lemma RunGoesOn(serial: nat, fd: int, rs: seq<Request>, rcs: seq<int>, ends: seq<Ending>, cut: nat,
                  t1: map<int, Conn>, t2: map<int, Conn>, fd1: int, fd2: int,
                  log0: seq<Exchange>, log1: seq<Exchange>, log2: seq<Exchange>,
                  r: Request, rc: int, result: Result, end: Ending, error: Option<Bytes>) returns (cut': nat)
    requires RunSoFar(serial, fd, rs, rcs, ends, cut, t1, fd1, log0, log1) && fd >= 0 && log1 <= log2
    requires |rs| == |ends| && NoLapse(rs, ends) && fd1 < 0 ==>
               rc == NOT_CONNECTED && end == NotSent && t2 == t1 && log2 == log1 && fd2 == fd1
    requires |rs| == |ends| && NoLapse(rs, ends) && fd1 >= 0 ==>
               Ended(end, r, rc, fd1, fd2, t1, t2, log1, log2) && (end.Replied? ==> Conveys(end.reply, r, rc, result, error))
    ensures RunSoFar(serial, fd, rs + [r], rcs + [rc], ends + [end], cut', t2, fd2, log0, log2)
  {
    hide NoLapse, Lapse, Ended, InStep, Conveys, Credible, PeerSawAll, PeerSaw;
    cut' := cut;
    LapseShows(rs, ends, r, end);
    if NoLapse(rs, ends) {
      EndIsCredible(serial, rs, rcs, ends, cut, t1, t2, fd, fd1, fd2, log0, log1, log2, r, rc, result, end, error);
      if !Lapse(r, end) {
        cut' := InStepContinues(serial, fd, rs, rcs, ends, cut, t1, t2, fd1, fd2, log0, log1, log2, r, rc, end);
      }
    }
    OnRecordMore(serial, rs, rcs, ends, log0, log1, log2, r, rc, end);
  }

  lemma RunShows(serial: nat, fd: int, rs: seq<Request>, rcs: seq<int>, ends: seq<Ending>, cut: nat,
                 table: map<int, Conn>, fdNow: int, log0: seq<Exchange>, log: seq<Exchange>)
    requires RunSoFar(serial, fd, rs, rcs, ends, cut, table, fdNow, log0, log)
    ensures OnRecord(serial, rs, rcs, ends, log0, log)
    ensures |rs| == |rcs| == |ends|
    ensures NoLapse(rs, ends) ==> InStep(serial, fd, rs, rcs, ends, cut, table, fdNow, log0, log)
    ensures (forall i :: 0 <= i < |rs| && (rs[i].Hello? || rs[i].Version? || rs[i].WhoMaster? || rs[i].Routing?) ==>
               rcs[i] == SUCCESS) ==>
              NoLapse(rs, ends) && (fdNow == -1 || AtBoundary(table, fdNow))
  {
    hide NoLapse, PeerSawAll, Credible;
    if NoRiskyFailure(rs, rcs) {
      NoRiskyFailureNoLapse(serial, rs, rcs, ends, log0, log, |rs|);
      assert rs[..|rs|] == rs && ends[..|rs|] == ends;
    }
  }

  lemma EndIsCredible(serial: nat, rs: seq<Request>, rcs: seq<int>, ends: seq<Ending>, cut: nat,
                      t1: map<int, Conn>, t2: map<int, Conn>, fd: int, fd1: int, fd2: int,
                      log0: seq<Exchange>, log1: seq<Exchange>, log2: seq<Exchange>,
                      r: Request, rc: int, result: Result, end: Ending, error: Option<Bytes>)
    requires InStep(serial, fd, rs, rcs, ends, cut, t1, fd1, log0, log1) && fd >= 0
    requires fd1 < 0 ==> rc == NOT_CONNECTED && end == NotSent && log2 == log1
    requires fd1 >= 0 ==>
               && Ended(end, r, rc, fd1, fd2, t1, t2, log1, log2)
               && (end.Replied? ==> Conveys(end.reply, r, rc, result, error))
    ensures Credible(r, rc, end) && log1 == log0 + PeerSawAll(serial, rs, ends) && log2 == log1 + PeerSaw(serial, r, end)
  {
    hide OnlyStreams, Shows, PeerSawAll;
  }

  lemma LapseShows(rs: seq<Request>, ends: seq<Ending>, r: Request, end: Ending)
    requires |rs| == |ends|
    ensures !NoLapse(rs, ends) || Lapse(r, end) ==> !NoLapse(rs + [r], ends + [end])
  {
    if !NoLapse(rs, ends) {
      var i :| 0 <= i < |rs| && Lapse(rs[i], ends[i]);
      assert Lapse((rs + [r])[i], (ends + [end])[i]);
    } else if Lapse(r, end) {
      assert Lapse((rs + [r])[|rs|], (ends + [end])[|rs|]);
    }
  }

  /** What a lapse does to the next call: the empty message left behind by an error reply
      reads as the return code zero, whatever the peer then replies. */
  lemma LeftoverReadsAsSuccess(r: Request, reply: Reply)
    requires !r.Prologue? && ReplyFor(r, reply)
    ensures GetUint(PutString([]) + PutReply(r, reply)) == Got(0, PutReply(r, reply))
  {
    hide PutReply, ReplyFor, PutWord, GetUint;
    assert PutString([]) == PutWord(0);
    UintRoundTrip(0, PutReply(r, reply));
  }
}
