/** Connecting to nodes, asking them who the master is, and finding the master in two hops. */
module Discovery {
  import opened Wire
  import opened Chains
  import opened WireLists
  import opened Fields
  import opened Requests
  import opened Layouts
  import opened CommandBuilder
  import opened Time
  import opened Acts
  import opened Kernels
  import opened Transfer
  import opened ConnectRace
  import opened Topology
  import opened Protocol

  /** A message boundary in both directions: the peer is not in the middle of a command and
      nothing it sent is unread. */
  predicate AtBoundary(table: map<int, Conn>, fd: int) {
    fd in table && table[fd].up == [] && table[fd].down == []
  }

  /** Open, but not at a message boundary. */
  predicate Loose(table: map<int, Conn>, fd: int) {
    fd in table && !AtBoundary(table, fd)
  }

  /** A peer answered the question for the master with an error, on this socket. */
  predicate ErrorBy(exchanges: seq<Exchange>, serial: nat) {
    exists e :: e in exchanges && e.serial == serial && e.request.WhoMaster? && e.reply.Failure?
  }

  /** Some peer answered the question for the master with an error. */
  predicate ErrorAnswer(exchanges: seq<Exchange>) {
    exists e :: e in exchanges && e.request.WhoMaster? && e.reply.Failure?
  }

  /** The peers saw nothing but prologues and questions for the master. */
  predicate AsksOnly(exchanges: seq<Exchange>) {
    forall e :: e in exchanges ==> e.request.Prologue? || e.request.WhoMaster?
  }

  /** Every connection that is out of step now was so before, or its peer has answered the
      question for the master with an error. */
  ghost predicate NoneLoosened(before: map<int, Conn>, after: map<int, Conn>, exchanges: seq<Exchange>) {
    forall f :: Loose(after, f) ==>
      || (Loose(before, f) && before[f].serial == after[f].serial)
      || ErrorBy(exchanges, after[f].serial)
  }

  lemma DropLoosensNone(before: map<int, Conn>, fd: int, exchanges: seq<Exchange>)
    ensures NoneLoosened(before, before - {fd}, exchanges)
  {
  }

  lemma StreamsLoosenNone(before: map<int, Conn>, after: map<int, Conn>, fd: int, exchanges: seq<Exchange>)
    requires OnlyStreams(before, after, fd)
    requires !Loose(after, fd) || Loose(before, fd) || ErrorBy(exchanges, after[fd].serial)
    ensures NoneLoosened(before, after, exchanges)
  {
  }

  lemma RaceLoosensNone(t0: map<int, Conn>, c0: seq<Closing>, base: nat, table: map<int, Conn>, created: nat,
                        closings: seq<Closing>, winner: int, atOnce: bool)
    requires Settled(t0, c0, base, true, table, closings, winner, atOnce) && Consistent(table, created, closings)
    ensures NoneLoosened(t0, table, [])
  {
  }

  lemma LoosensNoneTwice(a: map<int, Conn>, b: map<int, Conn>, c: map<int, Conn>,
                         log0: seq<Exchange>, log1: seq<Exchange>, log2: seq<Exchange>)
    requires log0 <= log1 <= log2
    requires NoneLoosened(a, b, log1[|log0|..]) && NoneLoosened(b, c, log2[|log1|..])
    ensures NoneLoosened(a, c, log2[|log0|..])
  {
    assert log2[|log0|..] == log1[|log0|..] + log2[|log1|..];
  }

  /** No node's connection is open and out of step. */
  ghost predicate NodesInStep(table: map<int, Conn>, nodes: seq<Node>)
    reads nodes`fd
  {
    forall n :: n in nodes ==> !Loose(table, n.fd)
  }

  /** The same but for sockets whose peer has answered with an error. */
  ghost predicate NodesExcused(table: map<int, Conn>, nodes: seq<Node>, exchanges: seq<Exchange>)
    reads nodes`fd
  {
    forall n :: n in nodes && Loose(table, n.fd) ==> ErrorBy(exchanges, table[n.fd].serial)
  }

  lemma ErrorByAnswers(exchanges: seq<Exchange>, serial: nat)
    requires ErrorBy(exchanges, serial)
    ensures ErrorAnswer(exchanges)
  {
  }

  /** A search so far, seen from honest peers. */
  ghost predicate Faultless(table: map<int, Conn>, nodes: seq<Node>, exchanges: seq<Exchange>)
    reads nodes`fd
  {
    NodesExcused(table, nodes, exchanges) && (!ErrorAnswer(exchanges) ==> AsksOnly(exchanges))
  }

  lemma FaultlessAtFirst(table: map<int, Conn>, nodes: seq<Node>)
    requires NodesInStep(table, nodes)
    ensures Faultless(table, nodes, [])
  {
  }

  lemma ExcusedIsInStep(table: map<int, Conn>, nodes: seq<Node>, exchanges: seq<Exchange>)
    requires NodesExcused(table, nodes, exchanges)
    ensures ErrorAnswer(exchanges) || NodesInStep(table, nodes)
  {
    forall n | n in nodes ensures Loose(table, n.fd) ==> ErrorAnswer(exchanges) {
      if Loose(table, n.fd) {
        assert ErrorBy(exchanges, table[n.fd].serial);
      }
    }
  }

  lemma NothingAsked()
    ensures AsksOnly([]) && !ErrorAnswer([])
  {
  }

  lemma AskedMore(a: seq<Exchange>, b: seq<Exchange>, c: seq<Exchange>)
    requires a <= b <= c
    ensures AsksOnly(b[|a|..]) && AsksOnly(c[|b|..]) ==> AsksOnly(c[|a|..])
    ensures ErrorAnswer(c[|a|..]) <==> ErrorAnswer(b[|a|..]) || ErrorAnswer(c[|b|..])
    ensures forall s :: ErrorBy(c[|a|..], s) <==> ErrorBy(b[|a|..], s) || ErrorBy(c[|b|..], s)
  {
    assert c[|a|..] == b[|a|..] + c[|b|..];
  }

  /** Part of a command, sent at a boundary, can only bring that command's reply. */
  lemma OnlyThisRequest(before: Conn, after: Conn, r: Request, sent: Bytes, exchanges: seq<Exchange>)
    requires before.up == [] && before.down == [] && RequestFits(r) && sent <= PutRequest(r)
    requires TookIn(before, after, sent, exchanges)
    ensures |exchanges| <= 1 && forall e :: e in exchanges ==> e.request == r
  {
    hide GetRequest, PutRequest, ReplyFor, RequestFits, PutReply;
    assert before.up + sent == sent;
    if sent == PutRequest(r) {
      OneRequestOneReply(r, exchanges, after.up);
    } else {
      assert PutRequest(r) == sent + PutRequest(r)[|sent|..];
      ProperPrefixIsIncomplete(r, sent, PutRequest(r)[|sent|..]);
    }
  }

  /** At a boundary one more command brings exactly one more reply. */
  lemma OneExchange(before: Conn, after: Conn, r: Request, exchanges: seq<Exchange>)
    requires before.up == [] && before.down == [] && RequestFits(r)
    requires TookIn(before, after, PutRequest(r), exchanges)
    ensures after.up == [] && |exchanges| == 1
    ensures exchanges[0].request == r && exchanges[0].serial == before.serial
    ensures ReplyFor(r, exchanges[0].reply) && after.down == PutReply(r, exchanges[0].reply)
  {
    hide GetRequest, PutRequest, ReplyFor, RequestFits, PutReply;
    assert before.up + PutRequest(r) == PutRequest(r);
    OneRequestOneReply(r, exchanges, after.up);
    assert before.down + Replies(exchanges) == Replies(exchanges);
  }

  /** The acts of connecting a closed node: a connect over all its addresses, and if that
      succeeded the prologue on the new descriptor. */
  ghost predicate Joined(acts: seq<Act>, addresses: nat, name: Bytes) {
    && 1 <= |acts| <= 2
    && acts[0].Connected? && acts[0].addresses == addresses
    && (acts[0].rc == SUCCESS <==> |acts| == 2)
    && (|acts| == 2 ==>
          && acts[1].Transferred? && acts[1].action.WriteAction? && acts[1].fd == acts[0].fd
          && acts[1].moved <= PutRequest(Prologue(name))
          && (acts[1].rc == SUCCESS ==> acts[1].moved == PutRequest(Prologue(name))))
  }

  /** Connects a node, unless it is connected already, and sends the prologue. */
  method ConnectNode(k: Kernel, node: Node, timeout: int) returns (rc: int, left: int)
    requires k.Valid() && IsInt(timeout) && node.cluster != null
    modifies k`table, k`created, k`closings, k`now, k`idle, k`calls, k`acts, k`log, node`fd
    ensures k.Valid() && IsInt(left) && old(k.log) <= k.log && Spends(old(k.acts), k.acts, timeout, left)
    ensures old(node.fd) >= 0 ==>
              && rc == SUCCESS && left == timeout && node.fd == old(node.fd)
              && k.table == old(k.table) && k.log == old(k.log) && k.acts == old(k.acts)
    ensures old(node.fd) < 0 ==>
              var acts := k.acts[|old(k.acts)|..];
              Joined(acts, |node.addresses|, node.cluster.name) && rc == acts[|acts| - 1].rc
              && node.fd == if rc == SUCCESS then acts[0].fd else -1
    ensures rc == SUCCESS ==> node.fd >= 0
    // A new connection starts with the prologue, and is then at a message boundary.
    ensures old(node.fd) < 0 && rc == SUCCESS && k.honest && StringFits(node.cluster.name) ==>
              && AtBoundary(k.table, node.fd) && |k.log| == |old(k.log)| + 1
              && k.log[|old(k.log)|].request == Prologue(node.cluster.name)
              && k.log[|old(k.log)|].serial == k.table[node.fd].serial
    ensures k.honest && StringFits(node.cluster.name) ==>
              && AsksOnly(k.log[|old(k.log)|..]) && !ErrorAnswer(k.log[|old(k.log)|..])
              && NoneLoosened(old(k.table), k.table, k.log[|old(k.log)|..])
  {
    hide Consistent, Explains, Settled, TookIn, Charged, NoneLoosened, LeftAfter, Chained, PutRequest, Lawful;
    left := timeout;
    SpendsNothing(k.acts, timeout);
    NothingAsked();
    if node.fd >= 0 {
      DropLoosensNone(k.table, -1, []);
      NegativeIsNotOpen(k.table, k.created, k.closings, -1);
      assert k.log[|old(k.log)|..] == [];
      return SUCCESS, left;
    }
    var fd, l;
    ghost var act;
    rc, fd, l, act := Connect(k, |node.addresses|, node.fd, Some(timeout));
    SpendsOne(old(k.acts), act);
    ExplainsSnoc(old(k.calls), old(k.acts), act);
    node.fd, left := fd, l.value;
    ghost var raced, acts, log, budget := k.table, k.acts, k.log, left;
    assert k.log[|old(k.log)|..] == [] && k.acts[|old(k.acts)|..] == [act];
    if k.honest {
      RaceLoosensNone(old(k.table), old(k.closings), old(k.created), k.table, k.created, k.closings,
                      if rc == SUCCESS then fd else -1, ConnectedAtOnce(act));
    }
    if rc != SUCCESS {
      node.fd := -1;
      return;
    }
    NewSocketIsQuiet(old(k.table), old(k.closings), old(k.created), k.honest, k.table, k.closings, fd, ConnectedAtOnce(act));
    ghost var before := k.table[fd];
    var prologue := BuildCommand(Prologue(node.cluster.name), 0, 0);
    ghost var write, reached := act, before;
    rc, left, write, reached := WriteBytes(k, node, prologue, left);
    SpendsMore(old(k.acts), acts, k.acts, timeout, budget, left);
    assert k.acts[|old(k.acts)|..] == [act, write];
    if k.honest && StringFits(node.cluster.name) {
      OnlyThisRequest(before, reached, Prologue(node.cluster.name), write.moved, k.log[|log|..]);
      if rc == SUCCESS {
        OneExchange(before, k.table[fd], Prologue(node.cluster.name), k.log[|log|..]);
        StreamsLoosenNone(raced, k.table, fd, k.log[|log|..]);
      } else {
        DropLoosensNone(raced, fd, k.log[|log|..]);
      }
      LoosensNoneTwice(old(k.table), raced, k.table, old(k.log), log, k.log);
    }
  }

  lemma NewSocketIsQuiet(t0: map<int, Conn>, c0: seq<Closing>, base: nat, quiet: bool,
                         table: map<int, Conn>, closings: seq<Closing>, winner: int, atOnce: bool)
    requires Settled(t0, c0, base, quiet, table, closings, winner, atOnce) && winner >= 0
    ensures winner in table && table[winner].up == [] && (quiet ==> table[winner].down == [])
  {
  }

  /** What was answered to who_master: an error code, of which nothing more is read, or a
      name, cut at its first NUL, or None from a node that does not know. */
  datatype Answer = ErrorCode(code: int) | Named(master: Option<Bytes>)

  /** The answer made of exactly these bytes. */
  function AnswerIn(got: Bytes): Option<Answer> {
    match GetUint(got)
    case NoParse => None
    case Got(code, rest) =>
      if code != 0 then if rest == [] then Some(ErrorCode(code)) else None
      else
        match GetOption(rest)
        case NoParse => None
        case Got(o, end) =>
          if end != [] then None else Some(Named(if o.None? then None else Some(CString(o.value))))
  }

  /** The bytes of an answer: a word that is not zero; or a zero word and an absent string; or a
      zero word and a string, which names the master by its bytes up to the first NUL. */
  lemma AnswerBytes(got: Bytes)
    ensures match AnswerIn(got)
            case None => true
            case Some(ErrorCode(code)) => |got| == 4 && GetWord(got) == code && code != 0
            case Some(Named(None)) => got == [0, 0, 0, 0, 0]
            case Some(Named(Some(name))) =>
              && |got| >= 9 && got[..4] == [0, 0, 0, 0] && got[4] != 0
              && 0 !in name && name <= got[9..] && got[5..] == StringLayout(got[9..])
              && (|name| < |got| - 9 ==> got[9 + |name|] == 0)
  {
    hide PutWord, GetString;
    match AnswerIn(got) {
      case Some(Named(o)) =>
        var rest := GetUint(got).rest;
        WordSpelled(got, 0, rest);
        ZeroWord();
        assert got[..4] == [0, 0, 0, 0] && got[4..] == rest;
        OptionSpelled(rest, GetOption(rest).value, []);
        if rest[0] != 0 {
          var v := GetOption(rest).value.value;
          assert rest == [rest[0]] + StringLayout(v);
          assert got[5..] == rest[1..] == StringLayout(v) && got[9..] == v;
        }
      case _ =>
    }
  }

  /** A decoder looks at nothing but what it consumes. */
  lemma UintAlone(stream: Bytes, got: Bytes, rest: Bytes, w: int)
    requires stream == got + rest && GetUint(stream) == Got(w, rest)
    ensures GetUint(got) == Got(w, [])
  {
    assert |got| == 4;
    WordExtends(got, rest);
  }

  lemma OptionAlone(stream: Bytes, got: Bytes, rest: Bytes, o: Option<Bytes>)
    requires stream == got + rest && GetOption(stream) == Got(o, rest)
    ensures GetOption(got) == Got(o, [])
  {
    assert got != [] && stream[1..] == got[1..] + rest;
    if stream[0] != 0 {
      var s, t := stream[1..], got[1..];
      assert |t| >= 4;
      WordExtends(t, rest);
      var l := GetWord(s);
      assert |t| == 4 + l;
      assert s[4..4 + l] == t[4..4 + l];
    }
  }

  lemma AnswerIsError(stream: Bytes, got: Bytes, rest: Bytes, code: int)
    requires stream == got + rest && GetUint(stream) == Got(code, rest) && code != 0
    ensures AnswerIn(got) == Some(ErrorCode(code))
  {
    UintAlone(stream, got, rest, code);
  }

  lemma AnswerIsName(stream: Bytes, mid: Bytes, d1: Bytes, d2: Bytes, rest: Bytes, o: Option<Bytes>)
    requires stream == d1 + mid && GetUint(stream) == Got(0, mid)
    requires mid == d2 + rest && GetOption(mid) == Got(o, rest)
    ensures AnswerIn(d1 + d2) == Some(Named(if o.None? then None else Some(CString(o.value))))
  {
    UintAlone(stream, d1, mid, 0);
    OptionAlone(mid, d2, rest, o);
    WordExtends(d1, d2);
  }

  /** The reply names this master. */
  predicate Names(reply: Reply, name: Bytes) {
    && reply.Success? && |reply.fields| == 1 && reply.fields[0].OptText?
    && reply.fields[0].option.Some? && CString(reply.fields[0].option.value) == name
  }

  lemma OptionReply(stream: Bytes, o: Option<Bytes>, rest: Bytes)
    requires GetUint(stream).Got? && GetUint(stream).value == 0
    requires GetOption(GetUint(stream).rest) == Got(o, rest)
    ensures GetReply(WhoMaster, stream) == Got(Success([OptText(o)]), rest)
  {
    var body := GetUint(stream).rest;
    assert GetField(TOptText, body) == Got(OptText(o), rest);
    assert GetFields([TOptText][1..], rest) == Got([], rest);
    assert [OptText(o)] + [] == [OptText(o)];
  }

  /** The first word of a reply is its return code; after an error code comes a message,
      which is never empty on the wire. */
  lemma ReplyStartsWithCode(r: Request, reply: Reply)
    requires !r.Prologue? && ReplyFor(r, reply)
    ensures var code := GetUint(PutReply(r, reply));
            && code.Got?
            && (code.value == 0 <==> reply.Success?)
            && (reply.Failure? ==> code == Got(reply.code, PutString(reply.message)) && code.rest != [])
  {
    match reply {
      case Success(fs) => UintRoundTrip(0, PutFields(fs));
      case Failure(code, message) => UintRoundTrip(code, PutString(message));
    }
  }

  lemma WholeReply(r: Request, reply: Reply)
    requires !r.Prologue? && ReplyFor(r, reply)
    ensures GetReply(r, PutReply(r, reply)) == Got(reply, [])
  {
    ReplyRoundTrip(r, reply, []);
    assert PutReply(r, reply) + [] == PutReply(r, reply);
  }

  /** The acts of asking on a descriptor: the question, then reads; when all succeed the
      question went out whole, and what was delivered is exactly one answer. */
  ghost predicate Asked(acts: seq<Act>, fd: int) {
    && acts != []
    && acts[0].Transferred? && acts[0].action.WriteAction? && acts[0].fd == fd
    && acts[0].moved <= PutRequest(WhoMaster)
    && AllReads(acts[1..], fd)
    && Outcome(acts, acts[|acts| - 1].rc)
    && (acts[|acts| - 1].rc == SUCCESS ==>
          acts[0].moved == PutRequest(WhoMaster) && AnswerIn(Delivered(acts[1..])).Some?)
  }

  function AnswerOf(acts: seq<Act>): Option<Answer> {
    if acts != [] && acts[|acts| - 1].rc == SUCCESS then AnswerIn(Delivered(acts[1..])) else None
  }

  /** The return code of asking, by its acts. */
  function AskedCode(acts: seq<Act>): int
    requires acts != []
  {
    match AnswerOf(acts)
    case Some(ErrorCode(code)) => if FitsWord(code) then Signed(code) else 0
    case _ => acts[|acts| - 1].rc
  }

  /** The master named in answer, if one was. */
  function NamedBy(acts: seq<Act>): Option<Bytes> {
    match AnswerOf(acts)
    case Some(Named(master)) => master
    case _ => None
  }

  /** The peer answered with this name, and is waiting for a command again. */
  predicate Confirmed(table: map<int, Conn>, fd: int, log0: seq<Exchange>, log: seq<Exchange>, name: Option<Bytes>) {
    && AtBoundary(table, fd)
    && |log| > |log0|
    && var e := log[|log| - 1];
       e.serial == table[fd].serial && e.request == WhoMaster && (name.Some? ==> Names(e.reply, name.value))
  }

  /** An error can be heard as a name: a peer that answers who_master with an error and no
      message, and the next one with this error, is heard to name a master of one letter. */
  lemma ErrorsCanNameAMaster(letter: byte, message: Bytes)
    requires letter != 0 && |message| == 0x100 * letter as int
    ensures ReplyFor(WhoMaster, Failure(0x101, message))
    ensures var stream := PutString([]) + PutReply(WhoMaster, Failure(0x101, message));
            |stream| >= 10 && AnswerIn(stream[..10]) == Some(Named(Some([letter])))
  {
    var name: Bytes := [letter];
    ErrorLooksLikeAName(letter, message);
    UintRoundTrip(0, PutOption(Some(name)));
    OptionRoundTrip(Some(name), []);
    assert PutOption(Some(name)) + [] == PutOption(Some(name));
  }

  lemma ErrorLooksLikeAName(letter: byte, message: Bytes)
    requires |message| == 0x100 * letter as int
    ensures var stream := PutString([]) + PutReply(WhoMaster, Failure(0x101, message));
            |stream| >= 10 && stream[..10] == PutWord(0) + PutOption(Some([letter]))
  {
    assert PutString([]) == PutWord(0) && PutWord(0x101) == [1] + PutWord(1)[..3];
    assert PutWord(|message|)[..2] == [PutWord(1)[3], letter];
  }

  /** Asks a node for the master. Of an error reply only the code is read. */
  method AskMaster(k: Kernel, node: Node, timeout: int) returns (rc: int, master: Option<Bytes>, left: int)
    requires k.Valid() && IsInt(timeout)
    modifies k`now, k`idle, k`calls, k`acts, k`table, k`log, k`closings, node`fd
    ensures k.Valid() && IsInt(left) && old(k.log) <= k.log && Spends(old(k.acts), k.acts, timeout, left)
    // For any peer: what was sent, what was delivered, and what that comes to.
    ensures var acts := k.acts[|old(k.acts)|..];
            && Asked(acts, old(node.fd)) && rc == AskedCode(acts)
            && (rc == SUCCESS ==> master == NamedBy(acts)) && (rc != SUCCESS ==> NamedBy(acts) == None)
            && node.fd == (if acts[|acts| - 1].rc == SUCCESS then old(node.fd) else -1)
            && (acts[|acts| - 1].rc == SUCCESS ==> node.fd in k.table && OnlyStreams(old(k.table), k.table, node.fd))
            && (acts[|acts| - 1].rc != SUCCESS ==> k.table == old(k.table) - {old(node.fd)})
    // At a boundary with an honest peer: the connection is closed, or the peer answered and
    // the connection is back at a boundary exactly if the answer was not an error.
    ensures k.honest && AtBoundary(old(k.table), old(node.fd)) && node.fd >= 0 ==>
              && node.fd == old(node.fd) && |k.log| == |old(k.log)| + 1
              && k.log[|old(k.log)|].request == WhoMaster
              && k.log[|old(k.log)|].serial == old(k.table)[node.fd].serial
              && (AtBoundary(k.table, node.fd) <==> k.log[|old(k.log)|].reply.Success?)
              && (rc == SUCCESS <==> k.log[|old(k.log)|].reply.Success?)
              && (rc == SUCCESS ==> Confirmed(k.table, node.fd, old(k.log), k.log, master))
    ensures k.honest && !Loose(old(k.table), old(node.fd)) ==> AsksOnly(k.log[|old(k.log)|..])
    ensures k.honest ==> NoneLoosened(old(k.table), k.table, k.log[|old(k.log)|..])
  {
    hide Consistent, Explains, Reads, OnlyStreams, TookIn, GetRequest, PutReply, ReplyFor, Heard,
      AnswerIn, Asked, NoneLoosened, Delivered, Outcome, AllReads, LeftAfter, Chained, Names, Signed, PutRequest, AskedCode,
      NamedBy, Confirmed;
    master := None;
    var command := BuildCommand(WhoMaster, 0, 0);
    ghost var fd, t0, a0, log := node.fd, k.table, k.acts, k.log;
    WhoMasterFits();
    ghost var write, reached;
    rc, left, write, reached := WriteBytes(k, node, command, timeout);
    ghost var mid, a1, b1 := k.table, k.acts, left;
    assert a1[|a0|..] == [write];
    if k.honest && AtBoundary(t0, fd) {
      OnlyThisRequest(t0[fd], reached, WhoMaster, write.moved, k.log[|log|..]);
    }
    if rc != SUCCESS {
      AskedInVain([write], [], fd, rc);
      assert [write] + [] == [write];
      DropLoosensNone(t0, fd, k.log[|log|..]);
      ClosedAsksNobody(k.log[|log|..]);
      return;
    }
    SameKeys(t0, mid, fd);
    var io;
    io, rc, master, left := HearAnswer(k, node, left);
    ghost var a2 := k.acts;
    ReadsShow(mid, k.table, a1, a2, fd, b1, io, left);
    SpendsMore(a0, a1, a2, timeout, b1, left);
    SuffixSplits(a0, a1, a2);
    if io != SUCCESS {
      AskedInVain([write], a2[|a1|..], fd, io);
      DroppedAnyway(t0, mid, fd);
      DropLoosensNone(t0, fd, k.log[|log|..]);
      return;
    }
    HeardCode([write] + a2[|a1|..], a2[|a1|..], rc, master);
    AskedWell(write, a2[|a1|..], fd);
    ThenRead(t0, mid, k.table, fd);
    if k.honest && AtBoundary(t0, fd) {
      OneExchange(t0[fd], mid[fd], WhoMaster, k.log[|log|..]);
      HeardFromHonest(k.log[|log|].reply, Unread(mid, fd), Delivered(a2[|a1|..]), Unread(k.table, fd), rc, master);
      if rc == SUCCESS {
        ConfirmedNow(k.table, fd, log, k.log, master);
      }
    }
    AfterAnswer(t0, k.table, fd, log, k.log, k.honest, rc == SUCCESS);
  }

  lemma ConfirmedNow(table: map<int, Conn>, fd: int, log0: seq<Exchange>, log: seq<Exchange>, name: Option<Bytes>)
    requires AtBoundary(table, fd) && |log| == |log0| + 1
    requires log[|log0|].serial == table[fd].serial && log[|log0|].request == WhoMaster
    requires name.Some? ==> Names(log[|log0|].reply, name.value)
    ensures Confirmed(table, fd, log0, log, name)
  {
  }

  /** What was heard: an error code and nothing after it, or a whole answer. */
  predicate Heard(got: Bytes, rc: int, master: Option<Bytes>) {
    match AnswerIn(got)
    case Some(ErrorCode(code)) => FitsWord(code) && code != 0 && rc == Signed(code) && rc != SUCCESS && master == None
    case Some(Named(name)) => rc == SUCCESS && master == name
    case None => false
  }

  /** Reads the answer to who_master; `io` is the outcome of the reads themselves. */
  method HearAnswer(k: Kernel, node: Node, timeout: int) returns (io: int, rc: int, master: Option<Bytes>, left: int)
    requires k.Valid() && IsInt(timeout)
    modifies k`now, k`idle, k`calls, k`acts, k`table, k`closings, node`fd
    ensures k.Valid() && IsInt(left)
    ensures Reads(old(k.table), k.table, old(k.acts), k.acts, old(node.fd), timeout, io, left)
    ensures io != SUCCESS ==> rc == io && master == None && node.fd == -1 && k.table == old(k.table) - {old(node.fd)}
    ensures io == SUCCESS ==>
              && node.fd == old(node.fd) && OnlyRead(old(k.table), k.table, node.fd)
              && |old(k.acts)| <= |k.acts| && Heard(Delivered(k.acts[|old(k.acts)|..]), rc, master)
  {
    hide Consistent, Explains, Reads, OnlyRead, GetUint, GetOption, Delivered, AnswerIn;
    master := None;
    ghost var fd, t0, a0 := node.fd, k.table, k.acts;
    var code;
    rc, code, left := ReadUint32(k, node, timeout);
    io := rc;
    ghost var t1, a1, budget := k.table, k.acts, left;
    ReadsShow(t0, t1, a0, a1, fd, timeout, rc, left);
    if rc != SUCCESS {
      return;
    }
    if code != 0 {
      rc := Signed(code);
      AnswerIsError(Unread(t0, fd), Delivered(a1[|a0|..]), Unread(t1, fd), code);
      return;
    }
    var o;
    rc, o, left := ReadStringOption(k, node, rc, left);
    io := rc;
    ReadsMore(t0, t1, k.table, a0, a1, k.acts, fd, timeout, budget, left, rc);
    ReadsShow(t1, k.table, a1, k.acts, fd, budget, rc, left);
    if rc != SUCCESS {
      DroppedAnywayAfterRead(t0, t1, fd);
      return;
    }
    master := if o.None? then None else Some(CString(o.value));
    SuffixSplits(a0, a1, k.acts);
    DeliveredMore(a1[|a0|..], k.acts[|a1|..]);
    AnswerIsName(Unread(t0, fd), Unread(t1, fd), Delivered(a1[|a0|..]), Delivered(k.acts[|a1|..]), Unread(k.table, fd), o);
    ReadsCompose(t0, t1, k.table, fd);
  }

  lemma HeardCode(acts: seq<Act>, answer: seq<Act>, rc: int, master: Option<Bytes>)
    requires |acts| == |answer| + 1 && acts[1..] == answer && acts[0].rc == SUCCESS && Outcome(answer, SUCCESS)
    requires Heard(Delivered(answer), rc, master)
    ensures AnswerIn(Delivered(answer)).Some? && acts[|acts| - 1].rc == SUCCESS
    ensures AskedCode(acts) == rc && NamedBy(acts) == master && (rc != SUCCESS ==> master == None)
  {
    hide Delivered;
    assert acts[|acts| - 1] == if answer == [] then acts[0] else answer[|answer| - 1];
  }

  /** An honest peer's reply, as it was heard. */
  lemma HeardFromHonest(reply: Reply, stream: Bytes, got: Bytes, rest: Bytes, rc: int, master: Option<Bytes>)
    requires ReplyFor(WhoMaster, reply) && stream == PutReply(WhoMaster, reply)
    requires stream == got + rest && Heard(got, rc, master)
    ensures rc == SUCCESS <==> reply.Success?
    ensures rest == [] <==> reply.Success?
    ensures rc == SUCCESS && master.Some? ==> Names(reply, master.value)
  {
    hide GetReply, PutReply, ReplyFor;
    ReplyStartsWithCode(WhoMaster, reply);
    WordExtends(got, rest);
    assert GetUint(stream).value == GetUint(got).value;
    if rc == SUCCESS {
      WholeReply(WhoMaster, reply);
      var o := GetOption(GetUint(got).rest).value;
      OptionReply(got, o, []);
      GotExtends(got, rest, Success([OptText(o)]));
      assert rest == [];
    } else {
      assert GetUint(got).rest == [];
      assert GetUint(stream).rest == rest;
    }
  }

  lemma GotExtends(got: Bytes, more: Bytes, reply: Reply)
    requires GetReply(WhoMaster, got) == Got(reply, [])
    ensures GetReply(WhoMaster, got + more) == Got(reply, more)
  {
    WordExtends(got, more);
    var code, rest := GetUint(got).value, GetUint(got).rest;
    assert GetUint(got + more) == Got(code, rest + more);
    if code == 0 {
      FieldsExtend(ReplySchema(WhoMaster), rest, more);
    } else {
      StringExtends(rest, more);
    }
    assert [] + more == more;
  }

  lemma ReadsShow(t0: map<int, Conn>, t1: map<int, Conn>, a0: seq<Act>, a1: seq<Act>, fd: int, e0: int, rc: int, e1: int)
    requires Reads(t0, t1, a0, a1, fd, e0, rc, e1)
    ensures Spends(a0, a1, e0, e1) && AllReads(a1[|a0|..], fd) && Outcome(a1[|a0|..], rc)
    ensures rc == SUCCESS ==> Unread(t0, fd) == Delivered(a1[|a0|..]) + Unread(t1, fd)
  {
  }

  lemma AskedInVain(question: seq<Act>, answer: seq<Act>, fd: int, rc: int)
    requires |question| == 1 && question[0].Transferred? && question[0].action.WriteAction? && question[0].fd == fd
    requires question[0].moved <= PutRequest(WhoMaster) && AllReads(answer, fd) && rc != SUCCESS
    requires if answer == [] then question[0].rc == rc else question[0].rc == SUCCESS && Outcome(answer, rc)
    ensures var acts := question + answer;
            Asked(acts, fd) && acts[|acts| - 1].rc == rc == AskedCode(acts) && NamedBy(acts) == None
  {
    var acts := question + answer;
    assert acts[1..] == answer;
  }

  lemma AskedWell(write: Act, answer: seq<Act>, fd: int)
    requires write.Transferred? && write.action.WriteAction? && write.fd == fd && write.rc == SUCCESS
    requires write.moved == PutRequest(WhoMaster) && AllReads(answer, fd) && Outcome(answer, SUCCESS)
    requires AnswerIn(Delivered(answer)).Some?
    ensures var acts := [write] + answer;
            && Asked(acts, fd) && acts[|acts| - 1].rc == SUCCESS && AnswerOf(acts) == AnswerIn(Delivered(answer))
  {
    var acts := [write] + answer;
    assert acts[1..] == answer;
  }

  lemma ClosedAsksNobody(exchanges: seq<Exchange>)
    ensures exchanges == [] ==> AsksOnly(exchanges)
  {
  }

  /** What an answer leaves of a connection's place in step. */
  lemma AfterAnswer(t0: map<int, Conn>, t1: map<int, Conn>, fd: int, log0: seq<Exchange>, log: seq<Exchange>,
                    honest: bool, success: bool)
    requires OnlyStreams(t0, t1, fd) && fd in t1 && log0 <= log
    requires honest && AtBoundary(t0, fd) ==>
               && |log| == |log0| + 1 && log[|log0|].request == WhoMaster && log[|log0|].serial == t1[fd].serial
               && (log[|log0|].reply.Success? <==> success) && (success ==> AtBoundary(t1, fd))
    ensures honest ==> NoneLoosened(t0, t1, log[|log0|..])
  {
    if honest {
      if AtBoundary(t0, fd) && !success {
        assert log[|log0|] in log[|log0|..];
      }
      StreamsLoosenNone(t0, t1, fd, log[|log0|..]);
    }
  }

  lemma WhoMasterFits()
    ensures RequestFits(WhoMaster) && |PutRequest(WhoMaster)| == 4
  {
  }

  lemma ThenRead(a: map<int, Conn>, b: map<int, Conn>, c: map<int, Conn>, fd: int)
    requires OnlyStreams(a, b, fd) && OnlyRead(b, c, fd)
    ensures OnlyStreams(a, c, fd) && fd in c && c[fd].up == b[fd].up
  {
  }

  // ----- the two hops ---------------------------------------------------------

  /** One node tried: its descriptor and the number of its addresses beforehand, and the acts
      the attempt took. */
  datatype Probe = Probe(node: Node, fdBefore: int, addresses: nat, acts: seq<Act>)

  /** The part of a probe that asks for the master; nothing when the node was not reached. */
  function Question(p: Probe): seq<Act> {
    if p.fdBefore >= 0 then p.acts else if |p.acts| > 2 then p.acts[2..] else []
  }

  /** A node that was closed is connected first, over all its addresses; then it is asked. */
  ghost predicate Tried(p: Probe, name: Bytes) {
    && p.acts != []
    && if p.fdBefore >= 0 then Asked(p.acts, p.fdBefore)
       else if |p.acts| <= 2 then Joined(p.acts, p.addresses, name) && p.acts[|p.acts| - 1].rc != SUCCESS
       else
         && Joined(p.acts[..2], p.addresses, name) && p.acts[1].rc == SUCCESS
         && Asked(p.acts[2..], p.acts[0].fd)
  }

  /** The return code a probe gives. */
  function CodeOf(p: Probe): int
    requires p.acts != []
  {
    if Question(p) == [] then p.acts[|p.acts| - 1].rc else AskedCode(Question(p))
  }

  /** The master named by the node, if it named one. */
  function NameIn(p: Probe): Option<Bytes> {
    NamedBy(Question(p))
  }

  /** The node's descriptor after the probe. */
  function FdAfter(p: Probe): int
    requires p.acts != []
  {
    if p.acts[|p.acts| - 1].rc != SUCCESS then -1
    else if p.fdBefore >= 0 then p.fdBefore
    else if p.acts[0].Connected? then p.acts[0].fd
    else -1
  }

  lemma NotReached(p: Probe, name: Bytes)
    requires p.fdBefore < 0 && Joined(p.acts, p.addresses, name) && p.acts[|p.acts| - 1].rc != SUCCESS
    ensures Tried(p, name) && CodeOf(p) == p.acts[|p.acts| - 1].rc && NameIn(p) == None && FdAfter(p) == -1
  {
  }

  lemma ReachedAndAsked(p: Probe, name: Bytes, joined: seq<Act>, asked: seq<Act>, fd: int)
    requires p.acts == joined + asked && asked != [] && Asked(asked, fd)
    requires if p.fdBefore >= 0 then joined == [] && fd == p.fdBefore
             else Joined(joined, p.addresses, name) && joined[|joined| - 1].rc == SUCCESS && fd == joined[0].fd
    ensures Tried(p, name) && CodeOf(p) == AskedCode(asked) && NameIn(p) == NamedBy(asked)
    ensures FdAfter(p) == if asked[|asked| - 1].rc == SUCCESS then fd else -1
  {
    hide Asked, AnswerOf;
    if p.fdBefore >= 0 {
      assert p.acts == asked;
    } else {
      assert p.acts[..2] == joined && p.acts[2..] == asked;
    }
  }

  /** Connects a node and asks it. */
  method ProbeNode(k: Kernel, node: Node, timeout: int)
    returns (rc: int, master: Option<Bytes>, left: int, ghost probe: Probe)
    requires k.Valid() && IsInt(timeout) && node.cluster != null
    modifies k`table, k`created, k`closings, k`now, k`idle, k`calls, k`acts, k`log, node`fd
    ensures k.Valid() && IsInt(left) && Spends(old(k.acts), k.acts, timeout, left) && old(k.log) <= k.log
    ensures probe == Probe(node, old(node.fd), |node.addresses|, k.acts[|old(k.acts)|..])
    ensures Tried(probe, node.cluster.name) && rc == CodeOf(probe) && node.fd == FdAfter(probe)
    ensures rc == SUCCESS ==> NameIn(probe) == master && node.fd >= 0 && node.fd in k.table
    ensures rc != SUCCESS ==> NameIn(probe) == None
    ensures k.honest && StringFits(node.cluster.name) ==>
              && NoneLoosened(old(k.table), k.table, k.log[|old(k.log)|..])
              && (!Loose(old(k.table), old(node.fd)) ==>
                    && AsksOnly(k.log[|old(k.log)|..])
                    && (Loose(k.table, node.fd) ==> ErrorBy(k.log[|old(k.log)|..], k.table[node.fd].serial))
                    && (rc == SUCCESS ==> Confirmed(k.table, node.fd, old(k.log), k.log, master)))
    ensures rc == SUCCESS && Loose(old(k.table), old(node.fd)) ==>
              node.fd == old(node.fd) && k.table[node.fd].serial == old(k.table)[node.fd].serial
  {
    hide Consistent, Explains, OnlyStreams, GetReply, GetRequest, StringFits, NoneLoosened, AsksOnly, ErrorAnswer, ErrorBy,
      LeftAfter, Chained, Asked, Joined, AskedCode, NamedBy, Tried, CodeOf, NameIn, FdAfter, Confirmed;
    master := None;
    ghost var a0, t0, log0, fd0, name := k.acts, k.table, k.log, node.fd, node.cluster.name;
    ghost var created0, closings0 := k.created, k.closings;
    rc, left := ConnectNode(k, node, timeout);
    ghost var fd, mid, log, a1, budget := node.fd, k.table, k.log, k.acts, left;
    ghost var joined, homes := a1[|a0|..], |node.addresses|;
    if fd0 >= 0 {
      assert joined == [];
    } else {
      assert joined != [] by { assert Joined(joined, homes, name); JoinedActs(joined, homes, name); }
      assert Joined(joined, homes, name) && rc == joined[|joined| - 1].rc;
    }
    probe := Probe(node, fd0, homes, joined);
    ghost var faithful := k.honest && StringFits(name);
    if rc != SUCCESS {
      NotReached(probe, name);
      if faithful {
        ClosedIsNotLoose(k.table, k.created, k.closings);
      }
      return;
    }
    rc, master, left := AskMaster(k, node, left);
    ghost var asked := k.acts[|a1|..];
    SpendsMore(a0, a1, k.acts, timeout, budget, left);
    SuffixSplits(a0, a1, k.acts);
    probe := Probe(node, fd0, homes, joined + asked);
    CodeNeedsAnswer(asked, fd);
    ReachedAndAsked(probe, name, joined, asked, fd);
    KeysAreDescriptors(t0, created0, closings0);
    if asked[|asked| - 1].rc == SUCCESS && fd == fd0 {
      SerialKept(mid, k.table, fd);
    }
    if faithful {
      LoosensNoneTwice(t0, mid, k.table, log0, log, k.log);
      AskedMore(log0, log, k.log);
      if !Loose(t0, fd0) {
        ClosedIsNotLoose(k.table, k.created, k.closings);
        StillNotLoose(t0, mid, fd0, fd, log[|log0|..]);
        LooseByError(mid, k.table, fd, node.fd, k.log[|log|..]);
        if rc == SUCCESS {
          AtBoundaryFirst(mid, k.table, fd);
          ConfirmedSince(k.table, fd, log0, log, k.log, master);
        }
      }
    }
  }

  lemma JoinedActs(acts: seq<Act>, addresses: nat, name: Bytes)
    requires Joined(acts, addresses, name)
    ensures acts != []
  {
  }

  lemma CodeNeedsAnswer(acts: seq<Act>, fd: int)
    requires Asked(acts, fd)
    ensures acts != [] && (AskedCode(acts) == SUCCESS ==> acts[|acts| - 1].rc == SUCCESS)
  {
  }

  lemma ClosedIsNotLoose(table: map<int, Conn>, created: nat, closings: seq<Closing>)
    requires Consistent(table, created, closings)
    ensures !Loose(table, -1)
  {
  }

  lemma StillNotLoose(t0: map<int, Conn>, t1: map<int, Conn>, fd0: int, fd: int, exchanges: seq<Exchange>)
    requires NoneLoosened(t0, t1, exchanges) && !Loose(t0, fd0)
    requires fd == fd0 || AtBoundary(t1, fd)
    ensures ErrorAnswer(exchanges) || !Loose(t1, fd)
  {
    if Loose(t1, fd) {
      assert ErrorBy(exchanges, t1[fd].serial);
    }
  }

  lemma LooseByError(t1: map<int, Conn>, t2: map<int, Conn>, fd: int, fd2: int, exchanges: seq<Exchange>)
    requires NoneLoosened(t1, t2, exchanges) && !Loose(t1, fd) && (fd2 == fd || !Loose(t2, fd2))
    ensures Loose(t2, fd2) ==> ErrorBy(exchanges, t2[fd2].serial)
  {
  }

  lemma AtBoundaryFirst(t1: map<int, Conn>, t2: map<int, Conn>, fd: int)
    requires OnlyStreams(t1, t2, fd) && fd in t2 && !Loose(t1, fd)
    ensures AtBoundary(t1, fd)
  {
  }

  lemma ConfirmedSince(table: map<int, Conn>, fd: int, log0: seq<Exchange>, log1: seq<Exchange>, log2: seq<Exchange>,
                       name: Option<Bytes>)
    requires log0 <= log1 && Confirmed(table, fd, log1, log2, name)
    ensures Confirmed(table, fd, log0, log2, name)
  {
  }

  // ----- the list -------------------------------------------------------------

  /** A node's descriptor and how many addresses it has. */
  datatype Place = Place(fd: int, addresses: nat)

  ghost function Places(nodes: seq<Node>): (places: seq<Place>)
    reads nodes
    ensures |places| == |nodes|
    ensures forall i :: 0 <= i < |nodes| ==> places[i] == Place(nodes[i].fd, |nodes[i].addresses|)
  {
    if nodes == [] then [] else [Place(nodes[0].fd, |nodes[0].addresses|)] + Places(nodes[1..])
  }

  function ActsOf(probes: seq<Probe>): seq<Act> {
    if probes == [] then [] else ActsOf(probes[..|probes| - 1]) + probes[|probes| - 1].acts
  }

  /** The nodes were tried in list order, each from the descriptor it had and over all its
      addresses, and none but the last named a master. */
  ghost predicate TriedInOrder(probes: seq<Probe>, spine: seq<Node>, places: seq<Place>, name: Bytes)
  {
    && |probes| <= |spine| == |places|
    && (forall i :: 0 <= i < |probes| ==>
          && probes[i].node == spine[i] && Place(probes[i].fdBefore, probes[i].addresses) == places[i]
          && Tried(probes[i], name))
    && (forall i :: 0 <= i < |probes| - 1 ==> NameIn(probes[i]).None?)
  }

  /** The descriptor of node i after the probes. */
  function FdNow(probes: seq<Probe>, places: seq<Place>, i: nat): int
    requires i < |places| && |probes| <= |places|
  {
    if i < |probes| then if probes[i].acts != [] then FdAfter(probes[i]) else -1 else places[i].fd
  }

  ghost predicate FirstNamed(node: Node, name: Bytes, spine: seq<Node>) {
    exists i :: 0 <= i < |spine| && spine[i] == node && node.name == name
             && forall j :: 0 <= j < i ==> spine[j].name != name
  }

  /** A round of probes of which none has named a master: what it did is on record. */
  ghost predicate NobodyKnew(probes: seq<Probe>, spine: seq<Node>, places: seq<Place>, title: Bytes,
                             acts0: seq<Act>, acts: seq<Act>, timeout: int, left: int)
  {
    && Spends(acts0, acts, timeout, left)
    && acts[|acts0|..] == ActsOf(probes)
    && TriedInOrder(probes, spine, places, title)
    && forall p :: p in probes ==> NameIn(p).None?
  }

  lemma NobodyTried(spine: seq<Node>, places: seq<Place>, title: Bytes, acts: seq<Act>, timeout: int)
    requires |spine| == |places|
    ensures NobodyKnew([], spine, places, title, acts, acts, timeout, timeout)
  {
    SpendsNothing(acts, timeout);
    assert acts[|acts|..] == [];
  }

  lemma NobodyKnewMore(probes: seq<Probe>, p: Probe, spine: seq<Node>, places: seq<Place>, title: Bytes,
                       acts0: seq<Act>, acts1: seq<Act>, acts2: seq<Act>, timeout: int, b1: int, b2: int)
    requires NobodyKnew(probes, spine, places, title, acts0, acts1, timeout, b1) && |probes| < |spine|
    requires Spends(acts1, acts2, b1, b2) && p.acts == acts2[|acts1|..]
    requires p.node == spine[|probes|] && Place(p.fdBefore, p.addresses) == places[|probes|] && Tried(p, title)
    ensures acts0 <= acts2 && Spends(acts0, acts2, timeout, b2)
    ensures acts2[|acts0|..] == ActsOf(probes + [p]) == ActsOf(probes) + p.acts
    ensures TriedInOrder(probes + [p], spine, places, title) && p.acts != []
    ensures NameIn(p).None? ==> NobodyKnew(probes + [p], spine, places, title, acts0, acts2, timeout, b2)
  {
    hide Chained, LeftAfter, TriedInOrder, NameIn, ActsOf, Tried;
    SpendsMore(acts0, acts1, acts2, timeout, b1, b2);
    SuffixSplits(acts0, acts1, acts2);
    OneMoreTried(probes, p, spine, places, title);
    TriedActs(p, title);
  }

  lemma OneMoreTried(probes: seq<Probe>, p: Probe, spine: seq<Node>, places: seq<Place>, name: Bytes)
    requires TriedInOrder(probes, spine, places, name) && |probes| < |spine|
    requires forall q :: q in probes ==> NameIn(q).None?
    requires p.node == spine[|probes|] && Place(p.fdBefore, p.addresses) == places[|probes|] && Tried(p, name)
    ensures TriedInOrder(probes + [p], spine, places, name)
    ensures ActsOf(probes + [p]) == ActsOf(probes) + p.acts
  {
    hide Tried, NameIn;
    var more := probes + [p];
    assert more[..|probes|] == probes;
    forall i | 0 <= i < |more|
      ensures more[i].node == spine[i] && Place(more[i].fdBefore, more[i].addresses) == places[i] && Tried(more[i], name)
      ensures i < |probes| ==> NameIn(more[i]).None?
    {
      if i < |probes| {
        assert more[i] == probes[i] && probes[i] in probes;
      }
    }
  }

  lemma ExcusedNode(t1: map<int, Conn>, t2: map<int, Conn>, f1: int, f2: int,
                    log0: seq<Exchange>, log1: seq<Exchange>, log2: seq<Exchange>)
    requires log0 <= log1 <= log2 && NoneLoosened(t1, t2, log2[|log1|..])
    requires Loose(t1, f1) ==> ErrorBy(log1[|log0|..], t1[f1].serial)
    requires || f2 == f1 || !Loose(t2, f2)
             || (!Loose(t1, f1) && ErrorBy(log2[|log1|..], t2[f2].serial))
    ensures Loose(t2, f2) ==> ErrorBy(log2[|log0|..], t2[f2].serial)
  {
    AskedMore(log0, log1, log2);
  }

  /** A search that began at `log0`, seen from honest peers: no connection is out of step but
      one whose own peer answered with an error, and if a node was found, on any other
      connection, its peer confirms it. */
  ghost predicate Verdict(table: map<int, Conn>, nodes: seq<Node>, found: bool, fd: int, name: Option<Bytes>,
                          log0: seq<Exchange>, log: seq<Exchange>)
    reads nodes`fd
  {
    && log0 <= log
    && Faultless(table, nodes, log[|log0|..])
    && (found ==> fd in table && (ErrorBy(log[|log0|..], table[fd].serial) || Confirmed(table, fd, log0, log, name)))
  }

  lemma VerdictIsFaultless(table: map<int, Conn>, nodes: seq<Node>, found: bool, fd: int, name: Option<Bytes>,
                           log0: seq<Exchange>, log: seq<Exchange>)
    requires Verdict(table, nodes, found, fd, name, log0, log)
    ensures Verdict(table, nodes, false, -1, None, log0, log)
  {
  }

  /** What is said of a node that was not found does not matter. */
  lemma VerdictUnfound(table: map<int, Conn>, nodes: seq<Node>, fd: int, name: Option<Bytes>, other: Option<Bytes>,
                       log0: seq<Exchange>, log: seq<Exchange>)
    requires Verdict(table, nodes, false, fd, name, log0, log)
    ensures forall f :: Verdict(table, nodes, false, f, other, log0, log)
  {
  }

  lemma VerdictAtFirst(table: map<int, Conn>, nodes: seq<Node>, log: seq<Exchange>)
    requires NodesInStep(table, nodes)
    ensures Verdict(table, nodes, false, -1, None, log, log)
  {
    assert log[|log|..] == [];
    FaultlessAtFirst(table, nodes);
  }

  /** A probe of a node of the list, in a search that began at `log0`: with honest peers no
      connection gets out of step unless its own peer answers with an error, and a success on
      any other connection is confirmed by its peer. */
  method ProbeListed(k: Kernel, cluster: Cluster, node: Node, timeout: int, ghost log0: seq<Exchange>)
    returns (rc: int, master: Option<Bytes>, left: int, ghost probe: Probe)
    requires k.Valid() && IsInt(timeout) && node in cluster.spine && node.cluster == cluster && log0 <= k.log
    modifies k`table, k`created, k`closings, k`now, k`idle, k`calls, k`acts, k`log, node`fd
    ensures k.Valid() && IsInt(left) && Spends(old(k.acts), k.acts, timeout, left) && log0 <= old(k.log) <= k.log
    ensures probe == Probe(node, old(node.fd), |node.addresses|, k.acts[|old(k.acts)|..])
    ensures Tried(probe, cluster.name) && rc == CodeOf(probe) && node.fd == FdAfter(probe)
    ensures rc == SUCCESS ==> NameIn(probe) == master && node.fd >= 0 && node.fd in k.table
    ensures rc != SUCCESS ==> NameIn(probe) == None
    ensures k.honest && StringFits(cluster.name) && old(Verdict(k.table, cluster.spine, false, -1, None, log0, k.log)) ==>
              Verdict(k.table, cluster.spine, rc == SUCCESS, node.fd, master, log0, k.log)
  {
    hide Consistent, Explains, StringFits, NoneLoosened, AsksOnly, ErrorAnswer, ErrorBy, LeftAfter, Chained,
      Tried, CodeOf, NameIn, Confirmed, AtBoundary, OnlyStreams;
    ghost var t1, log1, fd := k.table, k.log, node.fd;
    KeysAreDescriptors(k.table, k.created, k.closings);
    ghost var inStep := Verdict(t1, cluster.spine, false, -1, None, log0, log1);
    label Before:
    rc, master, left, probe := ProbeNode(k, node, timeout);
    if k.honest && StringFits(cluster.name) && inStep {
      AskedMore(log0, log1, k.log);
      ClosedIsNotLoose(k.table, k.created, k.closings);
      if Loose(t1, fd) {
        ErrorByAnswers(log1[|log0|..], t1[fd].serial);
      }
      forall n | n in cluster.spine ensures Loose(k.table, n.fd) ==> ErrorBy(k.log[|log0|..], k.table[n.fd].serial) {
        ExcusedNode(t1, k.table, old@Before(n.fd), n.fd, log0, log1, k.log);
      }
      if rc == SUCCESS && !ErrorBy(k.log[|log0|..], k.table[node.fd].serial) {
        ConfirmedSince(k.table, node.fd, log0, log1, k.log, master);
      }
    }
  }

  /** Every node's descriptor is what the probes so far have made of it. */
  ghost predicate FdsMatch(nodes: seq<Node>, probes: seq<Probe>, places: seq<Place>)
    reads nodes`fd
  {
    && |probes| <= |nodes| == |places|
    && forall i :: 0 <= i < |nodes| ==> nodes[i].fd == FdNow(probes, places, i)
  }

  /** The next node of the list. */
  method ProbeNext(k: Kernel, cluster: Cluster, node: Node, timeout: int,
                   ghost probes: seq<Probe>, ghost places: seq<Place>, ghost log0: seq<Exchange>)
    returns (rc: int, master: Option<Bytes>, left: int, ghost probe: Probe)
    requires k.Valid() && IsInt(timeout) && cluster.Valid() && log0 <= k.log
    requires FdsMatch(cluster.spine, probes, places) && |probes| < |cluster.spine| && node == cluster.spine[|probes|]
    requires |node.addresses| == places[|probes|].addresses
    modifies k`table, k`created, k`closings, k`now, k`idle, k`calls, k`acts, k`log, node`fd
    ensures k.Valid() && IsInt(left) && cluster.Valid() && log0 <= k.log
    ensures Spends(old(k.acts), k.acts, timeout, left) && probe.acts == k.acts[|old(k.acts)|..]
    ensures probe.node == node && Place(probe.fdBefore, probe.addresses) == places[|probes|] && Tried(probe, cluster.name)
    ensures FdsMatch(cluster.spine, probes + [probe], places)
    ensures NameIn(probe) == if rc == SUCCESS then master else None
    ensures rc == SUCCESS ==> node.fd >= 0 && node.fd in k.table
    ensures rc == SUCCESS && master.Some? ==> forall before :: EndsNaming(before + probe.acts, master.value, node.fd)
    ensures k.honest && StringFits(cluster.name) && old(Verdict(k.table, cluster.spine, false, -1, None, log0, k.log)) ==>
              Verdict(k.table, cluster.spine, rc == SUCCESS, node.fd, master, log0, k.log)
  {
    hide Consistent, Explains, Cluster.Valid, StringFits, Verdict, Tried, NameIn, FdAfter, CodeOf, FdNow, Chained, LeftAfter,
      EndsNaming;
    ChainLinks(cluster, |probes|);
    ChainIsDistinct(cluster);
    FdsNotTried(probes, places);
    rc, master, left, probe := ProbeListed(k, cluster, node, timeout, log0);
    TriedActs(probe, cluster.name);
    FdsNowMore(probes, probe, places);
    if rc == SUCCESS && master.Some? {
      forall before ensures EndsNaming(before + probe.acts, master.value, node.fd) {
        ProbeEndsNaming(probe, cluster.name, master.value, before);
      }
    }
  }

  /** The probing loop: up to the first node that names a master. */
  method FindInformant(k: Kernel, cluster: Cluster, timeout: int)
    returns (informant: Node?, name: Bytes, left: int, ghost probes: seq<Probe>)
    requires k.Valid() && IsInt(timeout) && cluster.Valid()
    modifies k`table, k`created, k`closings, k`now, k`idle, k`calls, k`acts, k`log, cluster.spine`fd
    ensures k.Valid() && IsInt(left) && Spends(old(k.acts), k.acts, timeout, left) && old(k.log) <= k.log
    ensures k.acts[|old(k.acts)|..] == ActsOf(probes)
    ensures TriedInOrder(probes, cluster.spine, old(Places(cluster.spine)), cluster.name)
    ensures FdsMatch(cluster.spine, probes, old(Places(cluster.spine)))
    ensures informant == null ==> |probes| == |cluster.spine| && forall p :: p in probes ==> NameIn(p).None?
    ensures informant != null ==>
              && probes != [] && informant == probes[|probes| - 1].node && informant in cluster.spine
              && NameIn(probes[|probes| - 1]) == Some(name) && informant.fd >= 0 && informant.fd in k.table
              && EndsNaming(k.acts[|old(k.acts)|..], name, informant.fd)
    ensures k.honest && StringFits(cluster.name) && old(NodesInStep(k.table, cluster.spine)) ==>
              if informant == null then Verdict(k.table, cluster.spine, false, -1, None, old(k.log), k.log)
              else Verdict(k.table, cluster.spine, true, informant.fd, Some(name), old(k.log), k.log)
  {
    hide Consistent, Explains, Cluster.Valid, StringFits, Verdict, NodesInStep, NobodyKnew, Spends, Tried, TriedInOrder,
      NameIn, CodeOf, ActsOf, FdsMatch, Places, EndsNaming;
    left, name, probes := timeout, [], [];
    ghost var places, title, acts0, log0 := Places(cluster.spine), cluster.name, k.acts, k.log;
    ghost var faithful := k.honest && StringFits(cluster.name) && NodesInStep(k.table, cluster.spine);
    NobodyTried(cluster.spine, places, title, k.acts, timeout);
    FdsMatchAtFirst(cluster.spine, places);
    if faithful {
      VerdictAtFirst(k.table, cluster.spine, k.log);
    }
    ChainLinks(cluster, 0);
    var node := cluster.nodes;
    while node != null
      invariant k.Valid() && IsInt(left) && cluster.Valid() && log0 <= k.log
      invariant |probes| <= |cluster.spine| && node == At(cluster.spine, |probes|, null)
      invariant NobodyKnew(probes, cluster.spine, places, title, acts0, k.acts, timeout, left)
      invariant FdsMatch(cluster.spine, probes, places)
      invariant faithful ==> Verdict(k.table, cluster.spine, false, -1, None, log0, k.log)
      decreases |cluster.spine| - |probes|
    {
      ChainLinks(cluster, |probes|);
      var rc, master;
      ghost var probe, acts, budget := Probe(node, 0, 0, []), k.acts, left;
      rc, master, left, probe := ProbeNext(k, cluster, node, left, probes, places, log0);
      NobodyKnewMore(probes, probe, cluster.spine, places, title, acts0, acts, k.acts, timeout, budget, left);
      probes := probes + [probe];
      if rc == SUCCESS && master != None {
        informant, name := node, master.value;
        return;
      }
      if faithful {
        VerdictIsFaultless(k.table, cluster.spine, rc == SUCCESS, node.fd, master, log0, k.log);
      }
      node := node.next;
    }
    informant := null;
    NobodyKnewShows(probes, cluster.spine, places, title, acts0, k.acts, timeout, left);
  }

  lemma FdsMatchAtFirst(nodes: seq<Node>, places: seq<Place>)
    requires places == Places(nodes)
    ensures FdsMatch(nodes, [], places)
  {
  }

  lemma FdsMatchShows(nodes: seq<Node>, probes: seq<Probe>, places: seq<Place>, i: nat)
    requires FdsMatch(nodes, probes, places) && i < |nodes|
    ensures |probes| <= |places| == |nodes| && nodes[i].fd == FdNow(probes, places, i)
  {
  }

  lemma FdsNotTried(probes: seq<Probe>, places: seq<Place>)
    requires |probes| <= |places|
    ensures forall i :: |probes| <= i < |places| ==> FdNow(probes, places, i) == places[i].fd
  {
  }

  lemma FdsNowMore(probes: seq<Probe>, p: Probe, places: seq<Place>)
    requires |probes| < |places| && p.acts != []
    ensures forall i :: 0 <= i < |places| ==>
              FdNow(probes + [p], places, i) == if i == |probes| then FdAfter(p) else FdNow(probes, places, i)
  {
  }

  lemma NobodyKnewShows(probes: seq<Probe>, spine: seq<Node>, places: seq<Place>, title: Bytes,
                        acts0: seq<Act>, acts: seq<Act>, timeout: int, left: int)
    requires NobodyKnew(probes, spine, places, title, acts0, acts, timeout, left)
    ensures Spends(acts0, acts, timeout, left) && acts[|acts0|..] == ActsOf(probes)
    ensures TriedInOrder(probes, spine, places, title) && forall p :: p in probes ==> NameIn(p).None?
  {
  }

  lemma TriedActs(p: Probe, name: Bytes)
    requires Tried(p, name)
    ensures p.acts != []
  {
  }

  /** The node with the given name, if the list has one. */
  method FindByName(cluster: Cluster, name: Bytes) returns (node: Node?)
    requires cluster.Valid()
    ensures node == null ==> forall n :: n in cluster.spine ==> n.name != name
    ensures node != null ==>
              node in cluster.spine && node.cluster == cluster && node.name == name && FirstNamed(node, name, cluster.spine)
  {
    node := cluster.nodes;
    ghost var i := 0;
    while node != null
      invariant i <= |cluster.spine| && node == At(cluster.spine, i, null)
      invariant forall j :: 0 <= j < i ==> cluster.spine[j].name != name
      decreases |cluster.spine| - i
    {
      if node.name == name {
        return;
      }
      node := node.next;
      i := i + 1;
    }
  }

  /** The second question goes to a node as the first round left it. */
  ghost predicate AskedAgain(second: Probe, probes: seq<Probe>, spine: seq<Node>, places: seq<Place>, name: Bytes)
    requires |probes| <= |spine| == |places|
  {
    && Tried(second, name)
    && exists i :: 0 <= i < |spine| && spine[i] == second.node
                && second.fdBefore == FdNow(probes, places, i) && second.addresses == places[i].addresses
  }

  /** What asking the node of this name itself comes to. */
  function SecondCode(p: Probe, name: Bytes): int
    requires p.acts != []
  {
    if CodeOf(p) != SUCCESS then CodeOf(p) else if NameIn(p) == Some(name) then SUCCESS else MASTER_NOT_FOUND
  }

  /** What a whole discovery comes to, given what the nodes answered: the acts on record are
      those of the probes, and the probes decide the outcome. */
  ghost predicate Discovered(rc: int, master: Node?, was: Node?, spine: seq<Node>, places: seq<Place>, title: Bytes,
                             acts: seq<Act>, probes: seq<Probe>, second: Option<Probe>)
  {
    && TriedInOrder(probes, spine, places, title)
    && acts == ActsOf(probes) + (if second.Some? then second.value.acts else [])
    && (second.Some? ==> second.value.acts != [] && AskedAgain(second.value, probes, spine, places, title))
    && (rc != SUCCESS ==> master == was)
    && if probes == [] || NameIn(probes[|probes| - 1]).None? then
         rc == NETWORK_ERROR && |probes| == |spine| && second.None?
       else
         var informant, name := probes[|probes| - 1].node, NameIn(probes[|probes| - 1]).value;
         if informant.name == name then
           rc == SUCCESS && master == informant && second.None?
         else if forall n :: n in spine ==> n.name != name then
           rc == UNKNOWN_NODE && second.None?
         else
           && second.Some?
           && FirstNamed(second.value.node, name, spine)
           && rc == SecondCode(second.value, name)
           && (rc == SUCCESS ==> master == second.value.node)
  }

  /** Every node's descriptor after a search: as its last probe left it, or as it was. */
  ghost predicate FdsSettled(nodes: seq<Node>, places: seq<Place>, probes: seq<Probe>, second: Option<Probe>)
    reads nodes`fd
  {
    && |probes| <= |nodes| == |places| && (second.Some? ==> second.value.acts != [])
    && forall i :: 0 <= i < |nodes| ==> nodes[i].fd == FdLast(nodes[i], i, places, probes, second)
  }

  function FdLast(node: Node, i: nat, places: seq<Place>, probes: seq<Probe>, second: Option<Probe>): int
    requires i < |places| && |probes| <= |places| && (second.Some? ==> second.value.acts != [])
  {
    if second.Some? && second.value.node == node then FdAfter(second.value) else FdNow(probes, places, i)
  }

  lemma FdsSettleFirst(nodes: seq<Node>, places: seq<Place>, probes: seq<Probe>)
    requires FdsMatch(nodes, probes, places)
    ensures FdsSettled(nodes, places, probes, None)
  {
    hide FdNow;
  }

  /** The codes that a search gives, in numbers. */
  lemma SearchCodes(rc: int, master: Node?, was: Node?, spine: seq<Node>, places: seq<Place>, title: Bytes,
                    acts: seq<Act>, probes: seq<Probe>, second: Option<Probe>)
    requires Discovered(rc, master, was, spine, places, title, acts, probes, second)
    ensures (forall p :: p in probes ==> NameIn(p).None?) ==> rc == 0x100 && |probes| == |spine| && master == was
    ensures second.None? && (exists p :: p in probes && NameIn(p).Some?) ==>
              var p := probes[|probes| - 1];
              && probes != [] && NameIn(p).Some?
              && if p.node.name == NameIn(p).value then rc == 0 && master == p.node
                 else rc == 0x200 && master == was && forall n :: n in spine ==> n.name != NameIn(p).value
    ensures second.Some? ==>
              && probes != [] && NameIn(probes[|probes| - 1]) == Some(second.value.node.name)
              && second.value.acts != []
              && if CodeOf(second.value) != 0 then rc == CodeOf(second.value) && master == was
                 else if NameIn(second.value) == Some(second.value.node.name) then rc == 0 && master == second.value.node
                 else rc == 0x300 && master == was
  {
    hide NameIn, CodeOf, Tried, FdNow, ActsOf;
    if probes != [] {
      var last := probes[|probes| - 1];
      assert last in probes;
      if p :| p in probes && NameIn(p).Some? {
        var i :| 0 <= i < |probes| && probes[i] == p;
      }
    }
  }

  /** Finds a connected node that says it is the master itself. */
  method ConnectMaster(k: Kernel, cluster: Cluster, budget: int)
    returns (rc: int, ghost probes: seq<Probe>, ghost second: Option<Probe>)
    requires k.Valid() && IsInt(budget) && cluster.Valid()
    modifies k`table, k`created, k`closings, k`now, k`idle, k`calls, k`acts, k`log, cluster`master, cluster.spine`fd
    ensures k.Valid() && cluster.Valid() && old(k.log) <= k.log && Shared(old(k.acts), k.acts, budget)
    ensures Discovered(rc, cluster.master, old(cluster.master), cluster.spine, old(Places(cluster.spine)), cluster.name,
                       k.acts[|old(k.acts)|..], probes, second)
    ensures FdsSettled(cluster.spine, old(Places(cluster.spine)), probes, second)
    ensures rc == SUCCESS ==>
              && cluster.master != null && cluster.master in cluster.spine
              && cluster.master.fd >= 0 && cluster.master.fd in k.table
              && EndsNaming(k.acts[|old(k.acts)|..], cluster.master.name, cluster.master.fd)
    ensures rc != SUCCESS ==> cluster.master == old(cluster.master)
    // With honest peers: no connection gets out of step but one whose peer answered with an
    // error, and on any other connection the master itself answered with its own name.
    ensures k.honest && StringFits(cluster.name) && old(NodesInStep(k.table, cluster.spine)) ==>
              if rc != SUCCESS then Verdict(k.table, cluster.spine, false, -1, None, old(k.log), k.log)
              else Verdict(k.table, cluster.spine, true, cluster.master.fd, Some(cluster.master.name), old(k.log), k.log)
  {
    hide Consistent, Explains, NameIn, TriedInOrder, Discovered, Cluster.Valid, StringFits, AtBoundary,
      Spends, Shared, FdsMatch, ActsOf, Verdict, NodesInStep, Places, EndsNaming,
      FdsSettled;
    second := None;
    ghost var was, places, title, acts0, log0 := cluster.master, Places(cluster.spine), cluster.name, k.acts, k.log;
    ghost var faithful := k.honest && StringFits(title) && NodesInStep(k.table, cluster.spine);
    var node, name, timeout;
    node, name, timeout, probes := FindInformant(k, cluster, budget);
    SpendsIsShared(acts0, k.acts, budget, timeout);
    FdsSettleFirst(cluster.spine, places, probes);
    if node == null {
      rc := NETWORK_ERROR;
      NobodyKnows(was, cluster.spine, places, title, probes);
      return;
    }
    if node.name == name {
      cluster.master := node;
      rc := SUCCESS;
      KnowsItself(was, cluster.spine, places, title, probes, node);
      return;
    }
    if faithful {
      VerdictIsFaultless(k.table, cluster.spine, true, node.fd, Some(name), log0, k.log);
    }
    ghost var acts := k.acts;
    rc, second := FollowName(k, cluster, name, timeout, probes, places, acts0, log0);
    SharedMore(acts0, acts, k.acts, budget, timeout);
  }

  /** The node that was named, if the list has it. */
  method FollowName(k: Kernel, cluster: Cluster, name: Bytes, timeout: int,
                    ghost probes: seq<Probe>, ghost places: seq<Place>, ghost acts0: seq<Act>, ghost log0: seq<Exchange>)
    returns (rc: int, ghost second: Option<Probe>)
    requires k.Valid() && IsInt(timeout) && cluster.Valid() && log0 <= k.log
    requires acts0 <= k.acts && k.acts[|acts0|..] == ActsOf(probes)
    requires TriedInOrder(probes, cluster.spine, places, cluster.name) && FdsMatch(cluster.spine, probes, places)
    requires forall i :: 0 <= i < |cluster.spine| && i < |places| ==> |cluster.spine[i].addresses| == places[i].addresses
    requires probes != [] && NameIn(probes[|probes| - 1]) == Some(name) && probes[|probes| - 1].node.name != name
    modifies k`table, k`created, k`closings, k`now, k`idle, k`calls, k`acts, k`log, cluster`master, cluster.spine`fd
    ensures k.Valid() && cluster.Valid() && log0 <= old(k.log) <= k.log
    ensures Shared(old(k.acts), k.acts, timeout)
    ensures Discovered(rc, cluster.master, old(cluster.master), cluster.spine, places, cluster.name,
                       k.acts[|acts0|..], probes, second)
    ensures FdsSettled(cluster.spine, places, probes, second)
    ensures rc == SUCCESS ==>
              && cluster.master != null && cluster.master in cluster.spine
              && cluster.master.fd >= 0 && cluster.master.fd in k.table
              && EndsNaming(k.acts[|acts0|..], cluster.master.name, cluster.master.fd)
    ensures rc != SUCCESS ==> cluster.master == old(cluster.master)
    ensures k.honest && StringFits(cluster.name) && old(Verdict(k.table, cluster.spine, false, -1, None, log0, k.log)) ==>
              if rc != SUCCESS then Verdict(k.table, cluster.spine, false, -1, None, log0, k.log)
              else Verdict(k.table, cluster.spine, true, cluster.master.fd, Some(cluster.master.name), log0, k.log)
  {
    hide Consistent, Explains, NameIn, TriedInOrder, FirstNamed, Discovered, Cluster.Valid, StringFits, AtBoundary,
      Chained, LeftAfter, AskedAgain, Tried, SecondCode, FdNow, FdsMatch, ActsOf, Verdict, EndsNaming,
      FdAfter, FdsSettled;
    second := None;
    FdsSettleFirst(cluster.spine, places, probes);
    ghost var fds := FdsThen(cluster.spine, probes, places);
    ghost var was, title, acts := cluster.master, cluster.name, k.acts;
    var node := FindByName(cluster, name);
    if node == null {
      rc := UNKNOWN_NODE;
      NamesAStranger(was, cluster.spine, places, title, probes, name);
      SharedNothing(k.acts, timeout);
      return;
    }
    ghost var probe := Probe(node, 0, 0, []);
    ghost var i :| 0 <= i < |cluster.spine| && cluster.spine[i] == node;
    FdsMatchShows(cluster.spine, probes, places, i);
    ghost var inStep := k.honest && StringFits(title) && Verdict(k.table, cluster.spine, false, -1, None, log0, k.log);
    rc, probe := AskNamed(k, cluster, node, timeout, log0);
    second := Some(probe);
    FdsSettleSecond(cluster.spine, places, probes, probe, fds);
    SuffixSplits(acts0, acts, k.acts);
    if rc == SUCCESS {
      EndsNamingLonger(ActsOf(probes), probe.acts, node.name, node.fd);
    }
    AgainFrom(probe, probes, cluster.spine, places, title, i);
    if inStep && rc != SUCCESS {
      VerdictIsFaultless(k.table, cluster.spine, false, node.fd, Some(node.name), log0, k.log);
    }
    NamesAnother(rc, cluster.master, was, cluster.spine, places, title, probes, probe, name);
  }

  lemma FdsSettleSecond(nodes: seq<Node>, places: seq<Place>, probes: seq<Probe>, second: Probe, fds: seq<int>)
    requires |probes| <= |nodes| == |places| == |fds| && second.acts != [] && second.node.fd == FdAfter(second)
    requires forall i :: 0 <= i < |nodes| ==> fds[i] == FdNow(probes, places, i)
    requires forall i :: 0 <= i < |nodes| && nodes[i] != second.node ==> nodes[i].fd == fds[i]
    ensures FdsSettled(nodes, places, probes, Some(second))
  {
    hide FdAfter, FdNow;
  }

  function FdsNow(probes: seq<Probe>, places: seq<Place>): (fds: seq<int>)
    requires |probes| <= |places|
    ensures |fds| == |places| && forall i :: 0 <= i < |fds| ==> fds[i] == FdNow(probes, places, i)
  {
    seq(|places|, i requires 0 <= i < |places| => FdNow(probes, places, i))
  }

  lemma FdsThen(nodes: seq<Node>, probes: seq<Probe>, places: seq<Place>) returns (fds: seq<int>)
    requires FdsMatch(nodes, probes, places)
    ensures |probes| <= |nodes| == |places| && fds == FdsNow(probes, places)
    ensures forall i :: 0 <= i < |nodes| ==> nodes[i].fd == fds[i]
  {
    hide FdNow;
    fds := FdsNow(probes, places);
  }

  /** The second hop: the named node has to be reached, and to name itself. */
  method AskNamed(k: Kernel, cluster: Cluster, node: Node, timeout: int, ghost log0: seq<Exchange>)
    returns (rc: int, ghost probe: Probe)
    requires k.Valid() && IsInt(timeout) && cluster.Valid() && node in cluster.spine && log0 <= k.log
    modifies k`table, k`created, k`closings, k`now, k`idle, k`calls, k`acts, k`log, cluster`master, node`fd
    ensures k.Valid() && cluster.Valid() && log0 <= old(k.log) <= k.log && Shared(old(k.acts), k.acts, timeout)
    ensures probe == Probe(node, old(node.fd), |node.addresses|, k.acts[|old(k.acts)|..]) && probe.acts != []
    ensures Tried(probe, cluster.name) && rc == SecondCode(probe, node.name) && node.fd == FdAfter(probe)
    ensures cluster.master == if rc == SUCCESS then node else old(cluster.master)
    ensures rc == SUCCESS ==> node.fd >= 0 && node.fd in k.table && EndsNaming(probe.acts, node.name, node.fd)
    ensures k.honest && StringFits(cluster.name) && old(Verdict(k.table, cluster.spine, false, -1, None, log0, k.log)) ==>
              Verdict(k.table, cluster.spine, rc == SUCCESS, node.fd, Some(node.name), log0, k.log)
  {
    hide Consistent, Explains, NameIn, Cluster.Valid, StringFits, AtBoundary, Spends, Tried, CodeOf, Confirmed, ErrorBy,
      Verdict, EndsNaming, FdAfter;
    NodeIsOwned(cluster, node);
    var master, left;
    rc, master, left, probe := ProbeListed(k, cluster, node, timeout, log0);
    SpendsIsShared(old(k.acts), k.acts, timeout, left);
    TriedActs(probe, cluster.name);
    if rc != SUCCESS {
      if k.honest && StringFits(cluster.name) && old(Verdict(k.table, cluster.spine, false, -1, None, log0, k.log)) {
        VerdictUnfound(k.table, cluster.spine, node.fd, master, Some(node.name), log0, k.log);
      }
      return;
    }
    if master == None || node.name != master.value {
      if k.honest && StringFits(cluster.name) && old(Verdict(k.table, cluster.spine, false, -1, None, log0, k.log)) {
        VerdictIsFaultless(k.table, cluster.spine, true, node.fd, master, log0, k.log);
        VerdictUnfound(k.table, cluster.spine, -1, None, Some(node.name), log0, k.log);
      }
      rc := MASTER_NOT_FOUND;
    } else {
      cluster.master := node;
      ProbeEndsNaming(probe, cluster.name, node.name, []);
      assert [] + probe.acts == probe.acts;
    }
  }

  lemma NodeIsOwned(c: Cluster, node: Node)
    requires c.Valid() && node in c.spine
    ensures node.cluster == c
  {
  }

  lemma AgainFrom(second: Probe, probes: seq<Probe>, spine: seq<Node>, places: seq<Place>, title: Bytes, i: nat)
    requires |probes| <= |spine| == |places| && i < |spine| && spine[i] == second.node && Tried(second, title)
    requires second.fdBefore == FdNow(probes, places, i) && second.addresses == places[i].addresses
    ensures AskedAgain(second, probes, spine, places, title)
  {
  }

  lemma NobodyKnows(was: Node?, spine: seq<Node>, places: seq<Place>, title: Bytes, probes: seq<Probe>)
    requires TriedInOrder(probes, spine, places, title) && |probes| == |spine|
    requires forall p :: p in probes ==> NameIn(p).None?
    ensures Discovered(NETWORK_ERROR, was, was, spine, places, title, ActsOf(probes), probes, None)
  {
    hide TriedInOrder, NameIn, ActsOf;
  }

  lemma KnowsItself(was: Node?, spine: seq<Node>, places: seq<Place>, title: Bytes, probes: seq<Probe>, node: Node)
    requires TriedInOrder(probes, spine, places, title) && probes != []
    requires node == probes[|probes| - 1].node && NameIn(probes[|probes| - 1]) == Some(node.name)
    ensures Discovered(SUCCESS, node, was, spine, places, title, ActsOf(probes), probes, None)
  {
    hide TriedInOrder, NameIn, ActsOf;
  }

  lemma NamesAStranger(was: Node?, spine: seq<Node>, places: seq<Place>, title: Bytes, probes: seq<Probe>, name: Bytes)
    requires TriedInOrder(probes, spine, places, title) && probes != []
    requires NameIn(probes[|probes| - 1]) == Some(name)
    requires probes[|probes| - 1].node.name != name && forall n :: n in spine ==> n.name != name
    ensures Discovered(UNKNOWN_NODE, was, was, spine, places, title, ActsOf(probes), probes, None)
  {
    hide TriedInOrder, NameIn, ActsOf;
  }

  lemma NamesAnother(rc: int, master: Node?, was: Node?, spine: seq<Node>, places: seq<Place>, title: Bytes,
                     probes: seq<Probe>, p: Probe, name: Bytes)
    requires TriedInOrder(probes, spine, places, title) && probes != [] && p.acts != []
    requires |probes| <= |spine| == |places| && AskedAgain(p, probes, spine, places, title)
    requires NameIn(probes[|probes| - 1]) == Some(name) && probes[|probes| - 1].node.name != name
    requires FirstNamed(p.node, name, spine) && p.node in spine && p.node.name == name
    requires rc == SecondCode(p, name)
    requires master == if rc == SUCCESS then p.node else was
    ensures Discovered(rc, master, was, spine, places, title, ActsOf(probes) + p.acts, probes, Some(p))
  {
    hide TriedInOrder, NameIn, ActsOf, SecondCode;
  }

  /** The acts end with a question put on this descriptor, whose answer names this master. */
  ghost predicate EndsNaming(acts: seq<Act>, name: Bytes, fd: int) {
    exists n :: 0 <= n <= |acts| && Asked(acts[n..], fd) && NamedBy(acts[n..]) == Some(name)
  }

  lemma ProbeEndsNaming(p: Probe, title: Bytes, name: Bytes, before: seq<Act>)
    requires Tried(p, title) && NameIn(p) == Some(name)
    ensures p.acts != [] && EndsNaming(before + p.acts, name, FdAfter(p))
  {
    hide Asked;
    var n := if p.fdBefore >= 0 then 0 else 2;
    NobodyNamed();
    assert Question(p) == p.acts[n..] == (before + p.acts)[|before| + n..];
    assert Asked(p.acts[n..], FdAfter(p));
  }

  lemma EndsNamingLonger(before: seq<Act>, acts: seq<Act>, name: Bytes, fd: int)
    requires EndsNaming(acts, name, fd)
    ensures EndsNaming(before + acts, name, fd)
  {
    hide Asked, NamedBy;
    var n :| 0 <= n <= |acts| && Asked(acts[n..], fd) && NamedBy(acts[n..]) == Some(name);
    assert (before + acts)[|before| + n..] == acts[n..];
  }

  lemma NobodyNamed()
    ensures NamedBy([]) == None
  {
  }

  /** A successful discovery: the master is a node of the list that was tried, and the last
      acts on record are a question answered with the master's own name. */
  lemma MasterNamedItself(rc: int, master: Node?, was: Node?, spine: seq<Node>, places: seq<Place>, title: Bytes,
                          acts: seq<Act>, probes: seq<Probe>, second: Option<Probe>)
    requires Discovered(rc, master, was, spine, places, title, acts, probes, second) && rc == SUCCESS
    ensures master != null && master in spine
    ensures exists p :: (p in probes || second == Some(p)) && p.node == master && p.acts != []
                     && EndsNaming(acts, master.name, FdAfter(p))
  {
    hide Tried, NameIn, EndsNaming, CodeOf, FdAfter;
    var n := |probes| - 1;
    var last := probes[n];
    if second.None? {
      assert last in probes && last.node == spine[n];
      ProbeEndsNaming(last, title, master.name, ActsOf(probes[..n]));
      assert acts == ActsOf(probes[..n]) + last.acts;
    } else {
      ProbeEndsNaming(second.value, title, master.name, ActsOf(probes));
    }
  }

  lemma ChainIsDistinct(c: Cluster)
    requires c.Valid()
    ensures forall i, j :: 0 <= i < j < |c.spine| ==> c.spine[i] != c.spine[j]
  {
  }

  /** arakoon_cluster_free: walks the chain once and leaves no node connected. */
  method DisconnectAll(k: Kernel, cluster: Cluster)
    requires k.Valid() && cluster.Valid()
    modifies k`table, k`closings, cluster.spine`fd
    ensures k.Valid() && cluster.Valid()
    ensures forall n :: n in cluster.spine ==> n.fd == -1
    ensures forall f :: f in k.table <==> f in old(k.table) && forall n :: n in cluster.spine ==> old(n.fd) != f
  {
    hide Consistent, Cluster.Valid;
    ghost var i := 0;
    ChainLinks(cluster, 0);
    ChainIsDistinct(cluster);
    var node := cluster.nodes;
    while node != null
      invariant k.Valid() && cluster.Valid() && i <= |cluster.spine| && node == At(cluster.spine, i, null)
      invariant forall j :: 0 <= j < i ==> cluster.spine[j].fd == -1
      invariant forall j :: i <= j < |cluster.spine| ==> cluster.spine[j].fd == old(cluster.spine[j].fd)
      invariant forall f :: f in k.table <==> f in old(k.table) && forall j :: 0 <= j < i ==> old(cluster.spine[j].fd) != f
      decreases |cluster.spine| - i
    {
      ChainLinks(cluster, i);
      var next := node.next;
      Disconnect(k, node);
      node := next;
      i := i + 1;
    }
  }
}
