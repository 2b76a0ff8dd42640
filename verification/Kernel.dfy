/** What the client sees of the operating system and of the peers: a clock, a table of open
    descriptors with the bytes under way in each direction, and the system calls it makes.
    Every call is as free in its outcome as the client's code must expect. The one
    assumption is that only finitely many wakeups are fruitless: `idle` bounds how many of
    them (EINTR, EAGAIN, empty transfers, useless poll results) are still to come. */
module Kernels {
  import opened Wire
  import opened WireLists
  import opened Fields
  import opened Requests
  import opened Time
  import opened Acts

  /** An open descriptor: which socket it is (by order of creation), whether it was created
      non-blocking and whether it is so now, the bytes the peer has yet to take in, and the
      bytes the client has yet to read. */
  datatype Conn = Conn(serial: nat, born: bool, nonblocking: bool, up: Bytes, down: Bytes)

  /** A close() call, on an open socket or on a number that is not open. */
  datatype Closing = OfSocket(serial: nat) | Stray(fd: int)

  /** A request a peer took in and the reply it gave. */
  datatype Exchange = Exchange(serial: nat, request: Request, reply: Reply)

  /** The peer took in the exchanges' requests, in order, and is left with `rest`, which
      does not start with a whole command. */
  ghost predicate Served(up: Bytes, exchanges: seq<Exchange>, rest: Bytes)
    decreases |exchanges|
  {
    if exchanges == [] then rest == up && GetRequest(up).NoParse?
    else
      && GetRequest(up).Got?
      && GetRequest(up).value == exchanges[0].request
      && ReplyFor(exchanges[0].request, exchanges[0].reply)
      && Served(GetRequest(up).rest, exchanges[1..], rest)
  }

  function Replies(exchanges: seq<Exchange>): Bytes {
    if exchanges == [] then [] else PutReply(exchanges[0].request, exchanges[0].reply) + Replies(exchanges[1..])
  }

  lemma {:induction false} ServedSnoc(up: Bytes, exchanges: seq<Exchange>, mid: Bytes, e: Exchange, rest: Bytes)
    requires ServedSoFar(up, exchanges, mid)
    requires GetRequest(mid) == Got(e.request, rest) && ReplyFor(e.request, e.reply)
    ensures ServedSoFar(up, exchanges + [e], rest)
    decreases |exchanges|
  {
    if exchanges == [] {
      assert exchanges + [e] == [e];
      assert ServedSoFar(rest, [e][1..], rest);
    } else {
      assert (exchanges + [e])[1..] == exchanges[1..] + [e];
      ServedSnoc(GetRequest(up).rest, exchanges[1..], mid, e, rest);
    }
  }

  lemma {:induction false} RepliesSnoc(exchanges: seq<Exchange>, e: Exchange)
    ensures Replies(exchanges + [e]) == Replies(exchanges) + PutReply(e.request, e.reply)
    decreases |exchanges|
  {
    if exchanges == [] {
      assert exchanges + [e] == [e];
      assert Replies([e][1..]) == [];
    } else {
      assert (exchanges + [e])[1..] == exchanges[1..] + [e];
      RepliesSnoc(exchanges[1..], e);
    }
  }

  ghost predicate ServedSoFar(up: Bytes, exchanges: seq<Exchange>, rest: Bytes)
    decreases |exchanges|
  {
    if exchanges == [] then rest == up
    else
      && GetRequest(up).Got?
      && GetRequest(up).value == exchanges[0].request
      && ReplyFor(exchanges[0].request, exchanges[0].reply)
      && ServedSoFar(GetRequest(up).rest, exchanges[1..], rest)
  }

  lemma {:induction false} ServedInFull(up: Bytes, exchanges: seq<Exchange>, rest: Bytes)
    requires ServedSoFar(up, exchanges, rest) && GetRequest(rest).NoParse?
    ensures Served(up, exchanges, rest)
    decreases |exchanges|
  {
    if exchanges != [] {
      ServedInFull(GetRequest(up).rest, exchanges[1..], rest);
    }
  }

  /** A peer that finds exactly one command answers exactly once. */
  lemma OneRequestOneReply(r: Request, exchanges: seq<Exchange>, rest: Bytes)
    requires RequestFits(r) && Served(PutRequest(r), exchanges, rest)
    ensures rest == [] && |exchanges| == 1 && exchanges[0].request == r
    ensures ReplyFor(r, exchanges[0].reply)
    ensures Replies(exchanges) == PutReply(r, exchanges[0].reply)
  {
    assert PutRequest(r) + [] == PutRequest(r);
    RequestRoundTrip(r, []);
    assert Served([], exchanges[1..], rest);
    assert Replies(exchanges) == PutReply(r, exchanges[0].reply) + Replies(exchanges[1..]);
  }

  ghost predicate IsOpen(table: map<int, Conn>, s: nat) {
    exists fd :: fd in table && table[fd].serial == s
  }

  /** Descriptors are nonnegative and stand for different sockets; every socket created so
      far is either open or was closed, and closed only once. */
  ghost predicate Consistent(table: map<int, Conn>, created: nat, closings: seq<Closing>) {
    && (forall fd :: fd in table ==> fd >= 0 && table[fd].serial < created)
    && (forall f, g :: f in table && g in table && f != g ==> table[f].serial != table[g].serial)
    && (forall fd :: fd in table ==> OfSocket(table[fd].serial) !in closings)
    && (forall s: nat :: s < created ==> IsOpen(table, s) || OfSocket(s) in closings)
    && (forall c :: c in closings && c.OfSocket? ==> c.serial < created)
    && (forall i, j :: 0 <= i < j < |closings| && closings[i].OfSocket? ==> closings[i] != closings[j])
  }

  /** The same sockets under the same descriptors. */
  ghost predicate SameSockets(a: map<int, Conn>, b: map<int, Conn>) {
    && a.Keys == b.Keys
    && forall fd :: fd in a ==> a[fd].serial == b[fd].serial
  }

  lemma SameSocketsStayConsistent(a: map<int, Conn>, b: map<int, Conn>, created: nat, closings: seq<Closing>)
    requires Consistent(a, created, closings) && SameSockets(a, b)
    ensures Consistent(b, created, closings)
  {
    forall s: nat | s < created ensures IsOpen(b, s) || OfSocket(s) in closings {
      if IsOpen(a, s) {
        var fd :| fd in a && a[fd].serial == s;
        assert b[fd].serial == s;
      }
    }
  }

  class Kernel {
    /** Whether peers keep to the protocol: they answer each command once, with a
        well-formed reply, and send nothing else. */
    const honest: bool
    var now: nat
    var idle: nat
    var table: map<int, Conn>
    var created: nat
    ghost var closings: seq<Closing>
    ghost var log: seq<Exchange>

    /** Every system call so far but the closing of descriptors, with its outcome. */
    ghost var calls: seq<SysCall>

    /** The client's account of them: its transfers and connects. */
    ghost var acts: seq<Act>

    /** Every socket ever created is either open under one descriptor or was closed once. */
    ghost predicate Tidy()
      reads this`table, this`created, this`closings
    {
      Consistent(table, created, closings)
    }

    /** Between transfers and connects, those account for every system call. */
    ghost predicate Valid()
      reads this`table, this`created, this`closings, this`calls, this`acts
    {
      Tidy() && Explains(calls, acts)
    }

    constructor (honest: bool)
      ensures Valid() && this.honest == honest
      ensures table == map[] && created == 0 && closings == [] && log == [] && calls == [] && acts == []
    {
      this.honest := honest;
      var start: nat, patience: nat :| true;
      now, idle := start, patience;
      table, created := map[], 0;
      closings, log, calls, acts := [], [], [], [];
      new;
      ExplainsNothing();
    }

    // ----- clock --------------------------------------------------------------

    /** clock_gettime on a clock that never runs backwards. */
    method Clock() returns (errno: int, t: Timespec)
      modifies this`now, this`calls
      ensures calls == old(calls) + [Clocked(errno, t)]
      ensures errno >= 0
      ensures old(now) <= now
      ensures errno == 0 ==> t.Valid() && t.Ns() == now
    {
      var e: nat, tick: nat :| true;
      now := now + tick;
      t := Timespec(now / NS_PER_S, now % NS_PER_S);
      errno := e;
      calls := calls + [Clocked(errno, t)];
    }

    /** Time passes in a system call that may wait. */
    method Elapse()
      modifies this`now
      ensures old(now) <= now
    {
      var tick: nat :| true;
      now := now + tick;
    }

    // ----- transfers ----------------------------------------------------------

    /** poll() on one descriptor. */
    method Poll(fd: int, writing: bool, ms: int) returns (cnt: int, revents: Events, errno: int)
      modifies this`now, this`idle, this`calls
      ensures calls == old(calls) + [Polled(fd, writing, ms, cnt, revents, errno)]
      ensures idle <= old(idle) && old(now) <= now
      ensures cnt <= 1 && errno > 0
      ensures cnt > 0 && !Broken(revents) && !revents.rdhup && !Signals(revents, writing) ==> idle < old(idle)
    {
      Elapse();
      var c: int, r: Events, e: nat :| true;
      cnt, revents, errno := if c > 1 then 1 else c, r, e + 1;
      if cnt > 0 && !Broken(revents) && !revents.rdhup && !Signals(revents, writing) {
        if idle == 0 {
          cnt := 0;
        } else {
          idle := idle - 1;
        }
      }
      calls := calls + [Polled(fd, writing, ms, cnt, revents, errno)];
    }

    /** write(): takes a prefix of the data, or fails. */
    method Write(fd: int, data: Bytes) returns (cnt: int, errno: int)
      requires data != []
      modifies this`now, this`idle, this`table, this`calls
      ensures old(now) <= now
      ensures cnt <= |data| && errno > 0 && idle <= old(idle)
      ensures calls == old(calls) + [Wrote(fd, if cnt > 0 then data[..cnt] else [], cnt, errno)]
      ensures cnt > 0 ==> fd in old(table)
      ensures table == if cnt > 0 then old(table)[fd := old(table)[fd].(up := old(table)[fd].up + data[..cnt])]
                       else old(table)
      ensures cnt == 0 || (cnt < 0 && (errno == EINTR || errno == EAGAIN)) ==> idle < old(idle)
    {
      Elapse();
      var c: int, e: nat :| true;
      cnt, errno := if c > |data| then |data| else c, e + 1;
      if fd !in table {
        cnt, errno := -1, EBADF;
      } else if cnt > 0 {
        table := table[fd := table[fd].(up := table[fd].up + data[..cnt])];
      } else if cnt == 0 || errno == EINTR || errno == EAGAIN {
        if idle == 0 {
          cnt, errno := -1, EBADF;
        } else {
          idle := idle - 1;
        }
      }
      calls := calls + [Wrote(fd, if cnt > 0 then data[..cnt] else [], cnt, errno)];
    }

    /** read(): the next few bytes, zero at the end of the stream, or a failure. */
    method Read(fd: int, n: nat) returns (cnt: int, bytes: Bytes, errno: int)
      requires n > 0
      modifies this`now, this`idle, this`table, this`calls
      ensures calls == old(calls) + [Fetched(fd, bytes, cnt, errno)]
      ensures old(now) <= now && (cnt <= 0 ==> bytes == [])
      ensures cnt <= n && idle <= old(idle)
      ensures cnt > 0 ==> fd in old(table) && |bytes| == cnt && bytes <= old(table)[fd].down
      ensures table == if cnt > 0 then old(table)[fd := old(table)[fd].(down := old(table)[fd].down[cnt..])]
                       else old(table)
      ensures cnt == 0 ==> errno == 0
      ensures cnt < 0 ==> errno > 0
      ensures cnt < 0 && (errno == EINTR || errno == EAGAIN) ==> idle < old(idle)
    {
      Elapse();
      var c: int, e: nat :| true;
      bytes := [];
      if fd !in table {
        cnt, errno := -1, EBADF;
      } else if c >= 0 {
        cnt := if c > n then n else c;
        cnt := if cnt > |table[fd].down| then |table[fd].down| else cnt;
        errno := 0;
        bytes := table[fd].down[..cnt];
        if cnt > 0 {
          table := table[fd := table[fd].(down := table[fd].down[cnt..])];
        }
      } else {
        cnt, errno := -1, e + 1;
        if errno == EINTR || errno == EAGAIN {
          if idle == 0 {
            errno := EBADF;
          } else {
            idle := idle - 1;
          }
        }
      }
      calls := calls + [Fetched(fd, bytes, cnt, errno)];
    }

    // ----- sockets ------------------------------------------------------------

    /** socket(): a number not in use, or -1. A peer may speak first unless it is honest. */
    method Socket() returns (fd: int)
      requires Tidy()
      modifies this`table, this`created, this`calls
      ensures Tidy() && calls == old(calls) + [Opened(fd)]
      ensures fd == -1 || (fd >= 0 && fd !in old(table))
      ensures fd == -1 ==> table == old(table) && created == old(created)
      ensures fd != -1 ==>
                && created == old(created) + 1
                && fd in table && table == old(table)[fd := table[fd]]
                && table[fd].serial == old(created) && table[fd].nonblocking == table[fd].born
                && table[fd].up == [] && (honest ==> table[fd].down == [])
    {
      var n: nat, born: bool, greeting: Bytes :| true;
      fd := -1;
      if n !in table {
        fd := n;
        var conn := Conn(created, born, born, [], if honest then [] else greeting);
        ghost var before := table;
        table := table[n := conn];
        created := created + 1;
        forall s: nat | s < created ensures IsOpen(table, s) || OfSocket(s) in closings {
          if s == conn.serial {
            assert table[n].serial == s;
          } else if IsOpen(before, s) {
            var f :| f in before && before[f].serial == s;
            assert table[f].serial == s;
          }
        }
      }
      calls := calls + [Opened(fd)];
    }

    /** fcntl(F_GETFL): whether the descriptor is non-blocking, or a failure. */
    method GetFlags(fd: int) returns (flags: Option<bool>)
      ensures flags.Some? ==> fd in table && flags.value == table[fd].nonblocking
    {
      var fails: bool :| true;
      flags := if fd in table && !fails then Some(table[fd].nonblocking) else None;
    }

    /** fcntl(F_SETFL): negative on failure. */
    method SetFlags(fd: int, nonblocking: bool) returns (ret: int)
      requires Tidy()
      modifies this`table, this`calls
      ensures Tidy() && calls == old(calls) + [Flagged(fd, nonblocking, ret)]
      ensures ret >= 0 ==> fd in old(table) && table == old(table)[fd := old(table)[fd].(nonblocking := nonblocking)]
      ensures ret < 0 ==> table == old(table)
    {
      var r: int :| true;
      ret := if fd in table then r else -1;
      if ret >= 0 {
        ghost var before := table;
        table := table[fd := table[fd].(nonblocking := nonblocking)];
        SameSocketsStayConsistent(before, table, created, closings);
      }
      calls := calls + [Flagged(fd, nonblocking, ret)];
    }

    /** connect() on a non-blocking socket: done at once, in progress, or failed. */
    method StartConnect(fd: int) returns (ret: int, errno: int)
      modifies this`now, this`calls
      ensures errno > 0 && old(now) <= now && calls == old(calls) + [Began(fd, ret, errno)]
    {
      Elapse();
      var r: int, e: nat :| true;
      ret, errno := r, e + 1;
      calls := calls + [Began(fd, ret, errno)];
    }

    /** poll() on the first n slots: how many it marked, which need not be the first ones. */
    method PollMany(ev: array<PollFd>, n: nat, ms: int) returns (ret: int, errno: int)
      requires n <= ev.Length
      modifies ev, this`now, this`idle, this`calls
      ensures calls == old(calls) + [PolledMany(ev[..n], ms, ret, errno)]
      ensures ret <= n && errno > 0 && idle <= old(idle) && old(now) <= now
      ensures forall i :: 0 <= i < ev.Length ==> ev[i].fd == old(ev[i].fd)
      ensures ret < 0 && errno == EINTR ==> idle < old(idle)
      ensures ret > 0 && (forall i :: 0 <= i < ret ==> !Useful(ev[i])) ==>
                idle < old(idle)
    {
      Elapse();
      for i := 0 to n
        modifies ev
        invariant forall i :: 0 <= i < ev.Length ==> ev[i].fd == old(ev[i].fd)
      {
        var r: Events :| true;
        ev[i] := ev[i].(revents := r);
      }
      var c: int, e: nat :| true;
      ret, errno := if c > n then n else c, e + 1;
      var useless := (ret < 0 && errno == EINTR)
        || (ret > 0 && forall i | 0 <= i < ret :: !Useful(ev[i]));
      if useless {
        if idle == 0 {
          ret := 0;
        } else {
          idle := idle - 1;
        }
      }
      calls := calls + [PolledMany(ev[..n], ms, ret, errno)];
    }

    /** close(): on a number that is not open it only fails. */
    method Close(fd: int)
      requires Tidy()
      modifies this`table, this`closings
      ensures Tidy() && table == old(table) - {fd}
      ensures closings == old(closings) + [if fd in old(table) then OfSocket(old(table)[fd].serial) else Stray(fd)]
    {
      ghost var before, was := table, closings;
      closings := closings + [if fd in table then OfSocket(table[fd].serial) else Stray(fd)];
      table := table - {fd};
      forall s: nat | s < created ensures IsOpen(table, s) || OfSocket(s) in closings {
        if IsOpen(before, s) {
          var f :| f in before && before[f].serial == s;
          if f != fd {
            assert f in table && table[f].serial == s;
          } else {
            assert closings[|was|] == OfSocket(s);
          }
        }
      }
    }

    // ----- the peer -----------------------------------------------------------

    /** The peer at the other end of fd takes in every whole command it has received and
        queues its replies. A dishonest peer may queue anything. */
    method PeerStep(fd: int)
      modifies this`table, this`log
      ensures table.Keys == old(table.Keys)
      ensures forall f :: f in table && f != fd ==> table[f] == old(table[f])
      ensures fd in table ==>
                table[fd] == old(table[fd]).(up := table[fd].up, down := table[fd].down)
      ensures old(log) <= log
      ensures fd !in table ==> table == old(table) && log == old(log)
      ensures fd in table && honest ==>
                var exchanges := log[|old(log)|..];
                && (forall e :: e in exchanges ==> e.serial == table[fd].serial)
                && Served(old(table[fd].up), exchanges, table[fd].up)
                && table[fd].down == old(table[fd].down) + Replies(exchanges)
    {
      if fd !in table {
        return;
      }
      if !honest {
        var up: Bytes, down: Bytes :| true;
        table := table[fd := table[fd].(up := up, down := table[fd].down + down)];
        return;
      }
      var up, replies;
      ghost var exchanges;
      up, replies, exchanges := ServeAll(table[fd].serial, table[fd].up);
      log := log + exchanges;
      table := table[fd := table[fd].(up := up, down := table[fd].down + replies)];
      assert log[|old(log)|..] == exchanges;
    }

    method ServeAll(serial: nat, received: Bytes)
      returns (up: Bytes, replies: Bytes, ghost exchanges: seq<Exchange>)
      ensures Served(received, exchanges, up)
      ensures replies == Replies(exchanges)
      ensures forall e :: e in exchanges ==> e.serial == serial
    {
      up, replies, exchanges := received, [], [];
      var more := GetRequest(up);
      while more.Got?
        invariant more == GetRequest(up)
        invariant forall e :: e in exchanges ==> e.serial == serial
        invariant ServedSoFar(received, exchanges, up)
        invariant replies == Replies(exchanges)
        decreases |up|
      {
        var reply := AnyReply(more.value);
        ServedSnoc(received, exchanges, up, Exchange(serial, more.value, reply), more.rest);
        RepliesSnoc(exchanges, Exchange(serial, more.value, reply));
        exchanges := exchanges + [Exchange(serial, more.value, reply)];
        RequestShrinks(up);
        up, replies := more.rest, replies + PutReply(more.value, reply);
        more := GetRequest(up);
      }
      ServedInFull(received, exchanges, up);
    }

    method AnyReply(r: Request) returns (reply: Reply)
      ensures ReplyFor(r, reply)
    {
      var any: Reply :| true;
      reply := if ReplyFor(r, any) then any else Failure(0xff, []);
    }
  }

  lemma RequestShrinks(s: Bytes)
    requires GetRequest(s).Got?
    ensures |GetRequest(s).rest| < |s|
  {
    FieldsDoNotGrow(Schema(s[0]).value, s[4..]);
  }

  lemma {:induction false} FieldsDoNotGrow(ts: seq<FieldType>, s: Bytes)
    requires GetFields(ts, s).Got?
    ensures |GetFields(ts, s).rest| <= |s|
    decreases |ts|
  {
    if ts != [] {
      FieldShrinks(ts[0], s);
      FieldsDoNotGrow(ts[1..], GetField(ts[0], s).rest);
    }
  }

  lemma FieldShrinks(t: FieldType, s: Bytes)
    requires GetField(t, s).Got?
    ensures |GetField(t, s).rest| < |s|
  {
    match t {
      case TTexts => AllShrink(GetString, GetWord(s), s[4..]);
      case TPairs => AllShrink(GetPair, GetWord(s), s[4..]);
      case _ =>
    }
  }
}
