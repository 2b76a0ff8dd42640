/** The transfer loop: moves a whole buffer over a descriptor, or fails, within a budget. */
module Transfer {
  import opened Wire
  import opened Fields
  import opened Requests
  import opened Time
  import opened Acts
  import opened Kernels

  /** What moving `done` bytes means: for a write the peer has the next `done` bytes of the
      buffer; for a read the buffer starts with the next `done` bytes of the stream. */
  ghost predicate Moved(action: Action, before: map<int, Conn>, after: map<int, Conn>, fd: int,
                        was: Bytes, got: Bytes, done: nat)
    requires |was| == |got| && done <= |got|
  {
    && (done > 0 ==> fd in before)
    && after.Keys == before.Keys
    && (forall f :: f in before && f != fd ==> after[f] == before[f])
    && (fd in before ==>
        && after[fd] == before[fd].(up := after[fd].up, down := after[fd].down)
        && match action
           case WriteAction => after[fd].up == before[fd].up + got[..done] && after[fd].down == before[fd].down
           case ReadAction => after[fd].up == before[fd].up && got[..done] + after[fd].down == before[fd].down)
    && got[done..] == was[done..]
    && (action.WriteAction? ==> got == was)
  }

  /** The clock readings behind a charge were taken during the call, in order. */
  ghost predicate WithinCall(charge: Charge, began: int, ended: int) {
    charge.Measured? ==>
      && charge.start.Valid() && charge.end.Valid()
      && began <= charge.start.Ns() <= charge.end.Ns() <= ended
  }

  /** What the wait before a transfer comes to. */
  datatype Readiness = Go | Again | Stop(rc: int, charge: Charge)

  /** The system calls of one wait: a reading of the clock, and unless that ends the wait a
      poll for the time it leaves; a failed poll or a broken connection is followed by another
      reading, which says what it cost. */
  ghost predicate WaitCalls(calls: seq<SysCall>, r: Readiness, action: Action, fd: int, start: Timespec, budget: int) {
    && 1 <= |calls| <= 3
    && (forall c :: c in calls ==> c.Clocked? || c.Polled?)
    && Careful(calls, action, fd, start, budget)
    && match r
       case Go => |calls| == 2 && GoAhead(calls[1], action, fd)
       case Again => |calls| == 2 && GoesRound(calls[1], action, fd)
       case Stop(rc, charge) => rc != SUCCESS && FailedBy(calls, start, budget, rc, charge)
  }

  /** The timed half of the loop body: check the time left, then poll. */
  method AwaitReady(k: Kernel, fd: int, action: Action, start: Timespec, budget: int)
    returns (r: Readiness, ghost calls: seq<SysCall>)
    requires start.Valid() && start.Ns() <= k.now
    modifies k`now, k`idle, k`calls
    ensures old(k.now) <= k.now && k.idle <= old(k.idle)
    ensures r.Again? ==> k.idle < old(k.idle)
    ensures r.Stop? ==> WithinCall(r.charge, start.Ns(), k.now)
    ensures r.Stop? ==> r.rc < 0 || r.rc == NETWORK_ERROR || r.rc == NOT_CONNECTED || r.rc == TIMEOUT
    ensures r.Stop? ==> (r.rc == TIMEOUT <==> r.charge == Exhausted)
    ensures k.calls == old(k.calls) + calls && WaitCalls(calls, r, action, fd, start, budget)
  {
    hide Careful, TimeDelta, Narrow;
    NoCalls(action, fd, start, budget);
    var errno, now := k.Clock();
    CarefulSnoc([], Clocked(errno, now), action, fd, start, budget);
    calls := [] + [Clocked(errno, now)];
    if errno != 0 {
      return Stop(-errno, Free), calls;
    }
    var timeLeft := Narrow(budget - TimeDelta(start, now));
    if timeLeft <= 0 {
      return Stop(TIMEOUT, Exhausted), calls;
    }
    var cnt, revents;
    cnt, revents, errno := k.Poll(fd, action.WriteAction?, timeLeft);
    ghost var poll := Polled(fd, action.WriteAction?, timeLeft, cnt, revents, errno);
    CarefulSnoc(calls, poll, action, fd, start, budget);
    calls := calls + [poll];
    if cnt < 0 || (cnt > 0 && (revents.err || revents.hup || revents.nval || revents.rdhup)) {
      var pollErrno := errno;
      errno, now := k.Clock();
      CarefulSnoc(calls, Clocked(errno, now), action, fd, start, budget);
      calls := calls + [Clocked(errno, now)];
      if errno != 0 {
        return Stop(-errno, Free), calls;
      }
      var rc := if cnt < 0 then -pollErrno else if revents.err then NETWORK_ERROR else NOT_CONNECTED;
      return Stop(rc, Measured(start, now)), calls;
    }
    if cnt == 0 {
      return Stop(TIMEOUT, Exhausted), calls;
    }
    r := if (if action.WriteAction? then revents.writable else revents.readable) then Go else Again;
  }

  lemma NoCalls(action: Action, fd: int, start: Timespec, budget: int)
    ensures Careful([], action, fd, start, budget)
  {
  }

  /** One read() or write() on the rest of the buffer: the bytes moved, or why none were. */
  method TransferOnce(k: Kernel, action: Action, fd: int, data: array<byte>, at: nat)
    returns (cnt: nat, rc: int, ghost call: SysCall)
    requires at < data.Length
    modifies k`now, k`idle, k`table, k`calls, data
    ensures old(k.now) <= k.now && k.idle <= old(k.idle)
    ensures cnt <= data.Length - at && (rc != SUCCESS ==> cnt == 0)
    ensures rc <= 0 || rc == NETWORK_ERROR
    ensures k.calls == old(k.calls) + [call] && IsTransfer(call, action, fd) && rc == TransferCode(call)
    ensures call.bytes == data[at..][..cnt]
    ensures rc == SUCCESS && cnt == 0 ==> k.idle < old(k.idle)
    ensures data[..at] == old(data[..at])
    ensures Moved(action, old(k.table), k.table, fd, old(data[at..]), data[at..], cnt)
  {
    var n, errno;
    cnt, rc := 0, SUCCESS;
    if action.WriteAction? {
      n, errno := k.Write(fd, data[at..]);
      call := k.calls[|k.calls| - 1];
      if n < 0 {
        rc := if errno == EINTR || errno == EAGAIN then SUCCESS else -errno;
        return;
      }
    } else {
      var bytes;
      n, bytes, errno := k.Read(fd, data.Length - at);
      call := k.calls[|k.calls| - 1];
      if n <= 0 {
        rc := if errno == EINTR || errno == EAGAIN then SUCCESS
              else if n < 0 then -errno else NETWORK_ERROR;
        return;
      }
      Deliver(data, at, bytes);
      assert data[at..][..n] == bytes;
      assert data[at..][n..] == data[at + n..];
    }
    cnt := n;
  }

  /** The kernel's store into the caller's buffer. */
  method Deliver(data: array<byte>, at: nat, bytes: Bytes)
    requires at + |bytes| <= data.Length
    modifies data
    ensures data[..at] == old(data[..at])
    ensures data[at..at + |bytes|] == bytes
    ensures data[at + |bytes|..] == old(data[at + |bytes|..])
  {
    forall i | 0 <= i < |bytes| {
      data[at + i] := bytes[i];
    }
  }

  /** Transfers add up. */
  lemma MovedMore(action: Action, a: map<int, Conn>, b: map<int, Conn>, c: map<int, Conn>, fd: int,
                  d0: Bytes, d1: Bytes, d2: Bytes, at: nat, cnt: nat)
    requires |d0| == |d1| == |d2| && at + cnt <= |d0|
    requires Moved(action, a, b, fd, d0, d1, at)
    requires d2[..at] == d1[..at]
    requires Moved(action, b, c, fd, d1[at..], d2[at..], cnt)
    ensures Moved(action, a, c, fd, d0, d2, at + cnt)
  {
    assert d2[..at + cnt] == d2[..at] + d2[at..][..cnt];
    assert d2[at + cnt..] == d2[at..][cnt..] == d1[at..][cnt..] == d1[at..][cnt..];
    assert d1[at..] == d0[at..];
    assert d0[at..][cnt..] == d0[at + cnt..];
    if action.WriteAction? {
      assert d2 == d2[..at] + d2[at..];
      assert d1 == d1[..at] + d1[at..];
    }
  }

  lemma NothingMoved(action: Action, table: map<int, Conn>, fd: int, data: Bytes)
    ensures Moved(action, table, table, fd, data, data, 0)
  {
  }

  lemma ChargedIsInt(entry: int)
    requires IsInt(entry)
    ensures Charged(entry, Free) == entry && Charged(entry, Exhausted) == 0
    ensures forall c :: IsInt(Charged(entry, c))
  {
  }

  // ----- the record of a transfer ---------------------------------------------

  /** At the start of a round. */
  predicate AtRound(calls: seq<SysCall>, action: Action, fd: int) {
    calls != [] ==> GoesRound(calls[|calls| - 1], action, fd)
  }

  lemma CarefulMore(a: seq<SysCall>, b: seq<SysCall>, action: Action, fd: int, start: Timespec, budget: int)
    requires Careful(a, action, fd, start, budget) && Careful(b, action, fd, start, budget)
    requires b != [] && b[0].Clocked? && AtRound(a, action, fd)
    ensures Careful(a + b, action, fd, start, budget)
  {
    hide JustRead, GoAhead, Broken, Signals, TransferCode;
    var c := a + b;
    forall i | 0 <= i < |c| ensures Allowed(Before2(c, i), Before(c, i), c[i], action, fd, start, budget) {
      if i < |a| {
        assert Before(c, i) == Before(a, i) && Before2(c, i) == Before2(a, i);
      } else if i > |a| {
        assert Before(c, i) == Before(b, i - |a|);
        assert i > |a| + 1 ==> Before2(c, i) == Before2(b, i - |a|);
        assert Allowed(Before2(b, i - |a|), Before(b, i - |a|), b[i - |a|], action, fd, start, budget);
      }
    }
  }

  lemma {:induction false} BytesOfMore(a: seq<SysCall>, b: seq<SysCall>)
    ensures BytesMoved(a + b) == BytesMoved(a) + BytesMoved(b)
  {
    if b == [] {
      assert a + b == a;
    } else {
      assert (a + b)[..|a + b| - 1] == a + b[..|b| - 1];
      BytesOfMore(a, b[..|b| - 1]);
    }
  }

  /** A wait moves nothing; it ends the transfer or is followed by one more step of it. */
  lemma AfterWait(rest: seq<SysCall>, wait: seq<SysCall>, r: Readiness, action: Action, fd: int, start: Timespec, budget: int)
    requires Careful(rest, action, fd, start, budget) && AtRound(rest, action, fd)
    requires WaitCalls(wait, r, action, fd, start, budget)
    ensures Careful(rest + wait, action, fd, start, budget) && rest + wait != []
    ensures BytesMoved(rest + wait) == BytesMoved(rest)
    ensures r.Stop? ==> r.rc != SUCCESS && FailedBy(rest + wait, start, budget, r.rc, r.charge)
    ensures r.Go? ==> GoAhead((rest + wait)[|rest + wait| - 1], action, fd)
    ensures r.Again? ==> AtRound(rest + wait, action, fd)
  {
    hide FailedBy, GoAhead;
    assert Allowed(Before2(wait, 0), Before(wait, 0), wait[0], action, fd, start, budget);
    CarefulMore(rest, wait, action, fd, start, budget);
    NothingOfThese(wait);
    BytesOfMore(rest, wait);
    if r.Stop? {
      FailedByLonger(rest, wait, start, budget, r.rc, r.charge);
    }
  }

  lemma {:induction false} NothingOfThese(calls: seq<SysCall>)
    requires forall c :: c in calls ==> !c.Wrote? && !c.Fetched?
    ensures BytesMoved(calls) == []
  {
    if calls != [] {
      NothingOfThese(calls[..|calls| - 1]);
    }
  }

  lemma FailedByLonger(a: seq<SysCall>, b: seq<SysCall>, start: Timespec, budget: int, rc: int, charge: Charge)
    requires b != [] && FailedBy(b, start, budget, rc, charge) && (a != [] ==> !Bad(a[|a| - 1]))
    ensures FailedBy(a + b, start, budget, rc, charge)
  {
  }

  /** How a transfer stands after some calls (not counting a first reading of the clock):
      under way with the bytes moved so far, or stopped with a code and a charge. */
  ghost predicate Stands(calls: seq<SysCall>, bytes: Bytes, stop: Option<(int, Charge)>, timed: bool,
                         action: Action, fd: int, start: Timespec, budget: int)
  {
    && BytesMoved(calls) == bytes
    && if timed then
         && Careful(calls, action, fd, start, budget)
         && (stop.Some? ==>
               && calls != [] && stop.value.0 != SUCCESS
               && FailedBy(calls, start, budget, stop.value.0, stop.value.1))
       else
         && PlainTransfer(action, fd, calls, if stop.None? then SUCCESS else stop.value.0)
         && (stop.Some? ==> stop.value.0 != SUCCESS && stop.value.1 == Free)
  }

  lemma StandsAtFirst(timed: bool, action: Action, fd: int, start: Timespec, budget: int)
    ensures Stands([], [], None, timed, action, fd, start, budget)
  {
  }

  lemma StandsAfterWait(calls: seq<SysCall>, bytes: Bytes, wait: seq<SysCall>, r: Readiness,
                        action: Action, fd: int, start: Timespec, budget: int)
    requires Stands(calls, bytes, None, true, action, fd, start, budget) && AtRound(calls, action, fd)
    requires WaitCalls(wait, r, action, fd, start, budget)
    ensures Stands(calls + wait, bytes, if r.Stop? then Some((r.rc, r.charge)) else None, true, action, fd, start, budget)
    ensures r.Go? ==> calls + wait != [] && GoAhead((calls + wait)[|calls + wait| - 1], action, fd)
    ensures r.Again? ==> AtRound(calls + wait, action, fd)
  {
    hide Careful, FailedBy, WaitCalls, BytesMoved, GoAhead, AtRound;
    AfterWait(calls, wait, r, action, fd, start, budget);
  }

  lemma StandsAfterTransfer(calls: seq<SysCall>, call: SysCall, before: Bytes, after: Bytes, at: nat, cnt: nat,
                            timed: bool, action: Action, fd: int, start: Timespec, budget: int)
    requires at + cnt <= |before| == |after| && after[..at] == before[..at]
    requires Stands(calls, before[..at], None, timed, action, fd, start, budget)
    requires IsTransfer(call, action, fd)
    requires if timed then calls != [] && GoAhead(calls[|calls| - 1], action, fd) else AtRound(calls, action, fd)
    requires call.bytes == after[at..][..cnt]
    ensures var rc := TransferCode(call);
            Stands(calls + [call], after[..at + cnt], if rc == SUCCESS then None else Some((rc, Free)),
                   timed, action, fd, start, budget)
            && (rc == SUCCESS ==> AtRound(calls + [call], action, fd))
  {
    hide Careful, GoAhead, TransferCode;
    ProgressSnoc(calls, call);
    assert after[..at + cnt] == after[..at] + after[at..][..cnt];
    if timed {
      CarefulSnoc(calls, call, action, fd, start, budget);
    }
  }

  /** One round of the loop: a wait when there is a budget, then a transfer. */
  method Round(k: Kernel, action: Action, fd: int, data: array<byte>, at: nat, timed: bool, start: Timespec, budget: int,
               ghost calls: seq<SysCall>)
    returns (cnt: nat, stop: Option<(int, Charge)>, ghost more: seq<SysCall>)
    requires at < data.Length && (timed ==> start.Valid() && start.Ns() <= k.now)
    requires Stands(calls, data[..at], None, timed, action, fd, start, budget) && AtRound(calls, action, fd)
    modifies k`now, k`idle, k`calls, k`table, data
    ensures old(k.now) <= k.now && k.idle <= old(k.idle)
    ensures k.calls == old(k.calls) + more
    ensures at + cnt <= data.Length && data[..at] == old(data[..at])
    ensures Stands(calls + more, data[..at + cnt], stop, timed, action, fd, start, budget)
    ensures stop.None? ==> AtRound(calls + more, action, fd)
    ensures cnt > 0 ==> EndsMoving(calls + more, action, fd)
    ensures stop.None? && cnt == 0 ==> k.idle < old(k.idle)
    ensures stop.Some? ==> cnt == 0 && stop.value.0 != SUCCESS
    ensures stop.Some? && timed ==> WithinCall(stop.value.1, start.Ns(), k.now)
    ensures stop.Some? && !timed ==> stop.value.1 == Free
    ensures stop.Some? ==> stop.value.0 < 0 || stop.value.0 in {NETWORK_ERROR, NOT_CONNECTED, TIMEOUT}
    ensures stop.Some? && stop.value.0 == TIMEOUT ==> stop.value.1 == Exhausted
    ensures Moved(action, old(k.table), k.table, fd, old(data[at..]), data[at..], cnt)
  {
    hide Stands, WaitCalls, Moved, GoAhead, TransferCode, IsTransfer, AtRound;
    cnt, stop, more := 0, None, [];
    ghost var bytes := data[..];
    assert calls + more == calls;
    NothingMoved(action, k.table, fd, data[at..]);
    if timed {
      var r;
      r, more := AwaitReady(k, fd, action, start, budget);
      StandsAfterWait(calls, data[..at], more, r, action, fd, start, budget);
      if !r.Go? {
        stop := if r.Stop? then Some((r.rc, r.charge)) else None;
        return;
      }
    }
    ghost var call;
    var rc;
    cnt, rc, call := TransferOnce(k, action, fd, data, at);
    assert data[..][..at] == data[..at] && bytes[..at] == old(data[..at]) && data[..][at..] == data[at..];
    StandsAfterTransfer(calls + more, call, bytes, data[..], at, cnt, timed, action, fd, start, budget);
    assert data[..][..at + cnt] == data[..at + cnt];
    assert calls + (more + [call]) == (calls + more) + [call];
    more := more + [call];
    stop := if rc == SUCCESS then None else Some((rc, Free));
  }

  lemma StoppedIsLawful(a: Act, calls: seq<SysCall>, start: Timespec)
    requires a.Transferred? && a.fd >= 0 && |a.moved| <= a.size
    requires WithTimeout(a.entry) ==> a.entry.value > 0
    requires Stands(calls, a.moved, Some((a.rc, a.charge)), WithTimeout(a.entry), a.action, a.fd, start,
                    if a.entry.Some? then a.entry.value else 0)
    requires a.calls == if WithTimeout(a.entry) then [Clocked(0, start)] + calls else calls
    ensures Lawful(a)
  {
    hide Careful, FailedBy, PlainTransfer, BytesMoved;
    if WithTimeout(a.entry) {
      BytesOfMore([Clocked(0, start)], calls);
      NothingOfThese([Clocked(0, start)]);
      assert a.calls[1..] == calls;
    }
  }

  /** The last reading of a transfer that moved everything. */
  lemma EndIsLawful(a: Act, calls: seq<SysCall>, start: Timespec, last: SysCall)
    requires a.Transferred? && a.fd >= 0 && WithTimeout(a.entry) && a.entry.value > 0 && |a.moved| == a.size
    requires Stands(calls, a.moved, None, true, a.action, a.fd, start, a.entry.value) && AtRound(calls, a.action, a.fd)
    requires last.Clocked? && a.calls == [Clocked(0, start)] + (calls + [last])
    requires if last.errno == 0 then
               a.rc == SUCCESS && a.charge == Measured(start, last.t) && EndsMoving(calls, a.action, a.fd)
             else a.rc == -last.errno && a.charge == Free
    ensures Lawful(a)
  {
    hide Careful, BytesMoved;
    BytesOfMore([Clocked(0, start)], calls + [last]);
    NothingOfThese([Clocked(0, start)]);
    ProgressSnoc(calls, last);
    CarefulSnoc(calls, last, a.action, a.fd, start, a.entry.value);
    assert a.calls[1..] == calls + [last];
  }

  lemma NoCallsAreLawful(a: Act)
    requires a.Transferred? && a.moved == [] && a.calls == [] && a.charge == Free
    requires if a.fd < 0 then a.rc == NOT_CONNECTED
             else WithTimeout(a.entry) && a.entry.value <= 0 && a.rc == TIMEOUT
    ensures Lawful(a)
  {
  }

  lemma NoStartIsLawful(a: Act)
    requires a.Transferred? && a.fd >= 0 && WithTimeout(a.entry) && a.entry.value > 0
    requires |a.calls| == 1 && a.calls[0].Clocked? && a.calls[0].errno > 0 && a.rc == -a.calls[0].errno
    requires a.moved == [] && a.charge == Free
    ensures Lawful(a)
  {
    NothingOfThese(a.calls);
  }

  lemma PlainEndIsLawful(a: Act, start: Timespec, budget: int)
    requires a.Transferred? && a.fd >= 0 && !WithTimeout(a.entry) && |a.moved| == a.size && a.rc == SUCCESS && a.charge == Free
    requires Stands(a.calls, a.moved, None, false, a.action, a.fd, start, budget) && EndsMoving(a.calls, a.action, a.fd)
    ensures Lawful(a)
  {
  }

  lemma NothingYet(action: Action, fd: int)
    ensures AtRound([], action, fd) && EndsMoving([], action, fd)
  {
  }

  /** The loop: round after round, until everything has moved or one of them fails. */
  method MoveAll(k: Kernel, action: Action, fd: int, data: array<byte>, timed: bool, start: Timespec, budget: int)
    returns (at: nat, stop: Option<(int, Charge)>, ghost calls: seq<SysCall>)
    requires timed ==> start.Valid() && start.Ns() <= k.now
    modifies k`now, k`idle, k`calls, k`table, data
    ensures old(k.now) <= k.now && at <= data.Length
    ensures k.calls == old(k.calls) + calls
    ensures Stands(calls, data[..at], stop, timed, action, fd, start, budget)
    ensures stop.None? ==> at == data.Length && AtRound(calls, action, fd) && EndsMoving(calls, action, fd)
    ensures stop.Some? ==> stop.value.0 != SUCCESS
    ensures stop.Some? && timed ==> WithinCall(stop.value.1, start.Ns(), k.now)
    ensures stop.Some? && !timed ==> stop.value.1 == Free
    ensures stop.Some? ==> stop.value.0 < 0 || stop.value.0 in {NETWORK_ERROR, NOT_CONNECTED, TIMEOUT}
    ensures stop.Some? && stop.value.0 == TIMEOUT ==> stop.value.1 == Exhausted
    ensures Moved(action, old(k.table), k.table, fd, old(data[..]), data[..], at)
  {
    hide Moved, Stands, AtRound, EndsMoving, WithinCall;
    NothingMoved(action, k.table, fd, data[..]);
    StandsAtFirst(timed, action, fd, start, budget);
    NothingYet(action, fd);
    ghost var table, bytes := k.table, data[..];
    at, stop, calls := 0, None, [];
    var todo := data.Length;
    while todo > 0
      invariant 0 <= todo && at + todo == data.Length
      invariant old(k.now) <= k.now && stop.None?
      invariant table == k.table && bytes == data[..]
      invariant Moved(action, old(k.table), table, fd, old(data[..]), bytes, at)
      invariant k.calls == old(k.calls) + calls && (todo == 0 ==> EndsMoving(calls, action, fd))
      invariant Stands(calls, data[..at], None, timed, action, fd, start, budget) && AtRound(calls, action, fd)
      decreases todo, k.idle
    {
      var cnt;
      ghost var more;
      cnt, stop, more := Round(k, action, fd, data, at, timed, start, budget, calls);
      MovedMore(action, old(k.table), table, k.table, fd, old(data[..]), bytes, data[..], at, cnt);
      table, bytes, calls := k.table, data[..], calls + more;
      at, todo := at + cnt, todo - cnt;
      if stop.Some? {
        return;
      }
    }
  }

  /** Moves the whole buffer or fails. The act recorded says what was done: the waits it
      asked for, the bytes it moved, how it ended and what it charged. */
  method PollAct(k: Kernel, action: Action, fd: int, data: array<byte>, timeout: Option<int>)
    returns (rc: int, left: Option<int>, ghost act: Act)
    requires timeout.Some? ==> IsInt(timeout.value)
    modifies k`now, k`idle, k`calls, k`acts, k`table, data
    ensures k.acts == old(k.acts) + [act] && k.calls == old(k.calls) + act.calls && Lawful(act)
    ensures IsTransferAct(act, action, fd, data.Length, timeout, rc)
    ensures |act.moved| <= data.Length && act.moved == data[..|act.moved|]
    ensures Moved(action, old(k.table), k.table, fd, old(data[..]), data[..], |act.moved|)
    ensures timeout.None? ==> left.None?
    ensures timeout.Some? ==> left == Some(LeftOf(act)) && IsInt(left.value)
    ensures old(k.now) <= k.now && WithinCall(act.charge, old(k.now), k.now)
    ensures rc <= 0 || rc == NETWORK_ERROR || rc == NOT_CONNECTED || rc == TIMEOUT
    ensures rc == TIMEOUT ==> left.Some? && left.value <= 0
  {
    hide Moved, Charged, Lawful, Stands, Narrow, AtRound, EndsMoving;
    var timed := WithTimeout(timeout);
    rc, left := SUCCESS, timeout;
    NothingMoved(action, k.table, fd, data[..]);
    if timeout.Some? {
      ChargedIsInt(timeout.value);
    }
    ghost var n := data.Length;
    if fd < 0 {
      rc := NOT_CONNECTED;
      act := Transferred(action, fd, n, [], timeout, rc, Free, []);
      NoCallsAreLawful(act);
      k.acts := k.acts + [act];
      return;
    }
    var start, errno, budget := Timespec(0, 0), 0, if timeout.Some? then timeout.value else 0;
    if timed {
      if budget <= 0 {
        rc := TIMEOUT;
        act := Transferred(action, fd, n, [], timeout, rc, Free, []);
        NoCallsAreLawful(act);
        k.acts := k.acts + [act];
        return;
      }
      errno, start := k.Clock();
      if errno != 0 {
        rc := -errno;
        act := Transferred(action, fd, n, [], timeout, rc, Free, [Clocked(errno, start)]);
        NoStartIsLawful(act);
        k.acts := k.acts + [act];
        return;
      }
    }
    var at, stop;
    ghost var first, calls := if timed then [Clocked(0, start)] else [], [];
    at, stop, calls := MoveAll(k, action, fd, data, timed, start, budget);
    assert k.calls == old(k.calls) + (first + calls);
    assert !timed ==> first + calls == calls;
    if stop.Some? {
      rc := stop.value.0;
      left := if timed then Some(Charged(budget, stop.value.1)) else timeout;
      act := Transferred(action, fd, n, data[..at], timeout, rc, stop.value.1, first + calls);
      StoppedIsLawful(act, calls, start);
      k.acts := k.acts + [act];
      return;
    }
    assert data[..at] == data[..];
    if timed {
      var now;
      errno, now := k.Clock();
      ghost var last := Clocked(errno, now);
      if errno != 0 {
        rc := -errno;
        act := Transferred(action, fd, n, data[..], timeout, rc, Free, first + (calls + [last]));
      } else {
        left := Some(Charged(budget, Measured(start, now)));
        act := Transferred(action, fd, n, data[..], timeout, SUCCESS, Measured(start, now), first + (calls + [last]));
      }
      EndIsLawful(act, calls, start, last);
    } else {
      act := Transferred(action, fd, n, data[..], timeout, SUCCESS, Free, calls);
      PlainEndIsLawful(act, start, budget);
      assert first + calls == calls;
    }
    k.acts := k.acts + [act];
  }

  /** Only the streams of one connection have moved. */
  ghost predicate OnlyStreams(before: map<int, Conn>, after: map<int, Conn>, fd: int) {
    && after.Keys == before.Keys
    && (forall f :: f in before && f != fd ==> after[f] == before[f])
    && (fd in before ==> after[fd] == before[fd].(up := after[fd].up, down := after[fd].down))
  }

  lemma OnlyStreamsStaysConsistent(before: map<int, Conn>, after: map<int, Conn>, fd: int,
                                   created: nat, closings: seq<Closing>)
    requires Consistent(before, created, closings) && OnlyStreams(before, after, fd)
    ensures Consistent(after, created, closings)
  {
    SameSocketsStayConsistent(before, after, created, closings);
  }

  /** What an honest peer makes of more bytes on a connection. */
  ghost predicate TookIn(before: Conn, after: Conn, sent: Bytes, exchanges: seq<Exchange>) {
    && (forall e :: e in exchanges ==> e.serial == before.serial)
    && Served(before.up + sent, exchanges, after.up)
    && after.down == before.down + Replies(exchanges)
  }

  /** Writes the whole buffer or fails; meanwhile the peer takes in what arrived. */
  method PollWrite(k: Kernel, fd: int, data: array<byte>, timeout: int) returns (rc: int, left: int, ghost act: Act)
    requires k.Valid() && IsInt(timeout)
    modifies k`now, k`idle, k`calls, k`acts, k`table, k`log, data
    ensures k.Valid() && IsInt(left) && old(k.log) <= k.log && old(k.now) <= k.now
    ensures k.acts == old(k.acts) + [act] && left == LeftOf(act)
    ensures IsTransferAct(act, WriteAction, fd, data.Length, Some(timeout), rc)
    ensures data[..] == old(data[..]) && act.moved <= data[..]
    ensures rc == SUCCESS ==> act.moved == data[..]
    ensures |act.moved| > 0 ==> fd in k.table
    ensures fd < 0 ==> rc == NOT_CONNECTED && act.moved == []
    ensures OnlyStreams(old(k.table), k.table, fd)
    ensures fd !in k.table ==> k.log == old(k.log)
    ensures fd in k.table && k.honest ==>
              TookIn(old(k.table)[fd], k.table[fd], act.moved, k.log[|old(k.log)|..])
  {
    hide Consistent, Explains, Charged, Served, Replies;
    var l;
    rc, l, act := PollAct(k, WriteAction, fd, data, Some(timeout));
    ExplainsSnoc(old(k.calls), old(k.acts), act);
    left := l.value;
    k.PeerStep(fd);
    OnlyStreamsStaysConsistent(old(k.table), k.table, fd, k.created, k.closings);
  }

  /** Fills the whole buffer with the next bytes of the stream, or fails. */
  method PollRead(k: Kernel, fd: int, data: array<byte>, timeout: int) returns (rc: int, left: int, ghost act: Act)
    requires k.Valid() && IsInt(timeout)
    modifies k`now, k`idle, k`calls, k`acts, k`table, data
    ensures k.Valid() && IsInt(left) && old(k.now) <= k.now
    ensures k.acts == old(k.acts) + [act] && left == LeftOf(act)
    ensures IsTransferAct(act, ReadAction, fd, data.Length, Some(timeout), rc)
    ensures rc == SUCCESS ==> act.moved == data[..]
    ensures OnlyStreams(old(k.table), k.table, fd)
    ensures fd in k.table ==> k.table[fd].up == old(k.table)[fd].up
    ensures rc == SUCCESS && data.Length > 0 ==>
              fd in k.table && old(k.table)[fd].down == data[..] + k.table[fd].down
  {
    hide Consistent, Explains, Charged;
    var l;
    rc, l, act := PollAct(k, ReadAction, fd, data, Some(timeout));
    ExplainsSnoc(old(k.calls), old(k.acts), act);
    left := l.value;
    assert data[..data.Length] == data[..];
    OnlyStreamsStaysConsistent(old(k.table), k.table, fd, k.created, k.closings);
  }
}
