/** What the records of transfers and connects look like, in the bits that poll() sets and in
    plain numbers: laws of the code that hold of every lawful act. */
module Transcripts {
  import opened Wire
  import opened Time
  import opened Acts

  // ----- transfers ------------------------------------------------------------

  /** A call of a timed transfer, by its place after the first reading of the clock. */
  lemma TimedCall(a: Act, i: nat) returns (prev2: Option<SysCall>, prev: Option<SysCall>)
    requires Lawful(a) && a.Transferred? && a.entry.Some? && a.entry.value != -1 && 0 < i < |a.calls|
    ensures a.fd >= 0 && a.entry.value > 0 && a.calls[0].Clocked? && a.calls[0].errno == 0
    ensures Allowed(prev2, prev, a.calls[i], a.action, a.fd, a.calls[0].t, a.entry.value)
    ensures prev == if i > 1 then Some(a.calls[i - 1]) else None
    ensures prev2 == if i > 2 then Some(a.calls[i - 2]) else None
  {
    hide Allowed, FailedBy, BytesMoved, LastReading;
    var rest := a.calls[1..];
    prev2, prev := Before2(rest, i - 1), Before(rest, i - 1);
    assert rest[i - 1] == a.calls[i];
  }

  /** How a timed transfer ends. */
  lemma TimedEnd(a: Act)
    requires Lawful(a) && a.Transferred? && a.entry.Some? && a.entry.value != -1 && |a.calls| > 1
    ensures var last := a.calls[|a.calls| - 1];
            if a.rc == SUCCESS then
              && last.Clocked? && last.errno == 0
              && (|a.calls| > 2 ==> IsTransfer(a.calls[|a.calls| - 2], a.action, a.fd) && a.calls[|a.calls| - 2].bytes != [])
            else FailedBy(a.calls[1..], a.calls[0].t, a.entry.value, a.rc, a.charge)
  {
    hide Careful, FailedBy, BytesMoved, LastReading;
    var rest := a.calls[1..];
    assert rest[|rest| - 1] == a.calls[|a.calls| - 1];
    if a.rc == SUCCESS && |a.calls| > 2 {
      assert rest[..|rest| - 1][|rest| - 2] == a.calls[|a.calls| - 2];
    }
  }

  /** With a budget, a write comes right after a poll that found the descriptor writable, a
      read after one that found it readable, and neither broken nor hung up; and after such a
      poll the next call is the transfer. A poll that found it neither ready nor broken is
      followed by another reading of the clock. */
  lemma TransferFollowsItsEvent(a: Act, i: nat)
    requires Lawful(a) && a.Transferred? && a.entry.Some? && a.entry.value != -1 && i < |a.calls|
    ensures a.calls[i].Wrote? || a.calls[i].Fetched? ==>
              && i > 0 && a.calls[i - 1].Polled? && a.calls[i - 1].fd == a.calls[i].fd == a.fd && a.calls[i - 1].cnt > 0
              && (a.action.WriteAction? <==> a.calls[i].Wrote?)
              && var ev := a.calls[i - 1].revents;
                 && !ev.err && !ev.hup && !ev.nval && !ev.rdhup
                 && if a.calls[i].Wrote? then ev.writable else ev.readable
    ensures a.calls[i].Polled? && a.calls[i].cnt > 0 ==>
              && a.calls[i].fd == a.fd && (a.calls[i].writing <==> a.action.WriteAction?)
              && i + 1 < |a.calls|
              && var ev := a.calls[i].revents;
                 if ev.err || ev.hup || ev.nval || ev.rdhup then a.calls[i + 1].Clocked?
                 else if a.action.WriteAction? then
                   if ev.writable then a.calls[i + 1].Wrote? else a.calls[i + 1].Clocked?
                 else
                   if ev.readable then a.calls[i + 1].Fetched? else a.calls[i + 1].Clocked?
  {
    hide Lawful, TimeDelta, Narrow, TransferCode;
    if i > 0 {
      var prev2, prev := TimedCall(a, i);
      TimedEnd(a);
      if i + 1 < |a.calls| {
        prev2, prev := TimedCall(a, i + 1);
      } else {
        assert a.calls[1..][|a.calls| - 2] == a.calls[i];
      }
    } else {
      TimedStart(a);
    }
  }

  lemma TimedStart(a: Act)
    requires Lawful(a) && a.Transferred? && a.entry.Some? && a.entry.value != -1 && a.calls != []
    ensures a.calls[0].Clocked?
  {
    hide Careful, FailedBy, BytesMoved, LastReading;
  }

  /** A poll that found the descriptor broken or hung up ends the transfer, after one more
      reading of the clock: with a network error if there was an error, and otherwise as not
      connected, charged with the time since the first reading. */
  lemma BrokenPollEnds(a: Act, i: nat)
    requires Lawful(a) && a.Transferred? && a.entry.Some? && a.entry.value != -1 && i < |a.calls|
    requires a.calls[i].Polled? && a.calls[i].cnt > 0
    requires var ev := a.calls[i].revents; ev.err || ev.hup || ev.nval || ev.rdhup
    ensures |a.calls| == i + 2 && a.calls[i + 1].Clocked?
    ensures if a.calls[i + 1].errno != 0 then a.rc == -a.calls[i + 1].errno && a.charge == Free
            else
              && a.rc == (if a.calls[i].revents.err then 0x100 else 0x400)
              && a.charge == Measured(a.calls[0].t, a.calls[i + 1].t)
  {
    hide Lawful, TimeDelta, Narrow, TransferCode;
    TransferFollowsItsEvent(a, i);
    TimedStart(a);
    TimedEnd(a);
    var prev2, prev := TimedCall(a, i + 1);
    if |a.calls| > i + 2 {
      prev2, prev := TimedCall(a, i + 2);
      assert false;
    }
    var rest := a.calls[1..];
    assert rest[|rest| - 1] == a.calls[i + 1] && rest[|rest| - 2] == a.calls[i];
  }

  /** A poll that timed out ends the transfer as a timeout with nothing left of the budget; one
      that failed ends it, after one more reading, with its errno. */
  lemma FailedPollEnds(a: Act, i: nat)
    requires Lawful(a) && a.Transferred? && a.entry.Some? && a.entry.value != -1 && i < |a.calls|
    requires a.calls[i].Polled? && a.calls[i].cnt <= 0
    ensures a.calls[i].cnt == 0 ==> |a.calls| == i + 1 && a.rc == 0x500 && a.charge == Exhausted
    ensures a.calls[i].cnt < 0 && i + 1 < |a.calls| ==>
              && |a.calls| == i + 2 && a.calls[i + 1].Clocked?
              && a.rc == -(if a.calls[i + 1].errno != 0 then a.calls[i + 1].errno else a.calls[i].errno)
    ensures a.calls[i].cnt < 0 ==> i + 1 < |a.calls|
  {
    hide Lawful, TimeDelta, Narrow, TransferCode;
    TimedStart(a);
    TimedEnd(a);
    var rest := a.calls[1..];
    var prev2, prev := TimedCall(a, i);
    if i + 1 < |a.calls| {
      prev2, prev := TimedCall(a, i + 1);
      if i + 2 < |a.calls| {
        prev2, prev := TimedCall(a, i + 2);
      }
      assert rest[i] == a.calls[i + 1] && rest[i - 1] == a.calls[i];
    } else {
      assert rest[i - 1] == a.calls[i];
    }
  }

  /** Which reads and writes are failures: an interruption, EINTR or EAGAIN, is none, whatever
      else was returned; nor is a write of no bytes. The end of a stream is a network error.
      A failure ends the transfer; after anything else it goes on, unless all has moved. */
  lemma TransferFailures(a: Act, i: nat)
    requires Lawful(a) && a.Transferred? && i < |a.calls| && (a.calls[i].Wrote? || a.calls[i].Fetched?)
    ensures a.calls[i].fd == a.fd && (a.calls[i].Wrote? <==> a.action.WriteAction?)
    ensures var c := a.calls[i];
            if c.errno != 4 && c.errno != 11 && (c.cnt < 0 || (c.Fetched? && c.cnt == 0)) then
              c.errno > 0 || c.cnt == 0 ==> |a.calls| == i + 1 && a.rc == if c.cnt < 0 then -c.errno else 0x100
            else i + 1 < |a.calls| || (a.rc == 0 && c.cnt > 0)
  {
    hide Careful, FailedBy, TimeDelta, Narrow, BytesMoved, LastReading;
    if a.entry.Some? && a.entry.value != -1 {
      TimedStart(a);
      hide Lawful;
      TimedEnd(a);
      var prev2, prev := TimedCall(a, i);
      if i + 1 < |a.calls| {
        prev2, prev := TimedCall(a, i + 1);
      } else {
        assert a.calls[1..][i - 1] == a.calls[i];
        LastTransferFails(a.calls[1..], a.calls[0].t, a.entry.value, a.rc, a.charge);
      }
    } else {
      assert a.calls[i] in a.calls;
    }
  }

  lemma LastTransferFails(calls: seq<SysCall>, start: Timespec, budget: int, rc: int, charge: Charge)
    requires calls != [] && (calls[|calls| - 1].Wrote? || calls[|calls| - 1].Fetched?)
    ensures FailedBy(calls, start, budget, rc, charge) ==> rc == TransferCode(calls[|calls| - 1])
  {
  }

  // ----- budgets --------------------------------------------------------------

  /** What the budget given decides, before anything else: none, or -1, and the act goes ahead,
      never polls with a limit, reads no clock after it began and charges nothing; any other
      one that is not positive, and the act makes no system call and times out. A transfer on
      no descriptor makes no system call either. */
  lemma EntryDecides(a: Act)
    requires Lawful(a)
    ensures a.Transferred? && a.fd < 0 ==> a.calls == [] && a.rc == 0x400 && a.charge == Free
    ensures a.entry.None? || a.entry.value == -1 ==>
              && a.charge == Free
              && (a.Connected? || (a.fd >= 0 && a.size > 0) ==> a.calls != [])
              && forall i :: 0 <= i < |a.calls| ==>
                   && !a.calls[i].Polled? && (a.calls[i].Clocked? ==> a.Connected? && i == 0)
                   && (a.calls[i].PolledMany? ==> a.calls[i].ms == -1)
    ensures a.entry.Some? && a.entry.value <= 0 && a.entry.value != -1 && (a.Transferred? ==> a.fd >= 0) ==>
              a.calls == [] && a.rc == 0x500 && a.charge == Free
  {
    hide Careful, FailedBy, LastReading, TimeDelta, Pending;
    if a.entry.None? || a.entry.value == -1 {
      forall i | 0 <= i < |a.calls|
        ensures !a.calls[i].Polled? && (a.calls[i].Clocked? ==> a.Connected? && i == 0)
        ensures a.calls[i].PolledMany? ==> a.calls[i].ms == -1
      {
        if a.Transferred? {
          assert a.calls[i] in a.calls;
        } else if i > 0 {
          var race := a.calls[1..];
          assert Follows(race[..i - 1], race[i - 1], false, a.calls[0].t, 0);
        }
      }
    }
  }

  // ----- connects -------------------------------------------------------------

  /** The socket of a successful connect: its connect() returned at once, or a poll found it,
      in the last slot that it counted and that was ready, writable with no error, no hang-up
      and a valid descriptor. The next call restored its flags. */
  lemma SuccessWasConnected(a: Act) returns (i: nat, j: nat)
    requires Lawful(a) && a.Connected? && a.rc == 0
    ensures a.fd >= 0 && 0 < i < |a.calls| - 1
    ensures a.calls[i + 1].Flagged? && a.calls[i + 1].fd == a.fd && a.calls[i + 1].ret >= 0
    ensures a.calls[i].Began? || a.calls[i].PolledMany?
    ensures a.calls[i].Began? ==> a.calls[i].fd == a.fd && a.calls[i].ret >= 0
    ensures a.calls[i].PolledMany? ==>
              && j < a.calls[i].ret <= |a.calls[i].slots|
              && var slot := a.calls[i].slots[j];
                 slot.fd == a.fd && slot.revents.writable && !slot.revents.err && !slot.revents.hup && !slot.revents.nval
    ensures a.calls[i].PolledMany? ==>
              forall x :: j < x < a.calls[i].ret ==>
                var ev := a.calls[i].slots[x].revents; !ev.writable || ev.err || ev.hup || ev.nval
  {
    hide CarefulRace, Attempts, AtOnce, LastReading, Pending, TimeDelta;
    var timed := WithTimeout(a.entry);
    var rest := a.calls[1..];
    var race := if timed then rest[..|rest| - 1] else rest;
    i, j := |race| - 1, 0;
    assert race[i - 1] == a.calls[i] && race[i] == a.calls[i + 1];
    if a.calls[i].PolledMany? {
      var counted := a.calls[i].slots[..a.calls[i].ret];
      j := LastReadyIs(counted);
      forall x | j < x < a.calls[i].ret
        ensures var ev := a.calls[i].slots[x].revents; !ev.writable || ev.err || ev.hup || ev.nval
      {
        assert counted[x] == a.calls[i].slots[x];
      }
    }
  }

  lemma {:induction false} LastReadyIs(ev: seq<PollFd>) returns (j: nat)
    requires LastReady(ev) >= 0
    ensures j < |ev| && ev[j].fd == LastReady(ev)
    ensures ev[j].revents.writable && !ev[j].revents.err && !ev[j].revents.hup && !ev[j].revents.nval
    ensures forall x :: j < x < |ev| ==>
              !ev[x].revents.writable || ev[x].revents.err || ev[x].revents.hup || ev[x].revents.nval
  {
    var n := |ev| - 1;
    var slot := ev[n];
    if slot.revents.writable && !Broken(slot.revents) {
      j := n;
    } else {
      j := LastReadyIs(ev[..n]);
      assert forall x :: j < x < n ==> ev[..n][x] == ev[x];
    }
  }

  /** The calls of a race: all but the first reading and, with a budget, the last one. */
  function RaceOf(a: Act): seq<SysCall>
    requires a.calls != []
  {
    if a.entry.Some? && a.entry.value != -1 && |a.calls| > 1 then a.calls[1..|a.calls| - 1] else a.calls[1..]
  }

  lemma RaceIsCareful(a: Act)
    requires Lawful(a) && a.Connected? && a.calls != []
    ensures var timed := a.entry.Some? && a.entry.value != -1;
            && a.calls[0].Clocked?
            && CarefulRace(RaceOf(a), timed, a.calls[0].t, if timed then a.entry.value else 0)
            && (|a.calls| > 1 && (timed ==> a.calls[|a.calls| - 1].errno == 0) ==>
                  RaceEnded(RaceOf(a), timed, a.calls[0].t, if timed then a.entry.value else 0, a.rc, a.fd))
            && (|a.calls| > 1 && timed ==> a.calls[|a.calls| - 1].Clocked?)
  {
    hide CarefulRace, RaceEnded, Attempts, AtOnce, LastReading, Pending, TimeDelta;
    if |a.calls| > 1 {
      var rest := a.calls[1..];
      assert rest[..|rest| - 1] == a.calls[1..|a.calls| - 1];
    } else {
      assert a.calls[1..] == [];
      NoRace(a);
    }
  }

  lemma NoRace(a: Act)
    ensures forall timed, start, budget :: CarefulRace([], timed, start, budget)
  {
  }

  /** Every poll is of exactly the sockets whose connect() was in progress, errno EINPROGRESS,
      and that no poll since has found broken and no restoring of flags has failed on. */
  lemma PollsWhatIsInProgress(a: Act, i: nat, f: int)
    requires Lawful(a) && a.Connected? && 0 < i < |a.calls| && a.calls[i].PolledMany?
    ensures (exists j :: 0 <= j < |a.calls[i].slots| && a.calls[i].slots[j].fd == f) <==> InProgress(a.calls[1..i], f)
  {
    hide Lawful, Pending, JustRead, InProgress, Over, Running;
    RaceIsCareful(a);
    var race, slots := RaceOf(a), a.calls[i].slots;
    assert race[i - 1] == a.calls[i] && race[..i - 1] == a.calls[1..i];
    PendingIsInProgress(a.calls[1..i], f);
    assert f in FdsOf(slots) <==> f in Pending(a.calls[1..i]);
    if f in FdsOf(slots) {
      var slot :| slot in slots && slot.fd == f;
      var j :| 0 <= j < |slots| && slots[j] == slot;
      assert slots[j].fd == f;
    }
  }

  predicate InProgress(calls: seq<SysCall>, f: int) {
    exists i :: 0 <= i < |calls| && calls[i].Began? && calls[i].fd == f && calls[i].ret < 0 && calls[i].errno == 115
             && forall x :: i < x < |calls| ==> !GivesUp(calls[x], f)
  }

  /** A poll that found the socket broken, or flags that could not be set on it. */
  predicate GivesUp(c: SysCall, f: int) {
    || (c.Flagged? && c.fd == f && c.ret < 0)
    || (c.PolledMany? && 0 < c.ret <= |c.slots|
        && exists j :: 0 <= j < c.ret && c.slots[j].fd == f
                    && (c.slots[j].revents.err || c.slots[j].revents.hup || c.slots[j].revents.nval))
  }

  lemma {:induction false} PendingIsInProgress(calls: seq<SysCall>, f: int)
    ensures f in Pending(calls) <==> InProgress(calls, f)
  {
    hide GivesUp, BrokenIn;
    if calls != [] {
      var n := |calls| - 1;
      var before, c := calls[..n], calls[n];
      PendingIsInProgress(before, f);
      GivenUp(Pending(before), c, f);
      if InProgress(before, f) && !GivesUp(c, f) {
        var i :| 0 <= i < n && before[i].Began? && before[i].fd == f && before[i].ret < 0 && before[i].errno == 115
                 && forall x :: i < x < n ==> !GivesUp(before[x], f);
        assert calls[i] == before[i];
        assert forall x :: i < x < |calls| ==> calls[x] == if x < n then before[x] else c;
        assert InProgress(calls, f);
      }
      if InProgress(calls, f) {
        var i :| 0 <= i < |calls| && calls[i].Began? && calls[i].fd == f && calls[i].ret < 0 && calls[i].errno == 115
                 && forall x :: i < x < |calls| ==> !GivesUp(calls[x], f);
        if i < n {
          assert before[i] == calls[i] && forall x :: i < x < n ==> before[x] == calls[x];
          assert InProgress(before, f);
        }
      }
    }
  }

  lemma GivenUp(before: set<int>, c: SysCall, f: int)
    ensures f in StillPending(before, c)
       <==> (c.Began? && c.fd == f && c.ret < 0 && c.errno == 115) || (f in before && !GivesUp(c, f))
  {
    if c.PolledMany? && 0 < c.ret <= |c.slots| {
      var counted := c.slots[..c.ret];
      if BrokenIn(counted, f) {
        var j :| 0 <= j < |counted| && counted[j].fd == f && Broken(counted[j].revents);
        assert c.slots[j] == counted[j];
      }
      if GivesUp(c, f) {
        var j :| 0 <= j < c.ret && c.slots[j].fd == f
                 && (c.slots[j].revents.err || c.slots[j].revents.hup || c.slots[j].revents.nval);
        assert counted[j] == c.slots[j];
      }
    }
  }

  /** A connect gives a network error only when no socket is in progress any more. */
  lemma NetworkErrorLeavesNone(a: Act, f: int)
    requires Lawful(a) && a.Connected? && |a.calls| > 1 && a.rc == 0x100
    requires a.entry.Some? && a.entry.value != -1 ==> a.calls[|a.calls| - 1].Clocked? && a.calls[|a.calls| - 1].errno == 0
    ensures !InProgress(RaceOf(a), f)
  {
    hide Lawful, Pending, TimeDelta, Narrow;
    RaceIsCareful(a);
    PendingIsInProgress(RaceOf(a), f);
  }

  /** What a poll that marked no slot comes to: an interruption, EINTR, and the same sockets are
      polled again for as long, at once; no time left, a timeout; anything else, its errno. */
  lemma FruitlessPoll(a: Act, i: nat)
    requires Lawful(a) && a.Connected? && a.calls != [] && i < |RaceOf(a)|
    requires RaceOf(a)[i].PolledMany? && RaceOf(a)[i].ret <= 0
    requires a.entry.Some? && a.entry.value != -1 && |a.calls| > 1 ==>
               a.calls[|a.calls| - 1].Clocked? && a.calls[|a.calls| - 1].errno == 0
    ensures var race := RaceOf(a);
            if race[i].ret < 0 && race[i].errno == 4 then
              i + 1 < |race| && race[i + 1].PolledMany? && race[i + 1].ms == race[i].ms
            else i + 1 == |race| && a.rc == if race[i].ret == 0 then 0x500 else -race[i].errno
  {
    hide Lawful, Pending, TimeDelta, Narrow;
    RaceIsCareful(a);
    var race := RaceOf(a);
    assert Follows(race[..i], race[i], a.entry.Some? && a.entry.value != -1, a.calls[0].t,
                   if a.entry.Some? && a.entry.value != -1 then a.entry.value else 0);
    assert race[..i + 1] == race[..i] + [race[i]];
    ProgressSnoc(race[..i], race[i]);
    var slot := race[i].slots[0];
    assert slot.fd in FdsOf(race[i].slots) && slot.fd in Pending(race[..i + 1]);
    if i + 1 < |race| {
      assert Follows(race[..i + 1], race[i + 1], a.entry.Some? && a.entry.value != -1, a.calls[0].t,
                     if a.entry.Some? && a.entry.value != -1 then a.entry.value else 0);
    } else {
      assert race[..i + 1] == race;
    }
  }
}
