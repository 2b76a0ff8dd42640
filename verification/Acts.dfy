/** The record of what the client did: every system call with its outcome, and, for each
    transfer and each connect, the stretch of system calls it made. What such an act returns
    and what it takes off the time budget is fixed by that stretch. */
module Acts {
  import opened Wire
  import opened Time

  // Return codes: zero, a positive code of the client or server, or a negated errno.
  const SUCCESS := 0
  const NETWORK_ERROR := 0x0100
  const UNKNOWN_NODE := 0x0200
  const MASTER_NOT_FOUND := 0x0300
  const NOT_CONNECTED := 0x0400
  const TIMEOUT := 0x0500
  const INVALID_ROUTING := 0x0600

  const EINTR := 4
  const EBADF := 9
  const EAGAIN := 11
  const EINVAL := 22
  const EINPROGRESS := 115

  /** The bits of a poll() result. */
  datatype Events = Events(readable: bool, writable: bool, err: bool, hup: bool, nval: bool, rdhup: bool)

  const NO_EVENTS := Events(false, false, false, false, false, false)

  /** A slot of the array given to poll(). */
  datatype PollFd = PollFd(fd: int, revents: Events)

  /** The event asked for: POLLOUT for a write, POLLIN for a read. */
  predicate Signals(revents: Events, writing: bool) {
    if writing then revents.writable else revents.readable
  }

  predicate Broken(revents: Events) {
    revents.err || revents.hup || revents.nval
  }

  /** A slot the connect loop can act on. */
  predicate Useful(slot: PollFd) {
    Broken(slot.revents) || slot.revents.writable
  }

  predicate BrokenIn(ev: seq<PollFd>, f: int) {
    exists i :: 0 <= i < |ev| && ev[i].fd == f && Broken(ev[i].revents)
  }

  /** The last slot, of those given, whose socket is ready and not broken; -1 if none is. */
  function LastReady(ev: seq<PollFd>): int {
    if ev == [] then -1
    else
      var slot := ev[|ev| - 1];
      if slot.revents.writable && !Broken(slot.revents) then slot.fd else LastReady(ev[..|ev| - 1])
  }

  // ----- system calls ---------------------------------------------------------

  /** A system call and what came of it. A write has the bytes that were taken, a read the
      bytes that were delivered, a poll of many sockets all its slots as it left them. */
  datatype SysCall =
    | Clocked(errno: int, t: Timespec)
    | Polled(fd: int, writing: bool, ms: int, cnt: int, revents: Events, errno: int)
    | Wrote(fd: int, bytes: Bytes, cnt: int, errno: int)
    | Fetched(fd: int, bytes: Bytes, cnt: int, errno: int)
    | Opened(fd: int)
    | Flagged(fd: int, nonblocking: bool, ret: int)
    | Began(fd: int, ret: int, errno: int)
    | PolledMany(slots: seq<PollFd>, ms: int, ret: int, errno: int)

  datatype Action = ReadAction | WriteAction

  /** A transfer with the bytes it moved, or a connect with the descriptor it returned. */
  datatype Act =
    | Transferred(action: Action, fd: int, size: nat, moved: Bytes,
                  entry: Option<int>, rc: int, charge: Charge, calls: seq<SysCall>)
    | Connected(addresses: nat, fd: int,
                entry: Option<int>, rc: int, charge: Charge, calls: seq<SysCall>)

  predicate IsTransferAct(a: Act, action: Action, fd: int, size: nat, entry: Option<int>, rc: int) {
    a.Transferred? && a.action == action && a.fd == fd && a.size == size && a.entry == entry && a.rc == rc
  }

  predicate WithTimeout(timeout: Option<int>) {
    timeout.Some? && timeout.value != INFINITE
  }

  /** The last time read, or zero when none was. */
  function LastReading(calls: seq<SysCall>): Timespec {
    if calls == [] then Timespec(0, 0)
    else
      var c := calls[|calls| - 1];
      if c.Clocked? && c.errno == 0 then c.t else LastReading(calls[..|calls| - 1])
  }

  // ----- transfers ------------------------------------------------------------

  function BytesMoved(calls: seq<SysCall>): Bytes {
    if calls == [] then []
    else
      var c := calls[|calls| - 1];
      BytesMoved(calls[..|calls| - 1]) + if c.Wrote? || c.Fetched? then c.bytes else []
  }

  predicate IsTransfer(c: SysCall, action: Action, fd: int) {
    match action
    case WriteAction => c.Wrote? && c.fd == fd && |c.bytes| == if c.cnt > 0 then c.cnt else 0
    case ReadAction => c.Fetched? && c.fd == fd && |c.bytes| == if c.cnt > 0 then c.cnt else 0
  }

  /** A poll that let the transfer go ahead. */
  predicate GoAhead(c: SysCall, action: Action, fd: int) {
    c.Polled? && c.fd == fd && c.cnt > 0 && !Broken(c.revents) && !c.revents.rdhup && Signals(c.revents, action.WriteAction?)
  }

  /** A good reading, not before the first one, just made: what it leaves of the budget. */
  predicate JustRead(prev: Option<SysCall>, start: Timespec, budget: int, ms: int) {
    && prev.Some? && prev.value.Clocked? && prev.value.errno == 0
    && start.Valid() && prev.value.t.Valid() && start.Ns() <= prev.value.t.Ns()
    && ms == Narrow(budget - TimeDelta(start, prev.value.t)) && ms >= 1
  }

  /** A poll that failed, or that found the connection broken. */
  predicate Bad(c: SysCall) {
    c.Polled? && (c.cnt < 0 || (c.cnt > 0 && (Broken(c.revents) || c.revents.rdhup)))
  }

  /** A call after which the loop goes round again: a transfer, unless it failed, and a poll
      that woke up for nothing. */
  predicate GoesRound(c: SysCall, action: Action, fd: int) {
    || (IsTransfer(c, action, fd) && TransferCode(c) == SUCCESS)
    || (c.Polled? && c.cnt > 0 && !Bad(c) && !Signals(c.revents, action.WriteAction?))
  }

  /** What may come next in a timed transfer, after the last call and the one before it: a
      reading of the clock, at the start of a round or to see what a bad poll cost; a poll, for
      exactly the time that the reading just before it leaves, which is positive; a transfer,
      right after a poll that said it can go ahead. After anything else it is over. */
  predicate Allowed(prev2: Option<SysCall>, prev: Option<SysCall>, c: SysCall,
                    action: Action, fd: int, start: Timespec, budget: int)
  {
    || (c.Clocked? && (prev.None? || GoesRound(prev.value, action, fd) || Bad(prev.value)))
    || (&& c.Polled? && c.fd == fd && c.writing == action.WriteAction? && JustRead(prev, start, budget, c.ms)
        && !(prev2.Some? && Bad(prev2.value)))
    || (IsTransfer(c, action, fd) && prev.Some? && GoAhead(prev.value, action, fd))
  }

  function Before(calls: seq<SysCall>, i: nat): Option<SysCall>
    requires i <= |calls|
  {
    if i == 0 then None else Some(calls[i - 1])
  }

  function Before2(calls: seq<SysCall>, i: nat): Option<SysCall>
    requires i <= |calls|
  {
    if i < 2 then None else Some(calls[i - 2])
  }

  ghost predicate Careful(calls: seq<SysCall>, action: Action, fd: int, start: Timespec, budget: int) {
    forall i :: 0 <= i < |calls| ==>
      Allowed(Before2(calls, i), Before(calls, i), calls[i], action, fd, start, budget)
  }

  lemma CarefulSnoc(calls: seq<SysCall>, c: SysCall, action: Action, fd: int, start: Timespec, budget: int)
    requires Careful(calls, action, fd, start, budget)
    requires Allowed(Before2(calls, |calls|), Before(calls, |calls|), c, action, fd, start, budget)
    ensures Careful(calls + [c], action, fd, start, budget)
  {
    hide Allowed;
    forall i | 0 <= i < |calls + [c]|
      ensures Allowed(Before2(calls + [c], i), Before(calls + [c], i), (calls + [c])[i], action, fd, start, budget)
    {
      assert Before(calls + [c], i) == Before(calls, i) && Before2(calls + [c], i) == Before2(calls, i);
    }
  }

  /** A wait is never for no time or without limit. It is for at most the budget if and only
      if, up to 32 bits, less than the budget has been measured; that fails only in a call
      that goes on for more than 2^31 ms past its budget. */
  predicate WaitFits(elapsed: int, budget: int, ms: int) {
    && 1 <= ms
    && (ms <= budget <==> elapsed % WORD_LIMIT < budget)
    && (elapsed <= budget + HALF_WORD_LIMIT ==> ms == budget - elapsed <= budget)
  }

  lemma WaitIsBounded(start: Timespec, now: Timespec, budget: int, ms: int)
    requires IsInt(budget) && budget > 0
    requires start.Valid() && now.Valid() && start.Ns() <= now.Ns()
    requires ms == Narrow(budget - TimeDelta(start, now)) && ms >= 1
    ensures WaitFits(TimeDelta(start, now), budget, ms)
  {
    TimeDeltaBounds(start, now);
    hide TimeDelta;
  }

  /** What poll() is asked to wait in a transfer. */
  lemma WaitsAreBounded(calls: seq<SysCall>, action: Action, fd: int, start: Timespec, budget: int, i: nat)
    requires Careful(calls, action, fd, start, budget) && IsInt(budget) && budget > 0
    requires i < |calls| && calls[i].Polled?
    ensures i > 0 && calls[i - 1].Clocked? && calls[i - 1].errno == 0
    ensures WaitFits(TimeDelta(start, calls[i - 1].t), budget, calls[i].ms)
  {
    hide TimeDelta, WaitFits;
    assert Allowed(Before2(calls, i), Before(calls, i), calls[i], action, fd, start, budget);
    WaitIsBounded(start, calls[i - 1].t, budget, calls[i].ms);
  }

  /** What a read() or write() comes to: a write of nothing and an interruption are no
      failures; the end of a stream is. */
  function TransferCode(c: SysCall): int
    requires c.Wrote? || c.Fetched?
  {
    if c.Wrote? && c.cnt >= 0 then SUCCESS
    else if c.Fetched? && c.cnt > 0 then SUCCESS
    else if c.errno == EINTR || c.errno == EAGAIN then SUCCESS
    else if c.cnt < 0 then -c.errno
    else NETWORK_ERROR
  }

  /** What a poll() comes to that is no reason to go on. */
  function PollCode(c: SysCall): int
    requires c.Polled?
  {
    if c.cnt < 0 then -c.errno
    else if c.cnt == 0 then TIMEOUT
    else if c.revents.err then NETWORK_ERROR
    else if Broken(c.revents) || c.revents.rdhup then NOT_CONNECTED
    else SUCCESS
  }

  /** The return code and the charge of a transfer that failed, by its last system calls:
      the failing clock, an elapsed budget, the poll and the reading after it, or the
      failing transfer. */
  predicate FailedBy(calls: seq<SysCall>, start: Timespec, budget: int, rc: int, charge: Charge)
    requires calls != []
  {
    var last := calls[|calls| - 1];
    match last
    case Clocked(errno, t) =>
      if errno != 0 then rc == -errno && charge == Free
      else if |calls| > 1 && Bad(calls[|calls| - 2]) then
        charge == Measured(start, t) && rc == PollCode(calls[|calls| - 2])
      else charge == Exhausted && rc == TIMEOUT && Narrow(budget - TimeDelta(start, t)) <= 0
    case Polled(_, _, _, cnt, _, _) => cnt == 0 && rc == TIMEOUT && charge == Exhausted
    case Wrote(_, _, _, _) => rc == TransferCode(last) && charge == Free
    case Fetched(_, _, _, _) => rc == TransferCode(last) && charge == Free
    case _ => false
  }

  /** A transfer with a budget: the first reading starts it; a success ends with another. */
  ghost predicate TimedTransfer(action: Action, fd: int, calls: seq<SysCall>, budget: int, rc: int, charge: Charge) {
    && calls != [] && calls[0].Clocked?
    && if calls[0].errno != 0 then |calls| == 1 && rc == -calls[0].errno && charge == Free
       else
         var start, rest := calls[0].t, calls[1..];
         && rest != []
         && Careful(rest, action, fd, start, budget)
         && if rc == SUCCESS then
              && rest[|rest| - 1] == Clocked(0, LastReading(rest)) && charge == Measured(start, LastReading(rest))
              && EndsMoving(rest[..|rest| - 1], action, fd)
            else FailedBy(rest, start, budget, rc, charge)
  }

  /** A transfer that moved everything stops at once: nothing was to be moved, or the last call
      moved something. */
  predicate EndsMoving(calls: seq<SysCall>, action: Action, fd: int) {
    calls != [] ==> var last := calls[|calls| - 1]; IsTransfer(last, action, fd) && last.bytes != []
  }

  ghost predicate PlainTransfer(action: Action, fd: int, calls: seq<SysCall>, rc: int) {
    && (forall c :: c in calls ==> IsTransfer(c, action, fd))
    && (forall i :: 0 <= i < |calls| - 1 ==> GoesRound(calls[i], action, fd))
    && if calls == [] then rc == SUCCESS
       else
         var last := calls[|calls| - 1];
         IsTransfer(last, action, fd) && rc == TransferCode(last)
  }

  ghost predicate LawfulTransfer(a: Act)
    requires a.Transferred?
  {
    && a.moved == BytesMoved(a.calls) && |a.moved| <= a.size
    && (a.rc == SUCCESS ==> |a.moved| == a.size)
    && if a.fd < 0 then a.calls == [] && a.rc == NOT_CONNECTED && a.charge == Free
       else if !WithTimeout(a.entry) then
         && PlainTransfer(a.action, a.fd, a.calls, a.rc) && a.charge == Free
         && (a.rc == SUCCESS ==> EndsMoving(a.calls, a.action, a.fd))
       else if a.entry.value <= 0 then a.calls == [] && a.rc == TIMEOUT && a.charge == Free
       else TimedTransfer(a.action, a.fd, a.calls, a.entry.value, a.rc, a.charge)
  }

  // ----- connects -------------------------------------------------------------

  /** How many sockets were asked for. */
  function Attempts(calls: seq<SysCall>): nat {
    if calls == [] then 0
    else Attempts(calls[..|calls| - 1]) + if calls[|calls| - 1].Opened? then 1 else 0
  }

  /** Sockets whose connect is in progress, or done and not yet given up, after one more call:
      those found broken in the counted slots of a poll, and those whose flags could not be
      restored, are no longer among them. */
  function StillPending(before: set<int>, c: SysCall): set<int> {
    if c.Began? && c.ret < 0 && c.errno == EINPROGRESS then before + {c.fd}
    else if c.PolledMany? && 0 < c.ret <= |c.slots| then set f | f in before && !BrokenIn(c.slots[..c.ret], f)
    else if c.Flagged? && c.ret < 0 then before - {c.fd}
    else before
  }

  function Pending(calls: seq<SysCall>): set<int> {
    if calls == [] then {} else StillPending(Pending(calls[..|calls| - 1]), calls[|calls| - 1])
  }

  /** A connect() that succeeded at once, directly followed by restoring the flags. */
  predicate AtOnceAt(calls: seq<SysCall>, i: int)
    requires 0 <= i < |calls|
  {
    && i > 0
    && calls[i - 1].Began? && calls[i - 1].ret >= 0
    && calls[i].Flagged? && calls[i].ret >= 0 && calls[i].fd == calls[i - 1].fd
  }

  predicate AtOnce(calls: seq<SysCall>) {
    exists i :: 0 <= i < |calls| && AtOnceAt(calls, i)
  }

  lemma AtOnceSnoc(calls: seq<SysCall>, c: SysCall)
    ensures AtOnce(calls + [c]) <==> AtOnce(calls) || AtOnceAt(calls + [c], |calls|)
  {
    var more := calls + [c];
    forall i | 0 <= i < |calls| ensures AtOnceAt(more, i) <==> AtOnceAt(calls, i) {
    }
    if AtOnce(more) {
      var i :| 0 <= i < |more| && AtOnceAt(more, i);
      assert i < |calls| ==> AtOnceAt(calls, i);
    }
    if AtOnce(calls) {
      var i :| 0 <= i < |calls| && AtOnceAt(calls, i);
      assert AtOnceAt(more, i);
    }
  }

  lemma ProgressSnoc(calls: seq<SysCall>, c: SysCall)
    ensures Attempts(calls + [c]) == Attempts(calls) + if c.Opened? then 1 else 0
    ensures LastReading(calls + [c]) == if c.Clocked? && c.errno == 0 then c.t else LastReading(calls)
    ensures BytesMoved(calls + [c]) == BytesMoved(calls) + if c.Wrote? || c.Fetched? then c.bytes else []
    ensures Pending(calls + [c]) == StillPending(Pending(calls), c)
  {
    assert (calls + [c])[..|calls|] == calls;
  }

  // ----- the calls of a race --------------------------------------------------

  /** The socket that a call connected, -1 if none: a connect() that returned at once, or a
      poll that found it ready, the last of the slots it counted. */
  function Winner(c: SysCall): int {
    if c.Began? && c.ret >= 0 then c.fd
    else if c.PolledMany? && 0 < c.ret <= |c.slots| then LastReady(c.slots[..c.ret])
    else -1
  }

  predicate Interrupted(c: SysCall) {
    c.PolledMany? && c.ret < 0 && c.errno == EINTR
  }

  predicate Starts(c: SysCall) {
    c.Opened? || c.Flagged? || c.Began?
  }

  function FdsOf(slots: seq<PollFd>): set<int> {
    set slot | slot in slots :: slot.fd
  }

  /** Nothing comes after a clock that failed, a poll that timed out or failed, and flags
      restored on a connected socket. */
  predicate Over(race: seq<SysCall>) {
    && race != []
    && var last := race[|race| - 1];
       || (last.Clocked? && last.errno != 0)
       || (last.PolledMany? && last.ret <= 0 && !Interrupted(last))
       || (last.Flagged? && last.ret >= 0 && |race| > 1 && Winner(race[|race| - 2]) >= 0)
  }

  /** No socket has just been connected, and there is more to come. */
  predicate Running(race: seq<SysCall>) {
    !Over(race) && (race != [] ==> Winner(race[|race| - 1]) < 0)
  }

  /** What may come next in a race: first only attempts to start a socket, each a socket, made
      non-blocking, and connected; then readings of the clock, and polls of exactly the sockets
      still pending, each for what the reading just before it leaves, or without limit when
      there is no budget, and again for as long when interrupted. Once a call has connected a
      socket, the next one restores its flags. */
  predicate Follows(race: seq<SysCall>, c: SysCall, timed: bool, start: Timespec, budget: int) {
    var prev := Before(race, |race|);
    && !Over(race)
    && (c.Flagged? || Running(race))
    && (prev.Some? && Interrupted(prev.value) ==> c.PolledMany?)
    && match c
    case Clocked(_, _) => timed && !(prev.Some? && prev.value.Clocked?)
    case Opened(_) => forall p :: p in race ==> Starts(p)
    case Flagged(fd, nonblocking, _) =>
      prev.Some? && fd >= 0 && ((prev.value == Opened(fd) && nonblocking) || Winner(prev.value) == fd)
    case Began(fd, _, _) =>
      prev.Some? && prev.value.Flagged? && prev.value.fd == fd && prev.value.nonblocking && prev.value.ret >= 0
    case PolledMany(slots, ms, _, _) =>
      && FdsOf(slots) == Pending(race) && slots != []
      && if !timed then ms == -1
         else JustRead(prev, start, budget, ms) || (prev.Some? && Interrupted(prev.value) && prev.value.ms == ms)
    case _ => false
  }

  ghost predicate CarefulRace(race: seq<SysCall>, timed: bool, start: Timespec, budget: int) {
    forall i :: 0 <= i < |race| ==> Follows(race[..i], race[i], timed, start, budget)
  }

  lemma CarefulRaceSnoc(race: seq<SysCall>, c: SysCall, timed: bool, start: Timespec, budget: int)
    requires CarefulRace(race, timed, start, budget) && Follows(race, c, timed, start, budget)
    ensures CarefulRace(race + [c], timed, start, budget)
  {
    hide Follows;
    forall i | 0 <= i < |race + [c]| ensures Follows((race + [c])[..i], (race + [c])[i], timed, start, budget) {
      assert (race + [c])[..i] == race[..i];
      assert i == |race| ==> race[..i] == race;
    }
  }

  /** Each timed poll of a race waits for what some reading leaves, with nothing in between but
      interrupted polls. */
  lemma {:induction false} RaceWaitsAreBounded(race: seq<SysCall>, start: Timespec, budget: int, i: nat) returns (j: nat)
    requires CarefulRace(race, true, start, budget) && IsInt(budget) && budget > 0
    requires i < |race| && race[i].PolledMany?
    ensures j < i && race[j].Clocked? && race[j].errno == 0 && forall x :: j < x < i ==> Interrupted(race[x])
    ensures WaitFits(TimeDelta(start, race[j].t), budget, race[i].ms)
  {
    hide WaitFits, TimeDelta, Pending;
    assert Follows(race[..i], race[i], true, start, budget);
    if JustRead(Before(race[..i], i), start, budget, race[i].ms) {
      j := i - 1;
      WaitIsBounded(start, race[j].t, budget, race[i].ms);
    } else {
      j := RaceWaitsAreBounded(race, start, budget, i - 1);
    }
  }

  /** Why a race of sockets ended as it did, by the last system calls of the race: it was won by
      the socket that the last call but one connected, and whose flags the last call restored.
      A network error means that every connect that was begun has failed. */
  ghost predicate RaceEnded(race: seq<SysCall>, timed: bool, start: Timespec, budget: int, rc: int, fd: int)
  {
    if rc == NETWORK_ERROR then forall f :: f !in Pending(race)
    else if race == [] then false
    else
      var last := race[|race| - 1];
      match last
      case Flagged(f, _, ret) =>
        rc == SUCCESS && f == fd && fd >= 0 && ret >= 0 && |race| > 1 && Winner(race[|race| - 2]) == fd
      case Clocked(errno, t) =>
        timed && if errno != 0 then rc == -errno else rc == TIMEOUT && Narrow(budget - TimeDelta(start, t)) <= 0
      case PolledMany(_, _, ret, errno) =>
        ret <= 0 && !Interrupted(last) && errno > 0 && rc == if ret == 0 then TIMEOUT else -errno
      case _ => false
  }

  ghost predicate LawfulConnect(a: Act)
    requires a.Connected?
  {
    var timed := WithTimeout(a.entry);
    if timed && a.entry.value <= 0 then a.calls == [] && a.rc == TIMEOUT && a.charge == Free
    else
      && a.calls != [] && a.calls[0].Clocked?
      && if a.calls[0].errno != 0 then |a.calls| == 1 && a.rc == -a.calls[0].errno && a.charge == Free
         else
           var start, rest := a.calls[0].t, a.calls[1..];
           && (timed ==> rest != [] && rest[|rest| - 1].Clocked? && a.charge == Measured(start, LastReading(rest)))
           && (!timed ==> a.charge == Free)
           && var race := if timed then rest[..|rest| - 1] else rest;
           && CarefulRace(race, timed, start, if timed then a.entry.value else 0)
           && Attempts(race) <= a.addresses
           && (Attempts(race) == a.addresses || AtOnce(race))
           && if timed && rest[|rest| - 1].errno != 0 then a.rc == -rest[|rest| - 1].errno
              else
                && (AtOnce(race) ==> a.rc == SUCCESS)
                && RaceEnded(race, timed, start, if timed then a.entry.value else 0, a.rc, a.fd)
  }

  // ----- acts -----------------------------------------------------------------

  ghost predicate Lawful(a: Act) {
    if a.Transferred? then LawfulTransfer(a) else LawfulConnect(a)
  }

  function AllCalls(acts: seq<Act>): seq<SysCall> {
    if acts == [] then [] else AllCalls(acts[..|acts| - 1]) + acts[|acts| - 1].calls
  }

  /** The acts account for every system call, and lawfully so. */
  ghost predicate Explains(calls: seq<SysCall>, acts: seq<Act>) {
    calls == AllCalls(acts) && forall a :: a in acts ==> Lawful(a)
  }

  lemma ExplainsSnoc(calls: seq<SysCall>, acts: seq<Act>, a: Act)
    requires Explains(calls, acts) && Lawful(a)
    ensures Explains(calls + a.calls, acts + [a])
  {
    assert (acts + [a])[..|acts|] == acts;
  }

  lemma ExplainsNothing()
    ensures Explains([], [])
  {
  }

  // ----- one budget, many acts ------------------------------------------------

  /** What an act leaves of the budget it was given. */
  function LeftOf(a: Act): int {
    if a.entry.Some? then Charged(a.entry.value, a.charge) else 0
  }

  function LeftAfter(entry: int, acts: seq<Act>): int {
    if acts == [] then entry else LeftOf(acts[|acts| - 1])
  }

  /** Each act got the budget that the one before it left. */
  ghost predicate Chained(entry: int, acts: seq<Act>) {
    forall i :: 0 <= i < |acts| ==> acts[i].entry == Some(LeftAfter(entry, acts[..i]))
  }

  /** The new acts passed one budget along. */
  ghost predicate Spends(before: seq<Act>, after: seq<Act>, entry: int, left: int) {
    && before <= after
    && Chained(entry, after[|before|..])
    && left == LeftAfter(entry, after[|before|..])
  }

  /** The new acts passed one budget along; what is left of it is of no further use. */
  ghost predicate Shared(before: seq<Act>, after: seq<Act>, entry: int) {
    before <= after && Chained(entry, after[|before|..])
  }

  lemma SharedNothing(acts: seq<Act>, entry: int)
    ensures Shared(acts, acts, entry)
  {
  }

  lemma SharedMore(a: seq<Act>, b: seq<Act>, c: seq<Act>, e0: int, e1: int)
    requires Spends(a, b, e0, e1) && Shared(b, c, e1)
    ensures Shared(a, c, e0)
    ensures a <= b <= c && c[|a|..] == b[|a|..] + c[|b|..]
  {
    SpendsMore(a, b, c, e0, e1, LeftAfter(e1, c[|b|..]));
  }

  lemma SpendsIsShared(a: seq<Act>, b: seq<Act>, e0: int, e1: int)
    requires Spends(a, b, e0, e1)
    ensures Shared(a, b, e0)
  {
  }

  lemma SpendsNothing(acts: seq<Act>, entry: int)
    ensures Spends(acts, acts, entry, entry)
  {
  }

  lemma SpendsOne(acts: seq<Act>, a: Act)
    requires a.entry.Some?
    ensures Spends(acts, acts + [a], a.entry.value, LeftOf(a))
  {
    assert (acts + [a])[|acts|..] == [a];
  }

  lemma SpendsMore(a: seq<Act>, b: seq<Act>, c: seq<Act>, e0: int, e1: int, e2: int)
    requires Spends(a, b, e0, e1) && Spends(b, c, e1, e2)
    ensures Spends(a, c, e0, e2)
  {
    hide LeftAfter;
    var x, y, z := b[|a|..], c[|b|..], c[|a|..];
    assert z == x + y;
    LeftAfterMore(e0, x, y);
    forall i | 0 <= i < |z| ensures z[i].entry == Some(LeftAfter(e0, z[..i])) {
      if i < |x| {
        assert z[..i] == x[..i];
      } else {
        assert z[..i] == x + y[..i - |x|];
        LeftAfterMore(e0, x, y[..i - |x|]);
      }
    }
  }

  lemma LeftAfterMore(entry: int, x: seq<Act>, y: seq<Act>)
    ensures LeftAfter(entry, x + y) == LeftAfter(LeftAfter(entry, x), y)
  {
  }
}
