/** Connecting to a node: a race between sockets, one for each of its addresses. */
module ConnectRace {
  import opened Wire
  import opened Time
  import opened Acts
  import opened Kernels
  import opened Transfer

  // ----- the bookkeeping, as facts about values -------------------------------

  /** A socket made in this call and still untouched by any transfer. */
  ghost predicate IsNew(conn: Conn, base: nat, quiet: bool) {
    conn.serial >= base && conn.up == [] && (quiet ==> conn.down == [])
  }

  /** The slots hold exactly the sockets of this call that are open, each once, next to its
      original flags; nothing that was open before has been touched. */
  ghost predicate Race(t0: map<int, Conn>, c0: seq<Closing>, base: nat, quiet: bool,
                       table: map<int, Conn>, closings: seq<Closing>, slots: seq<int>, flags: seq<bool>)
  {
    && |slots| == |flags|
    && (forall f :: f in t0 ==> t0[f].serial < base && f in table && table[f] == t0[f])
    && (forall f :: f in table && table[f].serial < base ==> f in t0)
    && (forall i :: 0 <= i < |slots| && slots[i] >= 0 ==>
          slots[i] in table && IsNew(table[slots[i]], base, quiet) && table[slots[i]].born == flags[i])
    && (forall i, j :: 0 <= i < j < |slots| && slots[i] >= 0 ==> slots[i] != slots[j])
    && (forall f :: f in table && table[f].serial >= base ==> f in slots)
    && OnlyNewClosings(c0, closings, base)
  }

  ghost predicate OnlyNewClosings(c0: seq<Closing>, closings: seq<Closing>, base: nat) {
    && c0 <= closings
    && forall i :: |c0| <= i < |closings| ==> closings[i].OfSocket? && closings[i].serial >= base
  }

  function Without(slots: seq<int>, f: int): (r: seq<int>)
    ensures |r| == |slots|
    ensures forall i :: 0 <= i < |slots| ==> r[i] == if slots[i] == f then -1 else slots[i]
  {
    seq(|slots|, i requires 0 <= i < |slots| => if slots[i] == f then -1 else slots[i])
  }

  /** How many slots hold a socket. */
  function Live(slots: seq<int>): nat {
    if slots == [] then 0 else (if slots[0] >= 0 then 1 else 0) + Live(slots[1..])
  }

  lemma {:induction false} LiveDrops(slots: seq<int>, f: int)
    requires f >= 0
    ensures Live(Without(slots, f)) <= Live(slots)
    ensures f in slots ==> Live(Without(slots, f)) < Live(slots)
  {
    if slots != [] {
      assert Without(slots, f)[1..] == Without(slots[1..], f);
      LiveDrops(slots[1..], f);
    }
  }

  lemma StaysInWithout(slots: seq<int>, f: int, g: int)
    requires g in slots && g != f
    ensures g in Without(slots, f)
  {
  }

  lemma RaceAddsNone(t0: map<int, Conn>, c0: seq<Closing>, base: nat, quiet: bool,
                     table: map<int, Conn>, closings: seq<Closing>, more: seq<Closing>,
                     slots: seq<int>, flags: seq<bool>, flag: bool)
    requires Race(t0, c0, base, quiet, table, closings, slots, flags)
    requires closings <= more && OnlyNewClosings(closings, more, base)
    ensures Race(t0, c0, base, quiet, table, more, slots + [-1], flags + [flag])
  {
  }

  lemma RaceAdds(t0: map<int, Conn>, c0: seq<Closing>, base: nat, quiet: bool,
                 table: map<int, Conn>, closings: seq<Closing>, slots: seq<int>, flags: seq<bool>,
                 fd: int, conn: Conn)
    requires Race(t0, c0, base, quiet, table, closings, slots, flags)
    requires fd >= 0 && fd !in table && IsNew(conn, base, quiet)
    ensures Race(t0, c0, base, quiet, table[fd := conn], closings, slots + [fd], flags + [conn.born])
  {
  }

  lemma RaceDrops(t0: map<int, Conn>, c0: seq<Closing>, base: nat, quiet: bool,
                  table: map<int, Conn>, closings: seq<Closing>, slots: seq<int>, flags: seq<bool>, fd: int)
    requires Race(t0, c0, base, quiet, table, closings, slots, flags)
    requires fd >= 0 && fd in slots
    ensures fd in table
    ensures Race(t0, c0, base, quiet, table - {fd}, closings + [OfSocket(table[fd].serial)], Without(slots, fd), flags)
    ensures Live(Without(slots, fd)) < Live(slots)
  {
    hide OnlyNewClosings, Live;
    LiveDrops(slots, fd);
    var after, left := table - {fd}, Without(slots, fd);
    forall f | f in after && after[f].serial >= base ensures f in left {
      StaysInWithout(slots, fd, f);
    }
    OneMoreClosing(c0, closings, base, table[fd].serial);
  }

  lemma OneMoreClosing(c0: seq<Closing>, closings: seq<Closing>, base: nat, serial: nat)
    requires OnlyNewClosings(c0, closings, base) && serial >= base
    ensures OnlyNewClosings(c0, closings + [OfSocket(serial)], base)
  {
  }

  // ----- the steps of the race ------------------------------------------------

  datatype Attempt = Failed | InProgress | Done

  /** The system calls made for one address, and what they come to: -1 from connect() with
      EINPROGRESS is no failure. */
  predicate Tried(calls: seq<SysCall>, state: Attempt, sock: int, flags: bool) {
    && 1 <= |calls| <= 4
    && calls[0] == Opened(sock)
    && (sock >= 0 || (sock == -1 && state == Failed && |calls| == 1))
    && (|calls| > 1 ==> calls[1].Flagged? && calls[1].fd == sock && calls[1].nonblocking)
    && (|calls| > 2 ==> calls[1].ret >= 0 && calls[2].Began? && calls[2].fd == sock)
    && (|calls| > 3 ==> calls[2].ret >= 0 && calls[3].Flagged? && calls[3].fd == sock && calls[3].nonblocking == flags)
    && match state
       case Failed =>
         || |calls| == 1
         || (|calls| == 2 && calls[1].ret < 0)
         || (|calls| == 3 && calls[2].ret < 0 && calls[2].errno != EINPROGRESS)
         || (|calls| == 4 && calls[3].ret < 0)
       case InProgress => |calls| == 3 && calls[2].ret < 0 && calls[2].errno == EINPROGRESS
       case Done => |calls| == 4 && calls[3].ret >= 0
  }

  /** The body of the first loop: make a non-blocking socket and start to connect it. */
  method TryAddress(k: Kernel)
    returns (state: Attempt, sock: int, flags: bool, ghost tried: seq<SysCall>)
    requires k.Tidy()
    modifies k`now, k`table, k`created, k`closings, k`calls
    ensures k.Tidy() && old(k.created) <= k.created && old(k.now) <= k.now
    ensures k.calls == old(k.calls) + tried && Tried(tried, state, sock, flags)
    ensures sock == -1 || (sock >= 0 && sock !in old(k.table))
    ensures state == Failed ==>
              k.table == old(k.table) && OnlyNewClosings(old(k.closings), k.closings, old(k.created))
    ensures state != Failed ==>
              && sock >= 0 && sock in k.table
              && k.table == old(k.table)[sock := k.table[sock]]
              && IsNew(k.table[sock], old(k.created), k.honest) && flags == k.table[sock].born
              && k.closings == old(k.closings)
    ensures state == Done ==> k.table[sock].nonblocking == k.table[sock].born
    ensures state == InProgress ==> k.table[sock].nonblocking
  {
    hide Consistent, Tried, OnlyNewClosings, IsNew;
    state, flags := Failed, false;
    NoneClosed(k.closings, k.created);
    sock := k.Socket();
    tried := [Opened(sock)];
    OpenedOnly(sock, flags);
    if sock == -1 {
      return;
    }
    IsNewSocket(k.table[sock], old(k.created), k.honest);
    var got := k.GetFlags(sock);
    if got.None? {
      Abandon(k, sock, old(k.table), old(k.created));
      return;
    }
    flags := got.value;
    var ret := k.SetFlags(sock, true);
    tried := [Opened(sock), Flagged(sock, true, ret)];
    if ret < 0 {
      FlaggedOnly(sock, ret, flags);
      Abandon(k, sock, old(k.table), old(k.created));
      return;
    }
    var errno;
    ret, errno := k.StartConnect(sock);
    tried := tried + [Began(sock, ret, errno)];
    if ret < 0 {
      BegunOnly(tried, sock, flags);
      if errno != EINPROGRESS {
        Abandon(k, sock, old(k.table), old(k.created));
        return;
      }
      state := InProgress;
    } else {
      ret := k.SetFlags(sock, flags);
      tried := tried + [Flagged(sock, flags, ret)];
      BegunAndFlagged(tried, sock, flags);
      if ret < 0 {
        Abandon(k, sock, old(k.table), old(k.created));
        return;
      }
      state := Done;
    }
  }

  lemma OpenedOnly(sock: int, flags: bool)
    requires sock >= -1
    ensures Tried([Opened(sock)], Failed, sock, flags)
  {
  }

  lemma FlaggedOnly(sock: int, ret: int, flags: bool)
    requires sock >= 0 && ret < 0
    ensures Tried([Opened(sock), Flagged(sock, true, ret)], Failed, sock, flags)
  {
  }

  lemma BegunOnly(calls: seq<SysCall>, sock: int, flags: bool)
    requires sock >= 0 && |calls| == 3 && calls[0] == Opened(sock)
    requires calls[1].Flagged? && calls[1].fd == sock && calls[1].nonblocking && calls[1].ret >= 0
    requires calls[2].Began? && calls[2].fd == sock && calls[2].ret < 0
    ensures Tried(calls, if calls[2].errno == EINPROGRESS then InProgress else Failed, sock, flags)
  {
  }

  lemma BegunAndFlagged(calls: seq<SysCall>, sock: int, flags: bool)
    requires sock >= 0 && |calls| == 4 && calls[0] == Opened(sock)
    requires calls[1].Flagged? && calls[1].fd == sock && calls[1].nonblocking && calls[1].ret >= 0
    requires calls[2].Began? && calls[2].fd == sock && calls[2].ret >= 0
    requires calls[3].Flagged? && calls[3].fd == sock && calls[3].nonblocking == flags
    ensures Tried(calls, if calls[3].ret >= 0 then Done else Failed, sock, flags)
  {
  }

  lemma NoneClosed(closings: seq<Closing>, base: nat)
    ensures OnlyNewClosings(closings, closings, base)
  {
  }

  lemma IsNewSocket(conn: Conn, base: nat, quiet: bool)
    requires conn.serial >= base && conn.up == [] && (quiet ==> conn.down == [])
    ensures forall b :: IsNew(conn.(nonblocking := b), base, quiet)
  {
  }

  method Abandon(k: Kernel, sock: int, ghost before: map<int, Conn>, ghost base: nat)
    requires k.Tidy() && sock in k.table && sock !in before && k.table == before[sock := k.table[sock]]
    requires k.table[sock].serial >= base
    modifies k`table, k`closings
    ensures k.Tidy() && k.table == before
    ensures OnlyNewClosings(old(k.closings), k.closings, base)
  {
    k.Close(sock);
  }

  // ----- the record of a race -------------------------------------------------

  /** The slots hold exactly these sockets. */
  ghost predicate Holds(slots: seq<int>, sockets: set<int>) {
    forall f :: f in sockets <==> f >= 0 && f in slots
  }

  /** A race so far, by its system calls: every address given was tried, none connected at
      once, the slots hold the sockets still in the race, and `now` is the last reading. */
  ghost predicate Racing(race: seq<SysCall>, addresses: nat, slots: seq<int>, now: Timespec) {
    && Attempts(race) == addresses && !AtOnce(race) && LastReading(race) == now
    && Holds(slots, Pending(race))
    && (race != [] ==> !(race[|race| - 1].Began? && race[|race| - 1].ret >= 0))
  }

  lemma RacingBegins()
    ensures Racing([], 0, [], Timespec(0, 0))
  {
  }

  /** One more call that is no connect(). */
  lemma RacingSnoc(race: seq<SysCall>, c: SysCall, addresses: nat, slots: seq<int>, now: Timespec, left: seq<int>)
    requires Racing(race, addresses, slots, now) && !c.Opened? && !c.Began?
    requires Holds(left, StillPending(Pending(race), c))
    ensures Racing(race + [c], addresses, left, if c.Clocked? && c.errno == 0 then c.t else now)
  {
    ProgressSnoc(race, c);
    AtOnceSnoc(race, c);
  }

  lemma {:induction false} RacingInterrupted(race: seq<SysCall>, polls: seq<SysCall>, addresses: nat, slots: seq<int>,
                                             now: Timespec)
    requires Racing(race, addresses, slots, now)
    requires forall c :: c in polls ==> c.PolledMany? && c.ret < 0
    ensures Racing(race + polls, addresses, slots, now)
  {
    if polls == [] {
      assert race + polls == race;
    } else {
      var n := |polls| - 1;
      hide Racing;
      RacingInterrupted(race, polls[..n], addresses, slots, now);
      assert polls[n] in polls;
      RacingSame(race + polls[..n], polls[n], addresses, slots, now);
      assert race + polls == race + polls[..n] + [polls[n]];
    }
  }

  /** After a scan of the counted slots the broken sockets are out of the race. */
  lemma RacingScanned(race: seq<SysCall>, c: SysCall, addresses: nat, slots: seq<int>, now: Timespec, left: seq<int>)
    requires Racing(race, addresses, slots, now)
    requires c.PolledMany? && 0 < c.ret <= |c.slots| && |left| == |slots|
    requires forall x :: 0 <= x < |slots| ==> left[x] == if BrokenIn(c.slots[..c.ret], slots[x]) then -1 else slots[x]
    ensures Racing(race + [c], addresses, left, now)
  {
    hide BrokenIn;
    forall f | f >= 0 && f in slots && !BrokenIn(c.slots[..c.ret], f) ensures f in left {
      var x :| 0 <= x < |slots| && slots[x] == f;
      assert left[x] == f;
    }
    RacingSnoc(race, c, addresses, slots, now, left);
  }

  lemma RacingUnclaimed(race: seq<SysCall>, c: SysCall, addresses: nat, slots: seq<int>, now: Timespec)
    requires Racing(race, addresses, slots, now) && c.Flagged? && c.ret < 0 && c.fd >= 0
    ensures Racing(race + [c], addresses, Without(slots, c.fd), now)
  {
    forall f | f in slots && f != c.fd ensures f in Without(slots, c.fd) {
      StaysInWithout(slots, c.fd, f);
    }
    RacingSnoc(race, c, addresses, slots, now, Without(slots, c.fd));
  }

  /** One more address. */
  lemma RacingTried(race: seq<SysCall>, addresses: nat, slots: seq<int>, now: Timespec,
                    tried: seq<SysCall>, state: Attempt, sock: int, flags: bool)
    requires Racing(race, addresses, slots, now) && Tried(tried, state, sock, flags)
    requires sock >= 0 ==> sock !in slots
    ensures state != Done ==> Racing(race + tried, addresses + 1, slots + [if state == Failed then -1 else sock], now)
    ensures state == Done ==>
              && Attempts(race + tried) == addresses + 1 && AtOnce(race + tried) && LastReading(race + tried) == now
              && (race + tried)[|race + tried| - 1] == Flagged(sock, flags, tried[3].ret)
  {
    hide Attempts, AtOnce, LastReading, Pending, BytesMoved;
    var r1 := race + tried[..1];
    assert r1 == race + [tried[0]];
    NextCall(race, tried[0]);
    if |tried| == 1 {
      assert r1 == race + tried;
    } else {
      var r2 := race + tried[..2];
      assert r2 == r1 + [tried[1]];
      NextCall(r1, tried[1]);
      if |tried| == 2 {
        assert r2 == race + tried;
      } else {
        var r3 := race + tried[..3];
        assert r3 == r2 + [tried[2]];
        NextCall(r2, tried[2]);
        if |tried| == 3 {
          assert r3 == race + tried;
        } else {
          assert race + tried == r3 + [tried[3]];
          NextCall(r3, tried[3]);
        }
      }
    }
  }

  /** An attempt to start a socket is carried out with care. */
  lemma CarefulTried(race: seq<SysCall>, tried: seq<SysCall>, state: Attempt, sock: int, flags: bool,
                     timed: bool, start: Timespec, budget: int)
    requires CarefulRace(race, timed, start, budget) && Running(race) && forall c :: c in race ==> Starts(c)
    requires Tried(tried, state, sock, flags)
    ensures CarefulRace(race + tried, timed, start, budget) && forall c :: c in race + tried ==> Starts(c)
    ensures state != Done ==> Running(race + tried)
    ensures state == Done ==> |race + tried| > 1 && Winner((race + tried)[|race + tried| - 2]) == sock
  {
    hide CarefulRace, Pending;
    var r1 := race + [tried[0]];
    assert race != [] ==> Starts(race[|race| - 1]);
    CarefulRaceSnoc(race, tried[0], timed, start, budget);
    if |tried| == 1 {
      assert race + tried == r1;
    } else {
      var r2 := r1 + [tried[1]];
      CarefulRaceSnoc(r1, tried[1], timed, start, budget);
      if |tried| == 2 {
        assert race + tried == r2;
      } else {
        var r3 := r2 + [tried[2]];
        CarefulRaceSnoc(r2, tried[2], timed, start, budget);
        if |tried| == 3 {
          assert race + tried == r3;
        } else {
          CarefulRaceSnoc(r3, tried[3], timed, start, budget);
          assert race + tried == r3 + [tried[3]];
        }
      }
    }
  }

  lemma NextCall(race: seq<SysCall>, c: SysCall)
    ensures Attempts(race + [c]) == Attempts(race) + if c.Opened? then 1 else 0
    ensures LastReading(race + [c]) == if c.Clocked? && c.errno == 0 then c.t else LastReading(race)
    ensures Pending(race + [c]) == StillPending(Pending(race), c)
    ensures AtOnce(race + [c])
       <==> AtOnce(race)
            || (race != [] && race[|race| - 1].Began? && race[|race| - 1].ret >= 0
                && c.Flagged? && c.ret >= 0 && c.fd == race[|race| - 1].fd)
  {
    ProgressSnoc(race, c);
    AtOnceSnoc(race, c);
  }

  /** The sockets in a run of slots, in slot order. */
  function Sockets(slots: seq<int>): (r: seq<int>)
    ensures |r| <= |slots|
  {
    if slots == [] then []
    else
      var n := |slots| - 1;
      Sockets(slots[..n]) + if slots[n] >= 0 then [slots[n]] else []
  }

  lemma {:induction false} SocketsInSlots(slots: seq<int>)
    requires forall x, y :: 0 <= x < y < |slots| && slots[x] >= 0 ==> slots[x] != slots[y]
    ensures forall f :: f in Sockets(slots) <==> f >= 0 && f in slots
    ensures forall a, b :: 0 <= a < b < |Sockets(slots)| ==> Sockets(slots)[a] != Sockets(slots)[b]
  {
    if slots != [] {
      var n := |slots| - 1;
      SocketsInSlots(slots[..n]);
      assert slots == slots[..n] + [slots[n]];
      assert slots[n] >= 0 ==> slots[n] !in slots[..n];
    }
  }

  lemma OneMoreSlot(slots: seq<int>, i: nat)
    requires i < |slots|
    ensures Sockets(slots[..i + 1]) == Sockets(slots[..i]) + if slots[i] >= 0 then [slots[i]] else []
  {
    assert slots[..i + 1][..i] == slots[..i];
  }

  /** Lists the sockets for poll(), all of them and in slot order. */
  method Gather(fds: array<int>, ev: array<PollFd>) returns (j: nat)
    requires ev.Length == fds.Length
    modifies ev
    ensures j == |Sockets(fds[..])| <= ev.Length
    ensures forall a :: 0 <= a < j ==> ev[a].fd == Sockets(fds[..])[a]
  {
    hide Sockets;
    j := 0;
    NoSlots();
    for i := 0 to fds.Length
      invariant j == |Sockets(fds[..i])| <= i
      invariant forall a :: 0 <= a < j ==> ev[a].fd == Sockets(fds[..i])[a]
    {
      OneMoreSlot(fds[..], i);
      assert fds[..][..i] == fds[..i] && fds[..][..i + 1] == fds[..i + 1];
      if fds[i] >= 0 {
        ev[j] := PollFd(fds[i], NO_EVENTS);
        j := j + 1;
      }
    }
    assert fds[..fds.Length] == fds[..];
  }

  lemma NoSlots()
    ensures Sockets([]) == []
  {
  }

  /** Forgets a socket that was closed. */
  method Retire(fds: array<int>, f: int)
    modifies fds
    ensures fds[..] == Without(old(fds[..]), f)
  {
    for j := 0 to fds.Length
      invariant forall x :: 0 <= x < fds.Length ==>
                  fds[x] == if x < j && old(fds[x]) == f then -1 else old(fds[x])
    {
      if fds[j] == f {
        fds[j] := -1;
      }
    }
  }

  method DropBroken(k: Kernel, f: int, fds: array<int>,
                    ghost t0: map<int, Conn>, ghost c0: seq<Closing>, ghost base: nat, ghost flags: seq<bool>)
    requires k.Tidy() && f >= 0 && f in fds[..]
    requires Race(t0, c0, base, k.honest, k.table, k.closings, fds[..], flags)
    modifies k`table, k`closings, fds
    ensures k.Tidy()
    ensures k.table.Keys <= old(k.table).Keys
    ensures Race(t0, c0, base, k.honest, k.table, k.closings, fds[..], flags)
    ensures fds[..] == Without(old(fds[..]), f)
    ensures forall g :: g in old(fds[..]) && g != f ==> g in fds[..]
    ensures Live(fds[..]) < Live(old(fds[..]))
  {
    ghost var slots := fds[..];
    RaceDrops(t0, c0, base, k.honest, k.table, k.closings, slots, flags, f);
    k.Close(f);
    Retire(fds, f);
    forall g | g in slots && g != f ensures g in fds[..] {
      StaysInWithout(slots, f, g);
    }
  }

  lemma NothingScanned(ev: seq<PollFd>)
    ensures LastReady(ev[..0]) == -1 && forall f :: !BrokenIn(ev[..0], f)
  {
  }

  lemma ScannedOneMore(ev: seq<PollFd>, i: nat)
    requires i < |ev|
    ensures LastReady(ev[..i + 1])
         == if ev[i].revents.writable && !Broken(ev[i].revents) then ev[i].fd else LastReady(ev[..i])
    ensures forall f :: BrokenIn(ev[..i + 1], f) <==> BrokenIn(ev[..i], f) || (ev[i].fd == f && Broken(ev[i].revents))
  {
    var a, b := ev[..i], ev[..i + 1];
    assert b[..i] == a && b[i] == ev[i];
    forall f ensures BrokenIn(b, f) <==> BrokenIn(a, f) || (ev[i].fd == f && Broken(ev[i].revents)) {
      if BrokenIn(a, f) {
        var j :| 0 <= j < i && a[j].fd == f && Broken(a[j].revents);
        assert b[j] == a[j];
      }
      if BrokenIn(b, f) {
        var j :| 0 <= j <= i && b[j].fd == f && Broken(b[j].revents);
        assert j < i ==> a[j] == b[j];
      }
    }
  }

  /** Looks at the first slots only, as many as poll() counted: closes the broken
      sockets, and remembers the last one that is ready. */
  method Scan(k: Kernel, ev: seq<PollFd>, fds: array<int>,
              ghost t0: map<int, Conn>, ghost c0: seq<Closing>, ghost base: nat, ghost flags: seq<bool>)
    returns (ready: int)
    requires k.Tidy()
    requires Race(t0, c0, base, k.honest, k.table, k.closings, fds[..], flags)
    requires forall a :: 0 <= a < |ev| ==> ev[a].fd >= 0 && ev[a].fd in fds[..]
    requires forall a, b :: 0 <= a < b < |ev| ==> ev[a].fd != ev[b].fd
    modifies k`table, k`closings, fds
    ensures k.Tidy()
    ensures k.table.Keys <= old(k.table).Keys
    ensures Race(t0, c0, base, k.honest, k.table, k.closings, fds[..], flags)
    ensures ready == -1 || (ready >= 0 && ready in fds[..])
    ensures Live(fds[..]) <= Live(old(fds[..]))
    ensures (exists i :: 0 <= i < |ev| && Useful(ev[i])) ==>
              ready >= 0 || Live(fds[..]) < Live(old(fds[..]))
    ensures ready == LastReady(ev)
    ensures forall x :: 0 <= x < fds.Length ==> fds[x] == if BrokenIn(ev, old(fds[x])) then -1 else old(fds[x])
  {
    hide Race, Consistent, BrokenIn, LastReady;
    ready := -1;
    NothingScanned(ev);
    ghost var seen, dropped, slots := false, false, fds[..];
    ghost var live := Live(slots);
    for i := 0 to |ev|
      invariant k.Tidy() && slots == fds[..] && k.table.Keys <= old(k.table).Keys
      invariant Race(t0, c0, base, k.honest, k.table, k.closings, slots, flags)
      invariant forall a :: i <= a < |ev| ==> ev[a].fd in slots
      invariant ready == -1 || (ready >= 0 && ready in slots)
      invariant ready != -1 ==> forall a :: i <= a < |ev| ==> ev[a].fd != ready
      invariant if dropped then Live(slots) < live else Live(slots) == live
      invariant seen ==> ready >= 0 || dropped
      invariant !seen ==> forall x :: 0 <= x < i ==> !Useful(ev[x])
      invariant ready == LastReady(ev[..i])
      invariant forall x :: 0 <= x < fds.Length ==>
                  fds[x] == if BrokenIn(ev[..i], old(fds[x])) then -1 else old(fds[x])
    {
      ScannedOneMore(ev, i);
      var f, revents := ev[i].fd, ev[i].revents;
      if revents.err || revents.hup || revents.nval {
        DropBroken(k, f, fds, t0, c0, base, flags);
        assert forall x :: 0 <= x < fds.Length ==> fds[x] == fds[..][x];
        seen, dropped, slots := true, true, fds[..];
      } else if revents.writable {
        ready := f;
        seen := true;
      }
    }
    assert ev[..|ev|] == ev;
  }

  /** Gives the ready socket its flags back, or closes it when that fails. */
  method Claim(k: Kernel, ready: int, fds: array<int>, flags: array<bool>,
               ghost t0: map<int, Conn>, ghost c0: seq<Closing>, ghost base: nat)
    returns (claimed: bool, ghost call: SysCall)
    requires k.Tidy() && fds.Length == flags.Length
    requires Race(t0, c0, base, k.honest, k.table, k.closings, fds[..], flags[..])
    requires ready >= 0 && ready in fds[..]
    modifies k`table, k`closings, k`calls, fds
    ensures k.Tidy()
    ensures k.table.Keys <= old(k.table).Keys
    ensures Race(t0, c0, base, k.honest, k.table, k.closings, fds[..], flags[..])
    ensures k.calls == old(k.calls) + [call] && call.Flagged? && call.fd == ready && (claimed <==> call.ret >= 0)
    ensures claimed ==> fds[..] == old(fds[..]) && ready in k.table && k.table[ready].nonblocking == k.table[ready].born
    ensures !claimed ==> fds[..] == Without(old(fds[..]), ready) && Live(fds[..]) < Live(old(fds[..]))
  {
    hide Race, Consistent;
    claimed, call := false, Flagged(ready, false, -1);
    ghost var slots := fds[..];
    for i := 0 to fds.Length
      invariant k.Tidy() && !claimed && k.table.Keys <= old(k.table).Keys
      invariant Race(t0, c0, base, k.honest, k.table, k.closings, fds[..], flags[..])
      invariant if ready in slots[..i] then
                  && fds[..] == Without(slots, ready) && Live(fds[..]) < Live(slots)
                  && k.calls == old(k.calls) + [call] && call.Flagged? && call.fd == ready && call.ret < 0
                else fds[..] == slots && k.table == old(k.table) && k.calls == old(k.calls)
    {
      if fds[i] == ready {
        assert ready !in slots[..i];
        SlotKeepsFlags(t0, c0, base, k.honest, k.table, k.closings, slots, flags[..], i);
        SlotsAreDistinct(t0, c0, base, k.honest, k.table, k.closings, slots, flags[..]);
        var ret := k.SetFlags(ready, flags[i]);
        call := Flagged(ready, flags[i], ret);
        if ret < 0 {
          RaceDrops(t0, c0, base, k.honest, k.table, k.closings, slots, flags[..], ready);
          k.Close(ready);
          fds[i] := -1;
          assert fds[..] == Without(slots, ready);
        } else {
          RaceKeepsFlags(t0, c0, base, k.honest, old(k.table), k.closings, slots, flags[..], ready, flags[i]);
          claimed := true;
          return;
        }
      }
      assert slots[..i + 1] == slots[..i] + [slots[i]];
    }
    assert slots[..fds.Length] == slots;
  }

  lemma SlotKeepsFlags(t0: map<int, Conn>, c0: seq<Closing>, base: nat, quiet: bool,
                       table: map<int, Conn>, closings: seq<Closing>, slots: seq<int>, flags: seq<bool>, i: nat)
    requires Race(t0, c0, base, quiet, table, closings, slots, flags)
    requires i < |slots| && slots[i] >= 0
    ensures slots[i] in table && |flags| == |slots| && table[slots[i]].born == flags[i]
  {
  }

  lemma RaceKeepsFlags(t0: map<int, Conn>, c0: seq<Closing>, base: nat, quiet: bool,
                       table: map<int, Conn>, closings: seq<Closing>, slots: seq<int>, flags: seq<bool>,
                       fd: int, nonblocking: bool)
    requires Race(t0, c0, base, quiet, table, closings, slots, flags)
    requires fd >= 0 && fd in slots
    ensures fd in table
    ensures Race(t0, c0, base, quiet, table[fd := table[fd].(nonblocking := nonblocking)], closings, slots, flags)
  {
  }

  // ----- cleaning up ----------------------------------------------------------

  ghost function Losers(slots: seq<int>, winner: int): set<int> {
    set f | f in slots && f >= 0 && f != winner
  }

  /** A close() made while cleaning up: of a losing slot's socket, or of a number that was
      not open or sits in two slots. */
  ghost predicate Accounted(c: Closing, table: map<int, Conn>, slots: seq<int>, winner: int) {
    match c
    case OfSocket(s) => exists f :: f in Losers(slots, winner) && f in table && table[f].serial == s
    case Stray(f) =>
      && f in Losers(slots, winner)
      && (f !in table || exists i, j :: 0 <= i < j < |slots| && slots[i] == f && slots[j] == f)
  }

  method Cleanup(k: Kernel, fds: array<int>, winner: int)
    requires k.Tidy()
    modifies k`table, k`closings, fds
    ensures k.Tidy()
    ensures k.table == old(k.table) - Losers(old(fds[..]), winner)
    ensures old(k.closings) <= k.closings
    ensures forall x :: |old(k.closings)| <= x < |k.closings| ==>
              Accounted(k.closings[x], old(k.table), old(fds[..]), winner)
  {
    hide Consistent;
    KeysAreDescriptors(k.table, k.created, k.closings);
    ghost var slots, table := fds[..], k.table;
    for i := 0 to fds.Length
      invariant k.Tidy()
      invariant fds[i..] == slots[i..]
      invariant k.table == table - Losers(slots[..i], winner)
      invariant old(k.closings) <= k.closings
      invariant forall x :: |old(k.closings)| <= x < |k.closings| ==>
                  Accounted(k.closings[x], table, slots, winner)
    {
      assert fds[i] == slots[i];
      assert slots[..i + 1] == slots[..i] + [slots[i]];
      var f := fds[i];
      if f >= 0 && f != winner {
        assert f in Losers(slots, winner);
        if f !in k.table && f in table {
          var x :| 0 <= x < i && slots[x] == f;
        }
        k.Close(f);
        fds[i] := -1;
      }
    }
    assert slots[..fds.Length] == slots;
  }

  /** The outcome of a race: no socket of the call is left open but the winner, and of what
      was open before at most descriptor 0 is gone. */
  ghost predicate Settled(t0: map<int, Conn>, c0: seq<Closing>, base: nat, quiet: bool,
                          table: map<int, Conn>, closings: seq<Closing>, winner: int, atOnce: bool)
  {
    && (forall f :: f in table && table[f].serial >= base ==> f == winner)
    && (winner >= 0 ==> winner in table && IsNew(table[winner], base, quiet)
                        && table[winner].nonblocking == table[winner].born && winner !in t0)
    && (forall f :: f in table && table[f].serial < base ==> f in t0 && table[f] == t0[f])
    && (forall f :: f in t0 && (f != 0 || !atOnce) ==> f in table)
    && (atOnce && 0 in t0 ==> 0 !in table)
    && c0 <= closings
    && (forall x :: |c0| <= x < |closings| ==>
          || (closings[x].OfSocket? && closings[x].serial >= base)
          || (atOnce && (closings[x] == Stray(0) || (0 in t0 && closings[x] == OfSocket(t0[0].serial)))))
  }

  lemma SettlesAfterRace(t0: map<int, Conn>, c0: seq<Closing>, base: nat, quiet: bool,
                         table: map<int, Conn>, closings: seq<Closing>, slots: seq<int>, flags: seq<bool>,
                         after: map<int, Conn>, more: seq<Closing>, winner: int)
    requires Race(t0, c0, base, quiet, table, closings, slots, flags)
    requires winner == -1 || (winner >= 0 && winner in slots && table[winner].nonblocking == table[winner].born)
    requires forall f :: f in table ==> f >= 0
    requires after == table - Losers(slots, winner)
    requires closings <= more
    requires forall x :: |closings| <= x < |more| ==> Accounted(more[x], table, slots, winner)
    ensures Settled(t0, c0, base, quiet, after, more, winner, false)
  {
  }

  /** The slots from the winner's own onward still hold the zeros they were set up with. */
  ghost predicate StillZero(slots: seq<int>, won: seq<int>) {
    && |won| > 0 && |slots| >= |won|
    && slots[..|won| - 1] == won[..|won| - 1]
    && forall i :: |won| - 1 <= i < |slots| ==> slots[i] == 0
  }

  lemma WonSlots(won: seq<int>, slots: seq<int>)
    requires StillZero(slots, won)
    ensures forall i :: 0 <= i < |won| - 1 ==> slots[i] == won[i]
  {
    forall i | 0 <= i < |won| - 1 ensures slots[i] == won[i] {
      assert slots[..|won| - 1][i] == won[..|won| - 1][i];
    }
  }

  /** Every close() of the cleanup is of a losing socket, or of descriptor 0. */
  lemma AtOnceCloses(t0: map<int, Conn>, c0: seq<Closing>, base: nat, quiet: bool,
                     table: map<int, Conn>, closings: seq<Closing>, won: seq<int>, flags: seq<bool>, slots: seq<int>,
                     winner: int, c: Closing)
    requires Race(t0, c0, base, quiet, table, closings, won, flags)
    requires StillZero(slots, won) && won[|won| - 1] == winner && winner >= 0
    requires Accounted(c, table, slots, winner)
    ensures || (c.OfSocket? && c.serial >= base)
            || c == Stray(0) || (0 in t0 && c == OfSocket(t0[0].serial))
  {
    WonSlots(won, slots);
    match c {
      case OfSocket(s) =>
        var f :| f in Losers(slots, winner) && f in table && table[f].serial == s;
        if f != 0 {
          var i :| 0 <= i < |slots| && slots[i] == f;
          assert won[i] == f;
        }
      case Stray(f) =>
        assert f == 0;
    }
  }

  lemma SettlesAtOnce(t0: map<int, Conn>, c0: seq<Closing>, base: nat, quiet: bool,
                      table: map<int, Conn>, closings: seq<Closing>, won: seq<int>, flags: seq<bool>, slots: seq<int>,
                      after: map<int, Conn>, more: seq<Closing>, winner: int)
    requires Race(t0, c0, base, quiet, table, closings, won, flags)
    requires StillZero(slots, won) && won[|won| - 1] == winner
    requires winner >= 0 && table[winner].nonblocking == table[winner].born
    requires forall f :: f in table ==> f >= 0
    requires after == table - Losers(slots, winner)
    requires closings <= more
    requires forall x :: |closings| <= x < |more| ==> Accounted(more[x], table, slots, winner)
    ensures Settled(t0, c0, base, quiet, after, more, winner, true)
  {
    var n := |won| - 1;
    WonSlots(won, slots);
    forall f | f in Losers(slots, winner) && f != 0 ensures exists i :: 0 <= i < n && won[i] == f {
      var i :| 0 <= i < |slots| && slots[i] == f;
    }
    if 0 in t0 {
      assert slots[n] == 0;
      assert 0 in Losers(slots, winner);
    }
    forall x | |closings| <= x < |more|
      ensures || (more[x].OfSocket? && more[x].serial >= base)
              || more[x] == Stray(0) || (0 in t0 && more[x] == OfSocket(t0[0].serial))
    {
      AtOnceCloses(t0, c0, base, quiet, table, closings, won, flags, slots, winner, more[x]);
    }
  }

  lemma SettlesWithNone(t0: map<int, Conn>, c0: seq<Closing>, base: nat, quiet: bool,
                        table: map<int, Conn>, closings: seq<Closing>, winner: int, atOnce: bool)
    requires Settled(t0, c0, base, quiet, table, closings, winner, atOnce) && winner >= 0
    ensures winner in table
    ensures Settled(t0, c0, base, quiet, table - {winner}, closings + [OfSocket(table[winner].serial)], -1, atOnce)
  {
  }

  /** Each socket made in the call is either the one returned or was closed, not both, and
      was closed exactly once. */
  lemma EachSocketIsReturnedOrClosedOnce(t0: map<int, Conn>, c0: seq<Closing>, base: nat, quiet: bool,
                                         table: map<int, Conn>, created: nat, closings: seq<Closing>,
                                         winner: int, atOnce: bool, s: nat)
    requires Consistent(table, created, closings)
    requires Settled(t0, c0, base, quiet, table, closings, winner, atOnce)
    requires base <= s < created
    ensures (winner >= 0 && s == table[winner].serial) <==> OfSocket(s) !in closings
    ensures multiset(closings)[OfSocket(s)] <= 1
  {
    if IsOpen(table, s) {
      var f :| f in table && table[f].serial == s;
      assert f == winner;
    }
    AtMostOnce(closings, OfSocket(s));
  }

  lemma {:induction false} AtMostOnce<T>(xs: seq<T>, x: T)
    requires forall i, j :: 0 <= i < j < |xs| && xs[i] == x ==> xs[j] != x
    ensures multiset(xs)[x] <= 1
  {
    if xs != [] {
      var n := |xs| - 1;
      assert xs == xs[..n] + [xs[n]];
      AtMostOnce(xs[..n], x);
      if xs[n] == x {
        assert x !in xs[..n];
        assert multiset(xs[..n])[x] == 0;
      }
    }
  }

  // ----- the whole race -------------------------------------------------------

  /** Every socket that a poll found broken, in the slots it counted, is closed. */
  ghost predicate BrokenClosed(calls: seq<SysCall>, table: map<int, Conn>) {
    forall i, j :: 0 <= i < |calls| && calls[i].PolledMany? && 0 <= j < calls[i].ret && j < |calls[i].slots|
                   && (calls[i].slots[j].revents.err || calls[i].slots[j].revents.hup || calls[i].slots[j].revents.nval) ==>
      calls[i].slots[j].fd !in table
  }

  lemma StillClosed(calls: seq<SysCall>, table: map<int, Conn>, after: map<int, Conn>)
    requires BrokenClosed(calls, table) && after.Keys <= table.Keys
    ensures BrokenClosed(calls, after)
  {
  }

  lemma NoPollNoneBroken(calls: seq<SysCall>, more: seq<SysCall>, table: map<int, Conn>)
    requires BrokenClosed(calls, table)
    requires forall c :: c in more ==> !c.PolledMany? || c.ret <= 0
    ensures BrokenClosed(calls + more, table)
  {
  }

  /** After the scan of a poll's counted slots. */
  lemma ScannedClosed(calls: seq<SysCall>, poll: SysCall, t0: map<int, Conn>, c0: seq<Closing>, base: nat, quiet: bool,
                      table: map<int, Conn>, closings: seq<Closing>, slots: seq<int>, flags: seq<bool>,
                      after: map<int, Conn>, more: seq<Closing>, left: seq<int>)
    requires BrokenClosed(calls, table) && after.Keys <= table.Keys
    requires poll.PolledMany? && 0 < poll.ret <= |poll.slots| && |left| == |slots|
    requires Race(t0, c0, base, quiet, table, closings, slots, flags)
    requires Race(t0, c0, base, quiet, after, more, left, flags)
    requires forall a :: 0 <= a < poll.ret ==> poll.slots[a].fd >= 0 && poll.slots[a].fd in slots
    requires forall x :: 0 <= x < |slots| ==> left[x] == if BrokenIn(poll.slots[..poll.ret], slots[x]) then -1 else slots[x]
    ensures BrokenClosed(calls + [poll], after)
  {
    hide OnlyNewClosings;
    StillClosed(calls, table, after);
    forall j | 0 <= j < poll.ret
               && (poll.slots[j].revents.err || poll.slots[j].revents.hup || poll.slots[j].revents.nval)
      ensures poll.slots[j].fd !in after
    {
      var f := poll.slots[j].fd;
      assert poll.slots[..poll.ret][j] == poll.slots[j];
      assert BrokenIn(poll.slots[..poll.ret], f);
      assert f !in left;
    }
    var all := calls + [poll];
    forall i, j | 0 <= i < |all| && all[i].PolledMany? && 0 <= j < all[i].ret && j < |all[i].slots|
                  && (all[i].slots[j].revents.err || all[i].slots[j].revents.hup || all[i].slots[j].revents.nval)
      ensures all[i].slots[j].fd !in after
    {
      assert i < |calls| ==> all[i] == calls[i];
    }
  }

  /** A poll of exactly these sockets, for so long. */
  predicate Polls(c: SysCall, sockets: seq<int>, ms: int) {
    && c.PolledMany? && c.ms == ms && |c.slots| == |sockets|
    && forall a :: 0 <= a < |c.slots| ==> c.slots[a].fd == sockets[a]
  }

  lemma PolledAll(c: SysCall, slots: seq<int>, ms: int, race: seq<SysCall>, addresses: nat, now: Timespec)
    requires Polls(c, Sockets(slots), ms) && Sockets(slots) != [] && Racing(race, addresses, slots, now)
    requires forall x, y :: 0 <= x < y < |slots| && slots[x] >= 0 ==> slots[x] != slots[y]
    ensures FdsOf(c.slots) == Pending(race) && c.slots != []
  {
    hide Sockets, Pending, Attempts, LastReading, AtOnce;
    SocketsInSlots(slots);
    forall f ensures f in FdsOf(c.slots) <==> f in Pending(race) {
      if f in Sockets(slots) {
        var a :| 0 <= a < |Sockets(slots)| && Sockets(slots)[a] == f;
        assert c.slots[a] in c.slots && c.slots[a].fd == f;
      }
    }
  }

  /** There is more to come, and the clock is yet to be read. */
  predicate NewRound(race: seq<SysCall>) {
    Running(race) && (race != [] ==> !race[|race| - 1].Clocked? && !Interrupted(race[|race| - 1]))
  }

  /** A poll that found no socket ready starts a new round; one that did is followed by a claim
      of the last one, which ends the race or starts a new round. */
  lemma AfterPoll(asked: seq<SysCall>, poll: SysCall, claim: SysCall, timed: bool, start: Timespec, budget: int)
    requires poll.PolledMany? && 0 < poll.ret <= |poll.slots|
    ensures Winner(poll) < 0 ==> NewRound(asked + [poll])
    ensures Winner(poll) >= 0 && claim.Flagged? && claim.fd == Winner(poll) ==>
              && (CarefulRace(asked + [poll], timed, start, budget) ==>
                    CarefulRace(asked + [poll] + [claim], timed, start, budget))
              && if claim.ret < 0 then NewRound(asked + [poll] + [claim])
                 else RaceEnded(asked + [poll] + [claim], timed, start, budget, SUCCESS, claim.fd)
  {
    hide CarefulRace, LastReady, Pending;
    if Winner(poll) >= 0 && claim.Flagged? && claim.fd == Winner(poll) && CarefulRace(asked + [poll], timed, start, budget) {
      CarefulRaceSnoc(asked + [poll], claim, timed, start, budget);
    }
  }

  /** The time left for a poll is what the reading just made leaves, or no limit. */
  predicate MayWait(race: seq<SysCall>, timed: bool, start: Timespec, budget: int, ms: int) {
    if timed then JustRead(Before(race, |race|), start, budget, ms) else ms == -1
  }

  /** Interrupted polls and one more. */
  lemma {:induction false} CarefulPolls(race: seq<SysCall>, tries: seq<SysCall>, poll: SysCall, slots: seq<int>, ms: int,
                                        addresses: nat, now: Timespec, timed: bool, start: Timespec, budget: int)
    requires CarefulRace(race, timed, start, budget) && Running(race) && MayWait(race, timed, start, budget, ms)
    requires Racing(race, addresses, slots, now) && Sockets(slots) != []
    requires forall x, y :: 0 <= x < y < |slots| && slots[x] >= 0 ==> slots[x] != slots[y]
    requires Polls(poll, Sockets(slots), ms)
    requires forall c :: c in tries ==> Polls(c, Sockets(slots), ms) && Interrupted(c)
    ensures CarefulRace(race + tries + [poll], timed, start, budget)
    decreases |tries|
  {
    hide CarefulRace, Sockets, Polls, Racing, JustRead, Pending, FdsOf;
    if tries == [] {
      assert race + tries == race;
      PolledAll(poll, slots, ms, race, addresses, now);
    } else {
      var n := |tries| - 1;
      var last := tries[n];
      assert last in tries;
      CarefulPolls(race, tries[..n], last, slots, ms, addresses, now, timed, start, budget);
      assert race + tries == race + tries[..n] + [last];
      RacingInterrupted(race, tries, addresses, slots, now);
      PolledAll(poll, slots, ms, race + tries, addresses, now);
      PollsFor(last, slots, ms);
    }
    PollsFor(poll, slots, ms);
    CarefulRaceSnoc(race + tries, poll, timed, start, budget);
  }

  lemma PollsFor(c: SysCall, slots: seq<int>, ms: int)
    requires Polls(c, Sockets(slots), ms)
    ensures c.PolledMany? && c.ms == ms
  {
  }

  /** A poll of all sockets that are left, the scan of the counted slots, and a claim if one
      is ready. */
  method PollRound(k: Kernel, fds: array<int>, flags: array<bool>, ev: array<PollFd>, timeLeft: int, ghost now: Timespec,
                   ghost race: seq<SysCall>, ghost addresses: nat, ghost timed: bool, ghost start: Timespec, ghost budget: int,
                   ghost t0: map<int, Conn>, ghost c0: seq<Closing>, ghost base: nat)
    returns (done: bool, rc: int, winner: int, ghost more: seq<SysCall>)
    requires k.Tidy() && fds.Length == flags.Length == ev.Length
    requires Race(t0, c0, base, k.honest, k.table, k.closings, fds[..], flags[..])
    requires Racing(race, addresses, fds[..], now) && MayWait(race, timed, start, budget, timeLeft)
    requires CarefulRace(race, timed, start, budget) && Running(race)
    requires BrokenClosed(race, k.table)
    modifies k`table, k`closings, k`now, k`idle, k`calls, fds, ev
    ensures k.Tidy() && old(k.now) <= k.now && k.calls == old(k.calls) + more
    ensures Race(t0, c0, base, k.honest, k.table, k.closings, fds[..], flags[..])
    ensures Racing(race + more, addresses, fds[..], now)
    ensures BrokenClosed(race + more, k.table)
    ensures CarefulRace(race + more, timed, start, budget) && (!done ==> NewRound(race + more))
    ensures done ==> RaceEnded(race + more, timed, start, budget, rc, winner)
    ensures done && rc == SUCCESS ==>
              winner >= 0 && winner in fds[..] && winner in k.table
              && k.table[winner].nonblocking == k.table[winner].born
    ensures done && rc != SUCCESS ==> winner == -1
    ensures done ==> rc <= 0 || rc == NETWORK_ERROR || rc == TIMEOUT
    ensures !done ==> Live(fds[..]) < Live(old(fds[..])) || (Live(fds[..]) == Live(old(fds[..])) && k.idle < old(k.idle))
  {
    hide Race, Consistent, Live, Useful, Sockets, Racing, LastReady, BrokenIn, CarefulRace, Running, NewRound, MayWait,
      RaceEnded, BrokenClosed;
    done, rc, winner, more := true, NETWORK_ERROR, -1, [];
    assert race + more == race;
    SlotsAreDistinct(t0, c0, base, k.honest, k.table, k.closings, fds[..], flags[..]);
    var any, ret, errno, polled;
    ghost var tries, poll;
    any, ret, errno, polled, tries, poll := PollSockets(k, fds, ev, timeLeft);
    if !any {
      NobodyLeft(race, addresses, fds[..], now);
      NobodyLeftEnds(race, timed, start, budget);
      return;
    }
    CarefulPolls(race, tries, poll, fds[..], timeLeft, addresses, now, timed, start, budget);
    RacingInterrupted(race, tries, addresses, fds[..], now);
    ghost var slots, asked := fds[..], race + tries;
    assert race + (tries + [poll]) == asked + [poll];
    more := tries + [poll];
    NoPollNoneBroken(race, tries, k.table);
    if ret <= 0 {
      RacingSame(asked, poll, addresses, slots, now);
      NoPollNoneBroken(asked, [poll], k.table);
      rc := if ret == 0 then TIMEOUT else -errno;
      PollEnds(asked, poll, timed, start, budget, rc);
      return;
    }
    ghost var live, table, closings := Live(fds[..]), k.table, k.closings;
    winner := Scan(k, polled, fds, t0, c0, base, flags[..]);
    RacingScanned(asked, poll, addresses, slots, now, fds[..]);
    ScannedClosed(asked, poll, t0, c0, base, k.honest, table, closings, slots, flags[..], k.table, k.closings, fds[..]);
    table := k.table;
    if winner >= 0 {
      var claimed;
      ghost var call;
      slots := fds[..];
      claimed, call := Claim(k, winner, fds, flags, t0, c0, base);
      assert race + (more + [call]) == (race + more) + [call];
      AfterPoll(asked, poll, call, timed, start, budget);
      StillClosed(race + more, table, k.table);
      NoPollNoneBroken(race + more, [call], k.table);
      if claimed {
        RacingSame(race + more, call, addresses, slots, now);
        rc, more := SUCCESS, more + [call];
        return;
      }
      RacingUnclaimed(race + more, call, addresses, slots, now);
      more := more + [call];
    } else {
      AfterPoll(asked, poll, poll, timed, start, budget);
    }
    done, winner := false, -1;
  }

  /** One round: the clock, a poll of all sockets that are left, the scan of the counted
      slots, and a claim if one is ready. `done` says that the race has ended. */
  method RaceRound(k: Kernel, fds: array<int>, flags: array<bool>, ev: array<PollFd>, timed: bool, budget: int,
                   start: Timespec, nowBefore: Timespec, ghost race: seq<SysCall>, ghost addresses: nat,
                   ghost t0: map<int, Conn>, ghost c0: seq<Closing>, ghost base: nat)
    returns (done: bool, rc: int, winner: int, now: Timespec, ghost more: seq<SysCall>)
    requires k.Tidy() && fds.Length == flags.Length == ev.Length
    requires Race(t0, c0, base, k.honest, k.table, k.closings, fds[..], flags[..])
    requires Racing(race, addresses, fds[..], nowBefore)
    requires CarefulRace(race, timed, start, budget) && NewRound(race) && (timed ==> start.Valid() && start.Ns() <= k.now)
    requires BrokenClosed(race, k.table)
    modifies k`table, k`closings, k`now, k`idle, k`calls, fds, ev
    ensures k.Tidy() && old(k.now) <= k.now && k.calls == old(k.calls) + more
    ensures Race(t0, c0, base, k.honest, k.table, k.closings, fds[..], flags[..])
    ensures Racing(race + more, addresses, fds[..], now)
    ensures BrokenClosed(race + more, k.table)
    ensures CarefulRace(race + more, timed, start, budget) && (!done ==> NewRound(race + more))
    ensures done ==> RaceEnded(race + more, timed, start, budget, rc, winner)
    ensures done && rc == SUCCESS ==>
              winner >= 0 && winner in fds[..] && winner in k.table
              && k.table[winner].nonblocking == k.table[winner].born
    ensures done && rc != SUCCESS ==> winner == -1
    ensures done ==> rc <= 0 || rc == NETWORK_ERROR || rc == TIMEOUT
    ensures !done ==> Live(fds[..]) < Live(old(fds[..])) || (Live(fds[..]) == Live(old(fds[..])) && k.idle < old(k.idle))
  {
    hide Race, Consistent, Live, TimeDelta, Narrow, Racing, CarefulRace, RaceEnded, JustRead, BrokenClosed;
    done, rc, winner, now, more := true, NETWORK_ERROR, -1, nowBefore, [];
    assert race + more == race;
    var timeLeft := -1;
    if timed {
      var errno, t := k.Clock();
      more := [Clocked(errno, t)];
      RacingClocked(race, Clocked(errno, t), addresses, fds[..], nowBefore);
      NoPollNoneBroken(race, more, k.table);
      ReadingEnds(race, Clocked(errno, t), start, budget);
      if errno != 0 {
        rc := -errno;
        return;
      }
      now := t;
      timeLeft := Narrow(budget - TimeDelta(start, now));
      if timeLeft <= 0 {
        rc := TIMEOUT;
        return;
      }
    }
    ghost var rest;
    done, rc, winner, rest := PollRound(k, fds, flags, ev, timeLeft, now, race + more, addresses, timed, start, budget,
                                        t0, c0, base);
    assert (race + more) + rest == race + (more + rest);
    more := more + rest;
  }

  lemma RacingClocked(race: seq<SysCall>, c: SysCall, addresses: nat, slots: seq<int>, now: Timespec)
    requires Racing(race, addresses, slots, now) && c.Clocked?
    ensures Racing(race + [c], addresses, slots, if c.errno == 0 then c.t else now)
  {
    RacingSnoc(race, c, addresses, slots, now, slots);
  }

  lemma RacingSame(race: seq<SysCall>, c: SysCall, addresses: nat, slots: seq<int>, now: Timespec)
    requires Racing(race, addresses, slots, now)
    requires (c.PolledMany? && c.ret <= 0) || (c.Flagged? && c.ret >= 0)
    ensures Racing(race + [c], addresses, slots, now)
  {
    RacingSnoc(race, c, addresses, slots, now, slots);
  }

  lemma NobodyLeftEnds(race: seq<SysCall>, timed: bool, start: Timespec, budget: int)
    requires forall f :: f !in Pending(race)
    ensures RaceEnded(race, timed, start, budget, NETWORK_ERROR, -1)
  {
  }

  lemma PollEnds(asked: seq<SysCall>, poll: SysCall, timed: bool, start: Timespec, budget: int, rc: int)
    requires poll.PolledMany? && poll.ret <= 0 && poll.errno > 0 && !Interrupted(poll)
    requires rc == if poll.ret == 0 then TIMEOUT else -poll.errno
    ensures RaceEnded(asked + [poll], timed, start, budget, rc, -1)
  {
    hide Pending;
  }

  /** A reading of the clock in a race. */
  lemma ReadingEnds(race: seq<SysCall>, c: SysCall, start: Timespec, budget: int)
    requires CarefulRace(race, true, start, budget) && NewRound(race) && c.Clocked?
    requires c.errno >= 0 && (c.errno == 0 ==> start.Valid() && c.t.Valid() && start.Ns() <= c.t.Ns())
    ensures CarefulRace(race + [c], true, start, budget)
    ensures if c.errno != 0 then RaceEnded(race + [c], true, start, budget, -c.errno, -1)
            else var ms := Narrow(budget - TimeDelta(start, c.t));
                 if ms <= 0 then RaceEnded(race + [c], true, start, budget, TIMEOUT, -1)
                 else MayWait(race + [c], true, start, budget, ms) && Running(race + [c])
  {
    hide CarefulRace, Pending, TimeDelta, Narrow;
    CarefulRaceSnoc(race, c, true, start, budget);
  }

  lemma NobodyLeft(race: seq<SysCall>, addresses: nat, slots: seq<int>, now: Timespec)
    requires Racing(race, addresses, slots, now) && forall f :: f in slots ==> f < 0
    ensures forall f :: f !in Pending(race)
  {
  }

  /** Waits until a socket is connected and claimed; -1 with a reason otherwise. */
  method AwaitWinner(k: Kernel, fds: array<int>, flags: array<bool>, timed: bool, budget: int, start: Timespec,
                     ghost started: seq<SysCall>,
                     ghost t0: map<int, Conn>, ghost c0: seq<Closing>, ghost base: nat)
    returns (rc: int, winner: int, now: Timespec, ghost waited: seq<SysCall>)
    requires k.Tidy() && fds.Length == flags.Length
    requires Race(t0, c0, base, k.honest, k.table, k.closings, fds[..], flags[..])
    requires Racing(started, fds.Length, fds[..], Timespec(0, 0)) && NewRound(started)
    requires CarefulRace(started, timed, start, budget) && (timed ==> start.Valid() && start.Ns() <= k.now)
    requires BrokenClosed(started, k.table)
    modifies k`table, k`closings, k`now, k`idle, k`calls, fds
    ensures k.Tidy() && old(k.now) <= k.now && k.calls == old(k.calls) + waited
    ensures Race(t0, c0, base, k.honest, k.table, k.closings, fds[..], flags[..])
    ensures Racing(started + waited, fds.Length, fds[..], now) && CarefulRace(started + waited, timed, start, budget)
    ensures BrokenClosed(started + waited, k.table)
    ensures RaceEnded(started + waited, timed, start, budget, rc, winner)
    ensures rc == SUCCESS ==>
              winner >= 0 && winner in fds[..] && winner in k.table
              && k.table[winner].nonblocking == k.table[winner].born
    ensures rc != SUCCESS ==> winner == -1
    ensures rc <= 0 || rc == NETWORK_ERROR || rc == TIMEOUT
  {
    hide Race, Consistent, Live, Racing, RaceEnded, CarefulRace, NewRound, BrokenClosed;
    var ev := new PollFd[fds.Length](_ => PollFd(0, NO_EVENTS));
    var done;
    done, rc, winner, now, waited := false, NETWORK_ERROR, -1, Timespec(0, 0), [];
    assert started + waited == started;
    while !done
      invariant k.Tidy() && old(k.now) <= k.now && k.calls == old(k.calls) + waited
      invariant Race(t0, c0, base, k.honest, k.table, k.closings, fds[..], flags[..])
      invariant Racing(started + waited, fds.Length, fds[..], now)
      invariant BrokenClosed(started + waited, k.table)
      invariant CarefulRace(started + waited, timed, start, budget) && (!done ==> NewRound(started + waited))
      invariant done ==> RaceEnded(started + waited, timed, start, budget, rc, winner)
      invariant done && rc == SUCCESS ==>
                  winner >= 0 && winner in fds[..] && winner in k.table
                  && k.table[winner].nonblocking == k.table[winner].born
      invariant done && rc != SUCCESS ==> winner == -1
      invariant done ==> rc <= 0 || rc == NETWORK_ERROR || rc == TIMEOUT
      decreases !done, Live(fds[..]), k.idle
    {
      ghost var more;
      done, rc, winner, now, more := RaceRound(k, fds, flags, ev, timed, budget, start, now, started + waited, fds.Length,
                                               t0, c0, base);
      assert (started + waited) + more == started + (waited + more);
      waited := waited + more;
    }
  }

  lemma SlotsAreDistinct(t0: map<int, Conn>, c0: seq<Closing>, base: nat, quiet: bool,
                         table: map<int, Conn>, closings: seq<Closing>, slots: seq<int>, flags: seq<bool>)
    requires Race(t0, c0, base, quiet, table, closings, slots, flags)
    ensures forall x, y :: 0 <= x < y < |slots| && slots[x] >= 0 ==> slots[x] != slots[y]
  {
  }

  /** do { poll } while interrupted */
  method PollAgain(k: Kernel, ev: array<PollFd>, n: nat, ms: int, ghost sockets: seq<int>)
    returns (ret: int, errno: int, ghost tries: seq<SysCall>, ghost poll: SysCall)
    requires n == |sockets| <= ev.Length && forall a :: 0 <= a < n ==> ev[a].fd == sockets[a]
    modifies ev, k`now, k`idle, k`calls
    ensures ret <= n && errno > 0 && k.idle <= old(k.idle) && old(k.now) <= k.now
    ensures forall i :: 0 <= i < ev.Length ==> ev[i].fd == old(ev[i].fd)
    ensures ret > 0 && (forall i :: 0 <= i < ret ==> !Useful(ev[i])) ==> k.idle < old(k.idle)
    ensures k.calls == old(k.calls) + tries + [poll] && poll == PolledMany(ev[..n], ms, ret, errno)
    ensures Polls(poll, sockets, ms) && !Interrupted(poll)
    ensures forall c :: c in tries ==> Polls(c, sockets, ms) && Interrupted(c)
  {
    hide Useful;
    ret, errno := k.PollMany(ev, n, ms);
    tries, poll := [], PolledMany(ev[..n], ms, ret, errno);
    while ret < 0 && errno == EINTR
      invariant ret <= n && errno > 0 && k.idle <= old(k.idle) && old(k.now) <= k.now
      invariant forall i :: 0 <= i < ev.Length ==> ev[i].fd == old(ev[i].fd)
      invariant ret > 0 && (forall i :: 0 <= i < ret ==> !Useful(ev[i])) ==> k.idle < old(k.idle)
      invariant k.calls == old(k.calls) + tries + [poll] && poll == PolledMany(ev[..n], ms, ret, errno)
      invariant Polls(poll, sockets, ms)
      invariant forall c :: c in tries ==> Polls(c, sockets, ms) && Interrupted(c)
      decreases k.idle, if ret < 0 && errno == EINTR then 1 else 0
    {
      tries := tries + [poll];
      ret, errno := k.PollMany(ev, n, ms);
      poll := PolledMany(ev[..n], ms, ret, errno);
    }
  }

  /** Polls all sockets that are left, if any, and gives as many slots as poll() counted: the
      first ones, whichever slots it marked. */
  method PollSockets(k: Kernel, fds: array<int>, ev: array<PollFd>, ms: int)
    returns (any: bool, ret: int, errno: int, polled: seq<PollFd>, ghost tries: seq<SysCall>, ghost poll: SysCall)
    requires ev.Length == fds.Length
    requires forall x, y :: 0 <= x < y < fds.Length && fds[x] >= 0 ==> fds[x] != fds[y]
    modifies ev, k`now, k`idle, k`calls
    ensures k.idle <= old(k.idle) && errno > 0 && old(k.now) <= k.now
    ensures any <==> Sockets(fds[..]) != []
    ensures !any ==> k.calls == old(k.calls) && forall f :: f in fds[..] ==> f < 0
    ensures any ==>
              && k.calls == old(k.calls) + tries + [poll]
              && (forall c :: c in tries ==> Polls(c, Sockets(fds[..]), ms) && Interrupted(c))
              && Polls(poll, Sockets(fds[..]), ms) && !Interrupted(poll)
              && poll.PolledMany? && poll.ret == ret <= |poll.slots| && poll.errno == errno
              && (ret > 0 ==> polled == poll.slots[..ret])
    ensures any && ret > 0 ==>
              && (forall a :: 0 <= a < ret ==> polled[a].fd >= 0 && polled[a].fd in fds[..])
              && (forall a, b :: 0 <= a < b < ret ==> polled[a].fd != polled[b].fd)
              && ((forall i :: 0 <= i < ret ==> !Useful(polled[i])) ==> k.idle < old(k.idle))
  {
    hide Useful, Sockets;
    var j := Gather(fds, ev);
    SocketsInSlots(fds[..]);
    any, ret, errno, polled, tries, poll := j > 0, 0, 1, [], [], Opened(-1);
    if any {
      ret, errno, tries, poll := PollAgain(k, ev, j, ms, Sockets(fds[..]));
      if ret > 0 {
        polled := ev[..ret];
        assert ev[..j][..ret] == ev[..ret];
        assert forall a :: 0 <= a < ret ==> polled[a].fd in Sockets(fds[..]);
      }
    } else {
      assert forall f :: f in fds[..] && f >= 0 ==> f in Sockets(fds[..]);
    }
  }

  /** The first loop: start every address in turn, and stop at one that connects at once. */
  method StartAll(k: Kernel, fds: array<int>, flags: array<bool>, ghost timed: bool, ghost start: Timespec, ghost budget: int,
                  ghost t0: map<int, Conn>, ghost c0: seq<Closing>, ghost base: nat)
    returns (winner: int, ghost won: seq<int>, ghost wonFlags: seq<bool>, ghost race: seq<SysCall>)
    requires k.Tidy() && fds.Length == flags.Length
    requires forall i :: 0 <= i < fds.Length ==> fds[i] == 0
    requires Race(t0, c0, base, k.honest, k.table, k.closings, [], []) && base <= k.created
    modifies k`now, k`table, k`created, k`closings, k`calls, fds, flags
    ensures k.Tidy() && base <= k.created && old(k.now) <= k.now && k.calls == old(k.calls) + race
    ensures winner == -1 ==>
              && Race(t0, c0, base, k.honest, k.table, k.closings, fds[..], flags[..])
              && Racing(race, fds.Length, fds[..], Timespec(0, 0)) && NewRound(race)
    ensures CarefulRace(race, timed, start, budget) && BrokenClosed(race, k.table)
    ensures winner != -1 ==>
              && winner >= 0 && StillZero(fds[..], won) && won[|won| - 1] == winner
              && Race(t0, c0, base, k.honest, k.table, k.closings, won, wonFlags)
              && winner in k.table && k.table[winner].nonblocking == k.table[winner].born
              && AtOnce(race) && Attempts(race) <= fds.Length && LastReading(race) == Timespec(0, 0)
              && |race| > 1 && race[|race| - 1].Flagged? && race[|race| - 1].fd == winner && race[|race| - 1].ret >= 0
              && Winner(race[|race| - 2]) == winner
  {
    hide Race, Consistent, Racing, Tried, AtOnce, Attempts, LastReading, CarefulRace, Starts, Running, Winner, BrokenClosed;
    won, wonFlags, winner, race := [], [], -1, [];
    RacingBegins();
    CarefulAtFirst(timed, start, budget);
    StartsBreakNone(race, k.table);
    for i := 0 to fds.Length
      invariant k.Tidy() && base <= k.created && winner == -1 && old(k.now) <= k.now
      invariant Race(t0, c0, base, k.honest, k.table, k.closings, won, wonFlags)
      invariant Racing(race, i, won, Timespec(0, 0)) && k.calls == old(k.calls) + race
      invariant BrokenClosed(race, k.table)
      invariant CarefulRace(race, timed, start, budget) && Running(race) && forall c :: c in race ==> Starts(c)
      invariant won == fds[..i] && wonFlags == flags[..i]
      invariant forall j :: i <= j < fds.Length ==> fds[j] == 0
    {
      ghost var table, closings, tried := k.table, k.closings, [];
      var state, sock, original;
      state, sock, original, tried := TryAddress(k);
      SlotsAreOpen(t0, c0, base, k.honest, table, closings, won, wonFlags);
      RacingTried(race, i, won, Timespec(0, 0), tried, state, sock, original);
      CarefulTried(race, tried, state, sock, original, timed, start, budget);
      race := race + tried;
      StartsBreakNone(race, k.table);
      flags[i] := original;
      if state == Failed {
        fds[i] := -1;
        RaceAddsNone(t0, c0, base, k.honest, table, closings, k.closings, won, wonFlags, original);
        won, wonFlags := won + [-1], wonFlags + [original];
      } else {
        RaceAdds(t0, c0, base, k.honest, table, closings, won, wonFlags, sock, k.table[sock]);
        won, wonFlags := won + [sock], wonFlags + [original];
        if state == Done {
          DoneIsFlagged(tried, sock, original);
          winner := sock;
          return;
        }
        fds[i] := sock;
      }
    }
    assert fds[..fds.Length] == fds[..] && flags[..fds.Length] == flags[..];
    StartedIsNewRound(race);
  }

  lemma StartsBreakNone(race: seq<SysCall>, table: map<int, Conn>)
    requires forall c :: c in race ==> Starts(c)
    ensures BrokenClosed(race, table)
  {
    forall i | 0 <= i < |race| ensures !race[i].PolledMany? {
      assert race[i] in race;
    }
  }

  lemma CarefulAtFirst(timed: bool, start: Timespec, budget: int)
    ensures CarefulRace([], timed, start, budget) && Running([])
  {
  }

  lemma StartedIsNewRound(race: seq<SysCall>)
    requires Running(race) && forall c :: c in race ==> Starts(c)
    ensures NewRound(race)
  {
    assert race != [] ==> Starts(race[|race| - 1]);
  }

  lemma DoneIsFlagged(tried: seq<SysCall>, sock: int, flags: bool)
    requires Tried(tried, Done, sock, flags)
    ensures |tried| == 4 && tried[3].Flagged? && tried[3].ret >= 0 && tried[3].fd == sock
  {
  }

  lemma SlotsAreOpen(t0: map<int, Conn>, c0: seq<Closing>, base: nat, quiet: bool,
                     table: map<int, Conn>, closings: seq<Closing>, slots: seq<int>, flags: seq<bool>)
    requires Race(t0, c0, base, quiet, table, closings, slots, flags)
    ensures forall f :: f in slots && f >= 0 ==> f in table
  {
  }

  /** Runs the race and cleans up after it. */
  method RunRace(k: Kernel, addresses: nat, timed: bool, budget: int, start: Timespec,
                 ghost t0: map<int, Conn>, ghost c0: seq<Closing>, ghost base: nat)
    returns (rc: int, winner: int, now: Timespec, ghost race: seq<SysCall>)
    requires k.Tidy() && base <= k.created
    requires Race(t0, c0, base, k.honest, k.table, k.closings, [], [])
    requires timed ==> start.Valid() && start.Ns() <= k.now
    modifies k`table, k`created, k`closings, k`now, k`idle, k`calls
    ensures k.Tidy() && old(k.now) <= k.now && base <= k.created && k.calls == old(k.calls) + race
    ensures CarefulRace(race, timed, start, budget) && BrokenClosed(race, k.table)
    ensures Settled(t0, c0, base, k.honest, k.table, k.closings, winner, AtOnce(race))
    ensures Attempts(race) <= addresses && (Attempts(race) == addresses || AtOnce(race))
    ensures RaceEnded(race, timed, start, budget, rc, winner) && LastReading(race) == now
    ensures AtOnce(race) ==> rc == SUCCESS
    ensures if rc == SUCCESS then winner >= 0 else winner == -1
    ensures rc <= 0 || rc == NETWORK_ERROR || rc == TIMEOUT
  {
    hide Race, Consistent, Settled, StillZero, Accounted, Racing, RaceEnded, AtOnce, Attempts, LastReading, Narrow,
      CarefulRace, NewRound, Winner, BrokenClosed;
    var fds, flags := new int[addresses](_ => 0), new bool[addresses](_ => false);
    ghost var won, wonFlags, waited;
    winner, won, wonFlags, race := StartAll(k, fds, flags, timed, start, budget, t0, c0, base);
    now := Timespec(0, 0);
    ghost var atOnce := winner >= 0;
    if winner >= 0 {
      rc := SUCCESS;
      FlaggedEnds(race, timed, start, budget, winner);
    } else {
      rc, winner, now, waited := AwaitWinner(k, fds, flags, timed, budget, start, race, t0, c0, base);
      assert old(k.calls) + race + waited == old(k.calls) + (race + waited);
      race := race + waited;
      RacingShows(race, addresses, fds[..], now);
    }
    ghost var slots, table, closings := fds[..], k.table, k.closings;
    KeysAreDescriptors(k.table, k.created, k.closings);
    Cleanup(k, fds, winner);
    StillClosed(race, table, k.table);
    if atOnce {
      SettlesAtOnce(t0, c0, base, k.honest, table, closings, won, wonFlags, slots, k.table, k.closings, winner);
    } else {
      SettlesAfterRace(t0, c0, base, k.honest, table, closings, slots, flags[..], k.table, k.closings, winner);
    }
  }

  predicate IsConnectAct(a: Act, addresses: nat, entry: Option<int>, rc: int) {
    a.Connected? && a.addresses == addresses && a.entry == entry && a.rc == rc
  }

  /** Did an address connect without waiting, by the record of a connect. */
  predicate ConnectedAtOnce(a: Act)
    requires a.Connected?
  {
    a.calls != [] && AtOnce(a.calls[1..])
  }

  /** The race, after the first reading of the clock, and the last reading. */
  method RaceAndCharge(k: Kernel, addresses: nat, timeout: Option<int>, budget: int, start: Timespec,
                       ghost t0: map<int, Conn>, ghost c0: seq<Closing>, ghost base: nat, ghost calls0: seq<SysCall>)
    returns (rc: int, fd: int, left: Option<int>, ghost act: Act)
    requires k.Tidy() && base <= k.created && start.Valid() && start.Ns() <= k.now
    requires Race(t0, c0, base, k.honest, k.table, k.closings, [], []) && k.calls == calls0 + [Clocked(0, start)]
    requires if WithTimeout(timeout) then IsInt(timeout.value) && budget == timeout.value > 0 else budget == 0
    modifies k`table, k`created, k`closings, k`now, k`idle, k`calls
    ensures k.Tidy() && old(k.now) <= k.now && base <= k.created
    ensures k.calls == calls0 + act.calls && Lawful(act) && IsConnectAct(act, addresses, timeout, rc) && act.fd == fd
    ensures Settled(t0, c0, base, k.honest, k.table, k.closings, if rc == SUCCESS then fd else -1, ConnectedAtOnce(act))
    ensures BrokenClosed(act.calls, k.table)
    ensures if rc == SUCCESS then fd >= 0 && fd in k.table else fd == -1
    ensures left == if WithTimeout(timeout) then Some(LeftOf(act)) else timeout
    ensures WithTimeout(timeout) || act.charge == Free
    ensures rc <= 0 || rc == NETWORK_ERROR || rc == TIMEOUT
    ensures rc == SUCCESS ==> WithinCall(act.charge, start.Ns(), k.now)
  {
    hide Race, Consistent, Settled, StillZero, Accounted, IsNew, Racing, RaceEnded, Lawful, AtOnce, Charged, Narrow,
      CarefulRace, BrokenClosed;
    ghost var first := Clocked(0, start);
    var timed, errno := WithTimeout(timeout), 0;
    left := timeout;
    var winner, now;
    ghost var race;
    rc, winner, now, race := RunRace(k, addresses, timed, budget, start, t0, c0, base);
    fd := winner;
    assert k.calls == calls0 + ([first] + race);
    ghost var settled := k.table;
    WinnerIsOpen(t0, c0, base, k.honest, k.table, k.closings, winner, AtOnce(race));
    if timed {
      var t;
      errno, t := k.Clock();
      ghost var last := Clocked(errno, t);
      NextCall(race, last);
      if errno == 0 {
        now := t;
      } else {
        if winner >= 0 {
          SettlesWithNone(t0, c0, base, k.honest, k.table, k.closings, winner, AtOnce(race));
          k.Close(winner);
          fd := -1;
        }
        rc := -errno;
      }
      left := Some(Charged(budget, Measured(start, now)));
      act := Connected(addresses, fd, timeout, rc, Measured(start, now), [first] + (race + [last]));
      assert act.calls[1..] == race + [last];
      BrokenAround(race, settled, k.table, [first], [last]);
      TimedConnectIsLawful(act, start, race, last);
    } else {
      act := Connected(addresses, fd, timeout, rc, Free, [first] + race);
      assert act.calls[1..] == race;
      BrokenAround(race, settled, k.table, [first], []);
      assert race + [] == race;
      PlainConnectIsLawful(act, start, race, budget);
    }
  }

  /** Connects to one of a node's addresses. When an address connected at once, and only then,
      the cleanup closes descriptor 0 as well. */
  method Connect(k: Kernel, addresses: nat, fdBefore: int, timeout: Option<int>)
    returns (rc: int, fd: int, left: Option<int>, ghost act: Act)
    requires k.Tidy()
    requires timeout.Some? ==> IsInt(timeout.value)
    modifies k`table, k`created, k`closings, k`now, k`idle, k`calls, k`acts
    ensures k.Tidy() && old(k.now) <= k.now && old(k.created) <= k.created
    ensures k.acts == old(k.acts) + [act] && k.calls == old(k.calls) + act.calls && Lawful(act)
    ensures IsConnectAct(act, addresses, timeout, rc) && act.fd == fd
    ensures Settled(old(k.table), old(k.closings), old(k.created), k.honest, k.table, k.closings,
                    if rc == SUCCESS then fd else -1, ConnectedAtOnce(act))
    // A socket that a poll found broken is not open any more, let alone returned.
    ensures BrokenClosed(act.calls, k.table)
    ensures rc == SUCCESS ==> fd >= 0 && fd in k.table
    ensures rc != SUCCESS ==> fd == -1 || fd == fdBefore
    ensures timeout.None? ==> left.None?
    ensures timeout.Some? ==> left == Some(LeftOf(act)) && IsInt(left.value)
    ensures rc <= 0 || rc == NETWORK_ERROR || rc == TIMEOUT
    ensures rc == SUCCESS ==> WithinCall(act.charge, old(k.now), k.now)
  {
    hide Race, Consistent, Settled, StillZero, Accounted, IsNew, Racing, RaceEnded, Lawful, AtOnce, Charged, Narrow,
      CarefulRace, BrokenClosed;
    ghost var t0, c0, base := k.table, k.closings, k.created;
    var timed := WithTimeout(timeout);
    rc, fd, left := NETWORK_ERROR, fdBefore, timeout;
    NoneBrokenYet(k.table);
    NothingHappened(t0, base, c0, k.honest);
    if timeout.Some? {
      ChargedIsInt(timeout.value);
    }
    var budget := 0;
    if timed {
      budget := timeout.value;
      if budget <= 0 {
        rc := TIMEOUT;
        act := Connected(addresses, fd, timeout, rc, Free, []);
        NoConnectIsLawful(act);
        k.acts := k.acts + [act];
        return;
      }
    }
    fd := -1;
    var errno, start := k.Clock();
    ghost var first, calls0 := Clocked(errno, start), old(k.calls);
    if errno != 0 {
      rc := -errno;
      act := Connected(addresses, fd, timeout, rc, Free, [first]);
      NoConnectIsLawful(act);
      NotAtOnce(act);
      BrokenAround([], k.table, k.table, [first], []);
      assert [first] + ([] + []) == [first];
      k.acts := k.acts + [act];
      return;
    }
    rc, fd, left, act := RaceAndCharge(k, addresses, timeout, budget, start, t0, c0, base, calls0);
    k.acts := k.acts + [act];
  }

  lemma NoneBrokenYet(table: map<int, Conn>)
    ensures BrokenClosed([], table)
  {
  }

  lemma WinnerIsOpen(t0: map<int, Conn>, c0: seq<Closing>, base: nat, quiet: bool,
                     table: map<int, Conn>, closings: seq<Closing>, winner: int, atOnce: bool)
    requires Settled(t0, c0, base, quiet, table, closings, winner, atOnce)
    ensures winner >= 0 ==> winner in table
  {
  }

  /** The readings of the clock before and after a race find no socket broken. */
  lemma BrokenAround(race: seq<SysCall>, settled: map<int, Conn>, table: map<int, Conn>,
                     first: seq<SysCall>, last: seq<SysCall>)
    requires BrokenClosed(race, settled) && table.Keys <= settled.Keys
    requires forall c :: c in first + last ==> c.Clocked?
    ensures BrokenClosed(first + (race + last), table)
  {
    var all := first + (race + last);
    forall i, j | 0 <= i < |all| && all[i].PolledMany? && 0 <= j < all[i].ret && j < |all[i].slots|
                  && (all[i].slots[j].revents.err || all[i].slots[j].revents.hup || all[i].slots[j].revents.nval)
      ensures all[i].slots[j].fd !in table
    {
      assert all[i] in first + last || (|first| <= i < |first| + |race| && all[i] == race[i - |first|]);
    }
  }

  lemma NoConnectIsLawful(a: Act)
    requires a.Connected? && a.charge == Free
    requires if a.calls == [] then WithTimeout(a.entry) && a.entry.value <= 0 && a.rc == TIMEOUT
             else && (WithTimeout(a.entry) ==> a.entry.value > 0)
                  && |a.calls| == 1 && a.calls[0].Clocked? && a.calls[0].errno > 0 && a.rc == -a.calls[0].errno
    ensures Lawful(a)
  {
  }

  lemma NotAtOnce(a: Act)
    requires a.Connected? && |a.calls| == 1
    ensures !ConnectedAtOnce(a)
  {
  }

  lemma FlaggedEnds(race: seq<SysCall>, timed: bool, start: Timespec, budget: int, fd: int)
    requires |race| > 1 && race[|race| - 1].Flagged? && race[|race| - 1].fd == fd && race[|race| - 1].ret >= 0
    requires fd >= 0 && Winner(race[|race| - 2]) == fd
    ensures RaceEnded(race, timed, start, budget, SUCCESS, fd)
  {
  }

  lemma RacingShows(race: seq<SysCall>, addresses: nat, slots: seq<int>, now: Timespec)
    requires Racing(race, addresses, slots, now)
    ensures Attempts(race) == addresses && !AtOnce(race) && LastReading(race) == now
  {
  }

  lemma TimedConnectIsLawful(a: Act, start: Timespec, race: seq<SysCall>, last: SysCall)
    requires a.Connected? && WithTimeout(a.entry) && a.entry.value > 0 && last.Clocked?
    requires a.calls == [Clocked(0, start)] + (race + [last])
    requires CarefulRace(race, true, start, a.entry.value)
    requires Attempts(race) <= a.addresses && (Attempts(race) == a.addresses || AtOnce(race))
    requires a.charge == Measured(start, if last.errno == 0 then last.t else LastReading(race))
    requires last.errno != 0 ==> a.rc == -last.errno
    requires last.errno == 0 ==>
               RaceEnded(race, true, start, a.entry.value, a.rc, a.fd) && (AtOnce(race) ==> a.rc == SUCCESS)
    ensures Lawful(a)
  {
    hide RaceEnded, AtOnce, Attempts, LastReading, CarefulRace;
    var rest := race + [last];
    ProgressSnoc(race, last);
    assert a.calls[1..] == rest;
    assert rest[..|rest| - 1] == race;
  }

  lemma PlainConnectIsLawful(a: Act, start: Timespec, race: seq<SysCall>, budget: int)
    requires a.Connected? && !WithTimeout(a.entry) && a.charge == Free && budget == 0
    requires a.calls == [Clocked(0, start)] + race
    requires CarefulRace(race, false, start, budget)
    requires Attempts(race) <= a.addresses && (Attempts(race) == a.addresses || AtOnce(race))
    requires RaceEnded(race, false, start, budget, a.rc, a.fd) && (AtOnce(race) ==> a.rc == SUCCESS)
    ensures Lawful(a)
  {
    hide RaceEnded, AtOnce, Attempts, LastReading, CarefulRace;
    assert a.calls[1..] == race;
  }

  lemma NothingHappened(table: map<int, Conn>, created: nat, closings: seq<Closing>, quiet: bool)
    requires Consistent(table, created, closings)
    ensures Race(table, closings, created, quiet, table, closings, [], [])
    ensures Settled(table, closings, created, quiet, table, closings, -1, false)
  {
  }

  lemma KeysAreDescriptors(table: map<int, Conn>, created: nat, closings: seq<Closing>)
    requires Consistent(table, created, closings)
    ensures forall f :: f in table ==> f >= 0
  {
  }
}
