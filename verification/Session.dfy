/** Whole sessions over one cluster: calls and searches for the master, in any order, with
    connections made, lost and made again on the way. */
module Session {
  import opened Wire
  import opened Requests
  import opened Time
  import opened Acts
  import opened Kernels
  import opened Transfer
  import opened Topology
  import opened Protocol
  import opened Discovery
  import opened Client

  datatype Step = Perform(op: Operation, timeout: int) | FindMaster(timeout: int)

  /** A search as the client knows it: the master and its descriptor before and after, the
      nodes' descriptors and addresses before, and what was done. */
  datatype Search = Search(was: Node?, master: Node?, fdBefore: int, fdAfter: int, places: seq<Place>,
                           acts: seq<Act>, probes: seq<Probe>, second: Option<Probe>)

  /** A step: a call on some socket, or a search, which after a success settled on a socket and
      a name; with what the peers saw of it and what the client did. */
  datatype Event =
    | Performed(serial: nat, request: Request, end: Ending, deed: Deed)
    | Searched(serial: nat, exchanges: seq<Exchange>, name: Bytes, search: Search)

  function Seen(e: Event): seq<Exchange> {
    match e
    case Performed(serial, r, end, _) => PeerSaw(serial, r, end)
    case Searched(_, exchanges, _, _) => exchanges
  }

  /** The steps after which an open connection may be out of step: a lapse of a call, and an
      error in answer to the question for the master, of which only the code is read. */
  predicate Lapsed(e: Event) {
    match e
    case Performed(_, r, end, _) => Lapse(r, end)
    case Searched(_, exchanges, _, _) => ErrorAnswer(exchanges)
  }

  predicate NoneLapsed(events: seq<Event>) {
    forall e :: e in events ==> !Lapsed(e)
  }

  function SeenAll(events: seq<Event>): seq<Exchange> {
    if events == [] then []
    else SeenAll(events[..|events| - 1]) + Seen(events[|events| - 1])
  }

  lemma SeenSnoc(events: seq<Event>, e: Event)
    ensures SeenAll(events + [e]) == SeenAll(events) + Seen(e)
    ensures NoneLapsed(events + [e]) <==> NoneLapsed(events) && !Lapsed(e)
  {
  }

  /** The peer's last answer in a search, on the socket settled on, names the master. */
  predicate NamedAtLast(serial: nat, exchanges: seq<Exchange>, name: Bytes) {
    && exchanges != []
    && var last := exchanges[|exchanges| - 1];
       last.serial == serial && last.request == WhoMaster && Names(last.reply, name)
  }

  /** A call was about its own request, ended in a way its return code allows, was answered
      exactly if no act of it failed, and told its caller exactly what the peer's reply says. A
      search only asked for the master, and one that succeeded was last answered by the master
      itself. */
  ghost predicate Told(step: Step, e: Event, rc: int, result: Result, error: Option<Bytes>)
    reads if step.Perform? && step.op.SendSequence? then {step.op.sequence} else {}
    reads if step.Perform? && step.op.FetchMany? then {step.op.keys} else {}
    reads if step.Perform? && step.op.FetchMany? then step.op.keys.spine else []
    reads if result.Values? then {result.values} else {}
    reads if result.Values? then result.values.spine else []
    reads if result.Entries? then {result.entries} else {}
  {
    match step
    case Perform(op, _) =>
      && e.Performed? && e.request == RequestOf(op)
      && Credible(e.request, rc, e.end) && Heeds(e.end, e.deed)
      && (e.end.Replied? ==> Conveys(e.end.reply, e.request, rc, result, error))
    case FindMaster(_) =>
      && e.Searched?
      && (!Lapsed(e) ==> AsksOnly(e.exchanges) && (rc == SUCCESS ==> NamedAtLast(e.serial, e.exchanges, e.name)))
  }

  /** What the caller of a step is told about its own request: of the bytes that came in, when
      no act of a call failed; and as long as the session is in step, truly. */
  ghost predicate Reported(inStep: bool, step: Step, e: Event, rc: int, result: Result, error: Option<Bytes>)
    reads if step.Perform? && step.op.SendSequence? then {step.op.sequence} else {}
    reads if step.Perform? && step.op.FetchMany? then {step.op.keys} else {}
    reads if step.Perform? && step.op.FetchMany? then step.op.keys.spine else []
    reads if result.Values? then {result.values} else {}
    reads if result.Values? then result.values.spine else []
    reads if result.Entries? then {result.entries} else {}
  {
    && (step.Perform? ==> e.Performed? && e.request == RequestOf(step.op))
    && (e.Performed? ==> Hears(e.deed, e.request, rc, result, error))
    && (inStep ==> Told(step, e, rc, result, error))
  }

  // ----- what the client did --------------------------------------------------

  function ActsIn(e: Event): seq<Act> {
    if e.Performed? then e.deed.acts else e.search.acts
  }

  function FdIn(e: Event): int {
    if e.Performed? then e.deed.fd else e.search.fdBefore
  }

  function FdOutOf(e: Event): int {
    if e.Performed? then e.deed.fdAfter else e.search.fdAfter
  }

  function AllActs(events: seq<Event>): seq<Act> {
    if events == [] then [] else AllActs(events[..|events| - 1]) + ActsIn(events[|events| - 1])
  }

  /** The master's descriptor before step i. */
  function FdAt(events: seq<Event>, i: nat, fd: int): int
    requires i <= |events|
  {
    if i == 0 then fd else FdOutOf(events[i - 1])
  }

  /** The master after these steps: the one the last search left. */
  function MasterAfter(events: seq<Event>, was: Node?): Node? {
    if events == [] then was
    else
      var last := events[|events| - 1];
      if last.Searched? then last.search.master else MasterAfter(events[..|events| - 1], was)
  }

  /** The descriptor that a node had before a search; none for no node. */
  ghost predicate Had(node: Node?, fd: int, spine: seq<Node>, places: seq<Place>) {
    if node == null then fd == -1
    else exists i :: 0 <= i < |spine| && i < |places| && spine[i] == node && places[i].fd == fd
  }

  /** The descriptor that a search left a node with: as its last probe left it, or as it was. */
  ghost predicate LeftWith(node: Node?, fd: int, spine: seq<Node>, s: Search) {
    if node == null then fd == -1
    else
      && |s.probes| <= |s.places| == |spine| && (s.second.Some? ==> s.second.value.acts != [])
      && exists i :: 0 <= i < |spine| && spine[i] == node && fd == FdLast(node, i, s.places, s.probes, s.second)
  }

  /** A call did what a call does, on its descriptor; a search is a discovery. */
  ghost predicate Happened(e: Event, rc: int, spine: seq<Node>, title: Bytes) {
    match e
    case Performed(_, r, _, deed) => Did(deed.acts, deed.fd, r, rc, deed.fdAfter)
    case Searched(_, _, _, s) =>
      && Discovered(rc, s.master, s.was, spine, s.places, title, s.acts, s.probes, s.second)
      && Had(s.was, s.fdBefore, spine, s.places) && LeftWith(s.master, s.fdAfter, spine, s)
  }

  /** The acts of a session, step by step: each step happened, from the master and the
      descriptor that the one before it left. */
  ghost predicate Chronicle(events: seq<Event>, rcs: seq<int>, spine: seq<Node>, title: Bytes,
                            was: Node?, fd: int, acts0: seq<Act>, acts: seq<Act>)
  {
    && |events| == |rcs|
    && acts == acts0 + AllActs(events)
    && (forall i :: 0 <= i < |events| ==> Happened(events[i], rcs[i], spine, title))
    && (forall i :: 0 <= i < |events| ==> FdIn(events[i]) == FdAt(events, i, fd))
    && (forall i :: 0 <= i < |events| && events[i].Searched? ==> events[i].search.was == MasterAfter(events[..i], was))
  }

  lemma ChronicleBegins(spine: seq<Node>, title: Bytes, was: Node?, fd: int, acts: seq<Act>)
    ensures Chronicle([], [], spine, title, was, fd, acts, acts)
  {
  }

  lemma ChronicleMore(events: seq<Event>, rcs: seq<int>, spine: seq<Node>, title: Bytes, was: Node?, fd: int,
                      acts0: seq<Act>, acts1: seq<Act>, acts2: seq<Act>, e: Event, rc: int)
    requires Chronicle(events, rcs, spine, title, was, fd, acts0, acts1) && acts2 == acts1 + ActsIn(e)
    requires Happened(e, rc, spine, title) && FdIn(e) == FdAt(events, |events|, fd)
    requires e.Searched? ==> e.search.was == MasterAfter(events, was)
    ensures Chronicle(events + [e], rcs + [rc], spine, title, was, fd, acts0, acts2)
    ensures FdAt(events + [e], |events| + 1, fd) == FdOutOf(e)
    ensures MasterAfter(events + [e], was) == if e.Searched? then e.search.master else MasterAfter(events, was)
  {
    hide Happened, ActsIn, FdIn, FdOutOf;
    var more := events + [e];
    assert more[..|events|] == events;
    assert AllActs(more) == AllActs(events) + ActsIn(e);
    forall i | 0 <= i < |more|
      ensures Happened(more[i], (rcs + [rc])[i], spine, title) && FdIn(more[i]) == FdAt(more, i, fd)
      ensures more[i].Searched? ==> more[i].search.was == MasterAfter(more[..i], was)
    {
      assert FdAt(more, i, fd) == FdAt(events, i, fd);
      assert more[..i] == events[..i];
      assert i == |events| ==> events[..i] == events;
    }
  }

  // ----- one step -------------------------------------------------------------

  function MasterFd(cluster: Cluster): int
    reads cluster`master, if cluster.master == null then {} else {cluster.master}
  {
    if cluster.master == null then -1 else cluster.master.fd
  }

  /** The socket behind a descriptor. */
  function SerialOf(table: map<int, Conn>, fd: int): nat {
    if fd in table then table[fd].serial else 0
  }

  lemma EndedInStep(end: Ending, r: Request, rc: int, fd: int, fd2: int, t1: map<int, Conn>, t2: map<int, Conn>,
                    log1: seq<Exchange>, log2: seq<Exchange>, result: Result, error: Option<Bytes>)
    requires Ended(end, r, rc, fd, fd2, t1, t2, log1, log2) && !r.Prologue?
    requires end.Replied? ==> Conveys(end.reply, r, rc, result, error)
    ensures fd in t1 && log2 == log1 + PeerSaw(t1[fd].serial, r, end) && Credible(r, rc, end)
    ensures !Lapse(r, end) ==> NoneLoosened(t1, t2, [])
  {
    hide ReplyFor, Shows, PutRequest;
    if end.Dropped? {
      DropLoosensNone(t1, fd, []);
    } else if !Lapse(r, end) {
      OutOfStepIffLapse(end, r, rc, fd, fd2, t1, t2, log1, log2);
      StreamsLoosenNone(t1, t2, fd, []);
    }
  }

  /** One call, in a session that is in step. */
  method PerformStep(k: Kernel, cluster: Cluster, op: Operation, timeout: int)
    returns (rc: int, result: Result, ghost event: Event)
    requires k.Valid() && k.honest && IsInt(timeout) && Callable(op) && RequestFits(RequestOf(op))
    requires cluster.master == null || cluster.master in cluster.spine
    modifies k`now, k`idle, k`calls, k`acts, k`table, k`log, k`closings, cluster`lastError
    modifies cluster.spine`fd
    ensures k.Valid() && event.Performed? && old(k.log) <= k.log
    ensures old(NodesInStep(k.table, cluster.spine)) ==>
              && k.log == old(k.log) + Seen(event)
              && Told(Perform(op, timeout), event, rc, result, cluster.lastError)
              && (!Lapsed(event) ==> NodesInStep(k.table, cluster.spine))
    ensures old(k.acts) <= k.acts && event.request == old(RequestOf(op))
    ensures event.deed == Deed(old(MasterFd(cluster)), k.acts[|old(k.acts)|..], MasterFd(cluster))
    ensures Did(event.deed.acts, event.deed.fd, event.request, rc, event.deed.fdAfter)
    ensures Hears(event.deed, event.request, rc, result, cluster.lastError)
    ensures event.serial == old(SerialOf(k.table, MasterFd(cluster)))
    ensures MasterFd(cluster) >= 0 ==> SerialOf(k.table, MasterFd(cluster)) == event.serial
  {
    hide Consistent, Explains, Ended, Conveys, RequestFits, Callable, RequestOf, Loose, NoneLoosened, Credible, Shared,
      Did, FirstFailure, OnlyStreams, Exchanged;
    ghost var r, t1, log1, fd, acts := RequestOf(op), k.table, k.log, MasterFd(cluster), k.acts;
    ghost var inStep, open := NodesInStep(k.table, cluster.spine), fd >= 0 && fd in k.table;
    if inStep && open {
      InStepIsAtBoundary(t1, fd);
    }
    NoPrologue(op);
    ghost var end;
    rc, result, end := Client.Call(k, cluster, op, timeout);
    SharedShows(acts, k.acts, timeout);
    ghost var deed := Deed(fd, k.acts[|acts|..], MasterFd(cluster));
    event := Performed(SerialOf(t1, fd), r, end, deed);
    DidNothingIff(deed, r, rc);
    if MasterFd(cluster) >= 0 {
      SerialIsKept(t1, k.table, fd);
    }
    if inStep {
      if open {
        EndedInStep(end, r, rc, fd, cluster.master.fd, t1, k.table, log1, k.log, result, cluster.lastError);
        if !Lapse(r, end) {
          NoneLoosenedKeeps(t1, k.table);
        }
      } else {
        NotSentIsCredible(r, rc);
      }
      ClosedIsNotLoose(k.table, k.created, k.closings);
    }
  }

  lemma SerialIsKept(before: map<int, Conn>, after: map<int, Conn>, fd: int)
    requires OnlyStreams(before, after, fd)
    ensures SerialOf(after, fd) == SerialOf(before, fd)
  {
  }

  lemma NoPrologue(op: Operation)
    requires Callable(op)
    ensures !RequestOf(op).Prologue?
  {
  }

  lemma NotSentIsCredible(r: Request, rc: int)
    requires rc != SUCCESS
    ensures Credible(r, rc, NotSent)
  {
  }

  lemma NoneLoosenedKeeps(before: map<int, Conn>, after: map<int, Conn>)
    requires NoneLoosened(before, after, [])
    ensures forall f :: !Loose(before, f) ==> !Loose(after, f)
  {
  }

  lemma InStepIsAtBoundary(table: map<int, Conn>, fd: int)
    requires fd in table && !Loose(table, fd)
    ensures AtBoundary(table, fd)
  {
  }

  /** One search for the master, in a session that is in step. */
  method SearchStep(k: Kernel, cluster: Cluster, timeout: int) returns (rc: int, ghost event: Event)
    requires k.Valid() && k.honest && IsInt(timeout) && cluster.Valid() && StringFits(cluster.name)
    requires cluster.master == null || cluster.master in cluster.spine
    modifies k`now, k`idle, k`calls, k`acts, k`table, k`created, k`log, k`closings, cluster`master, cluster.spine`fd
    ensures k.Valid() && cluster.Valid() && (cluster.master == null || cluster.master in cluster.spine)
    ensures event.Searched? && old(k.log) <= k.log
    ensures old(NodesInStep(k.table, cluster.spine)) ==>
              && k.log == old(k.log) + Seen(event)
              && Told(FindMaster(timeout), event, rc, Nothing, cluster.lastError)
              && (!Lapsed(event) ==> NodesInStep(k.table, cluster.spine))
    ensures old(k.acts) <= k.acts && event.search.acts == k.acts[|old(k.acts)|..]
    ensures event.search.was == old(cluster.master) && event.search.master == cluster.master
    ensures event.search.fdBefore == old(MasterFd(cluster)) && event.search.fdAfter == MasterFd(cluster)
    ensures Happened(event, rc, cluster.spine, cluster.name)
    ensures rc == SUCCESS ==>
              MasterFd(cluster) in k.table && event.serial == SerialOf(k.table, MasterFd(cluster))
  {
    hide Consistent, Explains, Cluster.Valid, Discovered, Loose, StringFits, AtBoundary, Shared, EndsNaming, Verdict,
      NodesInStep, Places, ErrorAnswer, AsksOnly, Names, FdsSettled, Had, LeftWith;
    ghost var log, probes, second := k.log, [], None;
    ghost var was, fd, places, acts := cluster.master, MasterFd(cluster), Places(cluster.spine), k.acts;
    HadPlace(was, fd, cluster.spine, places);
    ghost var inStep := NodesInStep(k.table, cluster.spine);
    rc, probes, second := ConnectMaster(k, cluster, timeout);
    SharedShows(acts, k.acts, timeout);
    ghost var search := Search(was, cluster.master, fd, MasterFd(cluster), places, k.acts[|acts|..], probes, second);
    LeftPlace(cluster.master, MasterFd(cluster), cluster.spine, search);
    if rc == SUCCESS {
      event := Searched(k.table[cluster.master.fd].serial, k.log[|log|..], cluster.master.name, search);
      if inStep {
        VerdictShows(k.table, cluster.spine, true, cluster.master.fd, Some(cluster.master.name), log, k.log);
      }
    } else {
      event := Searched(0, k.log[|log|..], [], search);
      if inStep {
        VerdictShows(k.table, cluster.spine, false, -1, None, log, k.log);
      }
    }
  }

  lemma HadPlace(node: Node?, fd: int, spine: seq<Node>, places: seq<Place>)
    requires places == Places(spine) && (node != null ==> node in spine)
    requires fd == if node == null then -1 else node.fd
    ensures Had(node, fd, spine, places)
  {
    hide Places;
    if node != null {
      var i :| 0 <= i < |spine| && spine[i] == node;
      assert places[i].fd == fd;
    }
  }

  lemma LeftPlace(node: Node?, fd: int, spine: seq<Node>, s: Search)
    requires FdsSettled(spine, s.places, s.probes, s.second) && (node != null ==> node in spine)
    requires fd == if node == null then -1 else node.fd
    ensures LeftWith(node, fd, spine, s)
  {
    hide FdLast;
    if node != null {
      var i :| 0 <= i < |spine| && spine[i] == node;
      assert fd == FdLast(node, i, s.places, s.probes, s.second);
    }
  }

  lemma VerdictShows(table: map<int, Conn>, nodes: seq<Node>, found: bool, fd: int, name: Option<Bytes>,
                     log0: seq<Exchange>, log: seq<Exchange>)
    requires Verdict(table, nodes, found, fd, name, log0, log) && (found ==> name.Some?)
    ensures log0 <= log
    ensures !ErrorAnswer(log[|log0|..]) ==>
              && AsksOnly(log[|log0|..]) && NodesInStep(table, nodes)
              && (found ==> fd in table && NamedAtLast(table[fd].serial, log[|log0|..], name.value))
  {
    hide AsksOnly, Loose;
    var new_ := log[|log0|..];
    ExcusedIsInStep(table, nodes, new_);
    if found && ErrorBy(new_, table[fd].serial) {
      ErrorByAnswers(new_, table[fd].serial);
    } else if found {
      assert new_[|new_| - 1] == log[|log| - 1];
    }
  }

  ghost predicate Possible(step: Step)
    reads if step.Perform? && step.op.SendSequence? then {step.op.sequence} else {}
    reads if step.Perform? && step.op.FetchMany? then {step.op.keys} else {}
    reads if step.Perform? && step.op.FetchMany? then step.op.keys.spine else []
  {
    IsInt(step.timeout) && (step.Perform? ==> Sendable(step.op))
  }

  /** Whether the socket behind the master is known after a step: not after a failed search. */
  predicate Kept(step: Step, rc: int) {
    step.Perform? || rc == SUCCESS
  }

  method TakeStep(k: Kernel, cluster: Cluster, step: Step) returns (rc: int, result: Result, ghost event: Event)
    requires k.Valid() && k.honest && Possible(step) && cluster.Valid() && StringFits(cluster.name)
    requires cluster.master == null || cluster.master in cluster.spine
    modifies k`now, k`idle, k`calls, k`acts, k`table, k`created, k`log, k`closings
    modifies cluster`master, cluster`lastError, cluster.spine`fd
    ensures k.Valid() && cluster.Valid() && (cluster.master == null || cluster.master in cluster.spine)
    ensures old(k.log) <= k.log && (step.Perform? <==> event.Performed?)
    ensures old(NodesInStep(k.table, cluster.spine)) ==>
              && k.log == old(k.log) + Seen(event)
              && Told(step, event, rc, result, cluster.lastError)
              && (!Lapsed(event) ==> NodesInStep(k.table, cluster.spine))
    ensures step.Perform? ==> event.Performed? && event.request == old(RequestOf(step.op))
    ensures old(k.acts) <= k.acts && ActsIn(event) == k.acts[|old(k.acts)|..]
    ensures event.Performed? ==> Hears(event.deed, event.request, rc, result, cluster.lastError)
    ensures Happened(event, rc, cluster.spine, cluster.name)
    ensures FdIn(event) == old(MasterFd(cluster)) && FdOutOf(event) == MasterFd(cluster)
    ensures event.Searched? ==> event.search.was == old(cluster.master)
    ensures cluster.master == if event.Searched? then event.search.master else old(cluster.master)
    // The socket behind the master's descriptor stays the same from call to call.
    ensures step.Perform? ==> event.serial == old(SerialOf(k.table, MasterFd(cluster)))
    ensures Kept(step, rc) && MasterFd(cluster) >= 0 ==> event.serial == SerialOf(k.table, MasterFd(cluster))
  {
    hide Consistent, Explains, Cluster.Valid, Callable, RequestOf, RequestFits, Told, Lapsed, Seen, NodesInStep, StringFits,
      Did, Discovered, Had, LeftWith, Hears;
    match step {
      case Perform(op, timeout) =>
        SendableShows(op);
        rc, result, event := PerformStep(k, cluster, op, timeout);
      case FindMaster(timeout) =>
        result := Nothing;
        rc, event := SearchStep(k, cluster, timeout);
    }
  }

  // ----- the record of a session ----------------------------------------------

  /** Up to and including the first lapse, the peers have seen what the events say, in order. */
  ghost predicate SeenInOrder(events: seq<Event>, log0: seq<Exchange>, log: seq<Exchange>) {
    && log0 <= log
    && forall i :: 0 <= i < |events| && NoneLapsed(events[..i]) ==> log0 + SeenAll(events[..i + 1]) <= log
  }

  lemma SeenInOrderMore(events: seq<Event>, e: Event, log0: seq<Exchange>, log1: seq<Exchange>, log2: seq<Exchange>)
    requires SeenInOrder(events, log0, log1) && log1 <= log2
    requires NoneLapsed(events) ==> log1 == log0 + SeenAll(events) && log2 == log1 + Seen(e)
    ensures SeenInOrder(events + [e], log0, log2)
  {
    hide NoneLapsed, Seen, SeenAll;
    var more := events + [e];
    PrefixesSame(events, e);
    SeenSnoc(events, e);
    forall i | 0 <= i < |more| && NoneLapsed(more[..i]) ensures log0 + SeenAll(more[..i + 1]) <= log2 {
      if i < |events| {
        StillPrefix(log0 + SeenAll(events[..i + 1]), log1, log2);
      } else {
        assert more[..i + 1] == more;
        Reassociate(log0, SeenAll(events), Seen(e));
      }
    }
  }

  /** The record of a session so far: of its events only, if nothing has lapsed. */
  ghost predicate Recorded(events: seq<Event>, log0: seq<Exchange>, log: seq<Exchange>) {
    SeenInOrder(events, log0, log) && (NoneLapsed(events) ==> log == log0 + SeenAll(events))
  }

  lemma RecordedMore(events: seq<Event>, e: Event, log0: seq<Exchange>, log1: seq<Exchange>, log2: seq<Exchange>)
    requires Recorded(events, log0, log1) && log1 <= log2
    requires NoneLapsed(events) ==> log2 == log1 + Seen(e)
    ensures Recorded(events + [e], log0, log2)
    ensures NoneLapsed(events + [e]) <==> NoneLapsed(events) && !Lapsed(e)
  {
    hide NoneLapsed, Lapsed, Seen, SeenAll, SeenInOrder;
    SeenSnoc(events, e);
    SeenInOrderMore(events, e, log0, log1, log2);
    Reassociate(log0, SeenAll(events), Seen(e));
  }

  lemma RecordedShows(events: seq<Event>, log0: seq<Exchange>, log: seq<Exchange>)
    requires Recorded(events, log0, log)
    ensures log0 <= log && SeenInOrder(events, log0, log) && (NoneLapsed(events) ==> log == log0 + SeenAll(events))
  {
  }

  /** What a caller can check: no hello, version, who_master or routing call failed, and no peer
      answered the question for the master with an error. */
  predicate AllWell(events: seq<Event>, rcs: seq<int>, exchanges: seq<Exchange>)
    requires |events| == |rcs|
  {
    && (forall i :: 0 <= i < |events| && events[i].Performed?
                    && (var r := events[i].request; r.Hello? || r.Version? || r.WhoMaster? || r.Routing?) ==>
          rcs[i] == SUCCESS)
    && (forall e :: e in exchanges && e.request.WhoMaster? ==> e.reply.Success?)
  }

  lemma RiskyLapse(step: Step, e: Event, rc: int, result: Result, error: Option<Bytes>)
    requires Told(step, e, rc, result, error) && Lapsed(e)
    ensures if e.Performed? then
              (e.request.Hello? || e.request.Version? || e.request.WhoMaster? || e.request.Routing?) && rc != SUCCESS
            else ErrorAnswer(Seen(e))
  {
    if e.Performed? {
      CredibleLapse(e.request, rc, e.end);
    }
  }

  lemma ErrorAnswerInAll(part: seq<Exchange>, before: seq<Exchange>, log0: seq<Exchange>, log: seq<Exchange>)
    requires log0 + (before + part) <= log && ErrorAnswer(part)
    ensures ErrorAnswer(log[|log0|..])
  {
    var e :| e in part && e.request.WhoMaster? && e.reply.Failure?;
    var i :| 0 <= i < |part| && part[i] == e;
    assert log[|log0|..][|before| + i] == e;
  }

  /** Where nothing failed, nothing lapsed. */
  lemma {:induction false} NothingFailedNoneLapsed(
    steps: seq<Step>, events: seq<Event>, rcs: seq<int>, results: seq<Result>, errors: seq<Option<Bytes>>,
    log0: seq<Exchange>, log: seq<Exchange>, n: nat)
    requires |steps| == |events| == |rcs| == |results| == |errors| && n <= |steps|
    requires SeenInOrder(events, log0, log) && AllWell(events, rcs, log[|log0|..])
    requires forall i :: 0 <= i < |steps| ==>
               Reported(NoneLapsed(events[..i]), steps[i], events[i], rcs[i], results[i], errors[i])
    ensures NoneLapsed(events[..n])
  {
    hide Told, Hears, Seen, Lapsed, ErrorAnswer;
    if n > 0 {
      NothingFailedNoneLapsed(steps, events, rcs, results, errors, log0, log, n - 1);
      assert events[..n] == events[..n - 1] + [events[n - 1]];
      SeenSnoc(events[..n - 1], events[n - 1]);
      if Lapsed(events[n - 1]) {
        RiskyLapse(steps[n - 1], events[n - 1], rcs[n - 1], results[n - 1], errors[n - 1]);
        if events[n - 1].Searched? {
          ErrorAnswerInAll(Seen(events[n - 1]), SeenAll(events[..n - 1]), log0, log);
        }
      }
    }
  }

  lemma AllWellNoneLapsed(steps: seq<Step>, events: seq<Event>, rcs: seq<int>, results: seq<Result>,
                          errors: seq<Option<Bytes>>, log0: seq<Exchange>, log: seq<Exchange>)
    requires |steps| == |events| == |rcs| == |results| == |errors| && SeenInOrder(events, log0, log)
    requires forall i :: 0 <= i < |steps| ==>
               Reported(NoneLapsed(events[..i]), steps[i], events[i], rcs[i], results[i], errors[i])
    ensures AllWell(events, rcs, log[|log0|..]) ==> NoneLapsed(events)
  {
    hide Reported, NoneLapsed, SeenAll, AllWell;
    if AllWell(events, rcs, log[|log0|..]) {
      NothingFailedNoneLapsed(steps, events, rcs, results, errors, log0, log, |steps|);
      assert events[..|steps|] == events;
    }
  }

  /** From a successful search on, and from the beginning on, every call goes to the same socket
      as long as the master has a descriptor and there is no other search. */
  predicate OnOneSocket(steps: seq<Step>, events: seq<Event>, rcs: seq<int>, serial: nat)
    requires |steps| == |events| == |rcs|
  {
    forall i :: 0 <= i < |steps| && steps[i].Perform? && FdIn(events[i]) >= 0 && KeptBefore(steps, rcs, i) ==>
      events[i].serial == SerialBefore(events, i, serial)
  }

  predicate KeptBefore(steps: seq<Step>, rcs: seq<int>, i: nat)
    requires i <= |steps| && i <= |rcs|
  {
    i > 0 ==> Kept(steps[i - 1], rcs[i - 1])
  }

  function SerialBefore(events: seq<Event>, i: nat, serial: nat): nat
    requires i <= |events|
  {
    if i == 0 then serial else events[i - 1].serial
  }

  lemma OneMoreOnSocket(steps: seq<Step>, events: seq<Event>, rcs: seq<int>, step: Step, e: Event, rc: int, serial: nat)
    requires |steps| == |events| == |rcs| && OnOneSocket(steps, events, rcs, serial)
    requires step.Perform? && FdIn(e) >= 0 && KeptBefore(steps, rcs, |steps|) ==>
               e.serial == SerialBefore(events, |events|, serial)
    ensures OnOneSocket(steps + [step], events + [e], rcs + [rc], serial)
  {
    hide FdIn, Kept;
    var more, steps', rcs' := events + [e], steps + [step], rcs + [rc];
    forall j | 0 <= j < |more| && steps'[j].Perform? && FdIn(more[j]) >= 0 && KeptBefore(steps', rcs', j)
      ensures more[j].serial == SerialBefore(more, j, serial)
    {
      assert SerialBefore(more, j, serial) == SerialBefore(events, j, serial);
      assert KeptBefore(steps, rcs, j);
    }
  }

  /** A session so far, and the master, its descriptor and the socket behind it now. */
  ghost predicate SoFar(steps: seq<Step>, events: seq<Event>, rcs: seq<int>, spine: seq<Node>, title: Bytes,
                        was: Node?, fd: int, serial: nat, acts0: seq<Act>,
                        acts: seq<Act>, master: Node?, fdNow: int, serialNow: nat)
  {
    && |steps| == |events| == |rcs|
    && (forall i :: 0 <= i < |steps| ==> (steps[i].Perform? <==> events[i].Performed?))
    && Chronicle(events, rcs, spine, title, was, fd, acts0, acts)
    && OnOneSocket(steps, events, rcs, serial)
    && fdNow == FdAt(events, |events|, fd) && master == MasterAfter(events, was)
    && (fdNow >= 0 && KeptBefore(steps, rcs, |events|) ==> serialNow == SerialBefore(events, |events|, serial))
  }

  lemma SoFarMore(steps: seq<Step>, events: seq<Event>, rcs: seq<int>, spine: seq<Node>, title: Bytes,
                  was: Node?, fd: int, serial: nat, acts0: seq<Act>,
                  acts1: seq<Act>, master1: Node?, fd1: int, serial1: nat, step: Step, e: Event, rc: int,
                  acts2: seq<Act>, master2: Node?, fd2: int, serial2: nat)
    requires SoFar(steps, events, rcs, spine, title, was, fd, serial, acts0, acts1, master1, fd1, serial1)
    requires acts1 <= acts2 && ActsIn(e) == acts2[|acts1|..]
    requires Happened(e, rc, spine, title) && FdIn(e) == fd1 && FdOutOf(e) == fd2 && (step.Perform? <==> e.Performed?)
    requires e.Searched? ==> e.search.was == master1
    requires master2 == if e.Searched? then e.search.master else master1
    requires step.Perform? ==> e.serial == serial1
    requires Kept(step, rc) && fd2 >= 0 ==> e.serial == serial2
    ensures SoFar(steps + [step], events + [e], rcs + [rc], spine, title, was, fd, serial, acts0,
                  acts2, master2, fd2, serial2)
  {
    hide Happened, FdIn, FdOutOf, ActsIn, FdAt, MasterAfter, Kept, OnOneSocket, Chronicle;
    ChronicleMore(events, rcs, spine, title, was, fd, acts0, acts1, acts2, e, rc);
    OneMoreOnSocket(steps, events, rcs, step, e, rc, serial);
  }

  /** The next step of a session. */
  method NextStep(k: Kernel, cluster: Cluster, step: Step, ghost steps: seq<Step>, ghost events: seq<Event>,
                  ghost rcs: seq<int>, ghost was: Node?, ghost fd: int, ghost serial: nat,
                  ghost acts0: seq<Act>, ghost log0: seq<Exchange>)
    returns (rc: int, result: Result, ghost event: Event)
    requires k.Valid() && k.honest && Possible(step) && cluster.Valid() && StringFits(cluster.name)
    requires cluster.master == null || cluster.master in cluster.spine
    requires Recorded(events, log0, k.log) && (NoneLapsed(events) ==> NodesInStep(k.table, cluster.spine))
    requires SoFar(steps, events, rcs, cluster.spine, cluster.name, was, fd, serial, acts0,
                   k.acts, cluster.master, MasterFd(cluster), SerialOf(k.table, MasterFd(cluster)))
    modifies k`now, k`idle, k`calls, k`acts, k`table, k`created, k`log, k`closings
    modifies cluster`master, cluster`lastError, cluster.spine`fd
    ensures k.Valid() && cluster.Valid() && (cluster.master == null || cluster.master in cluster.spine)
    ensures Reported(NoneLapsed(events), step, event, rc, result, cluster.lastError)
    ensures Recorded(events + [event], log0, k.log)
    ensures NoneLapsed(events + [event]) ==> NodesInStep(k.table, cluster.spine)
    ensures SoFar(steps + [step], events + [event], rcs + [rc], cluster.spine, cluster.name, was, fd, serial, acts0,
                  k.acts, cluster.master, MasterFd(cluster), SerialOf(k.table, MasterFd(cluster)))
  {
    hide Consistent, Explains, Cluster.Valid, Possible, Told, NoneLapsed, Lapsed, Seen, SeenAll, NodesInStep, StringFits,
      Recorded, SoFar, Happened, FdIn, FdOutOf, ActsIn, Kept, RequestOf, Hears;
    ghost var log1, acts1, master1, fd1 := k.log, k.acts, cluster.master, MasterFd(cluster);
    ghost var serial1 := SerialOf(k.table, fd1);
    rc, result, event := TakeStep(k, cluster, step);
    RecordedMore(events, event, log0, log1, k.log);
    SoFarMore(steps, events, rcs, cluster.spine, cluster.name, was, fd, serial, acts0,
              acts1, master1, fd1, serial1, step, event, rc,
              k.acts, cluster.master, MasterFd(cluster), SerialOf(k.table, MasterFd(cluster)));
  }

  /** Any session whose peers keep to the protocol. Up to the first lapse every call that
      succeeds was answered, by a peer, for its own request, and tells its caller exactly
      that answer, and every search that succeeds was answered by the master itself; all this
      is on the peers' record in order. Whether or not anything lapsed, the client did, step by
      step, what calls and searches do. If nothing lapsed, which is so at least when no risky
      call failed and no peer answered the question for the master with an error, no node is
      left with a connection out of step, and the record is of this session only. */
  method RunSession(k: Kernel, cluster: Cluster, steps: seq<Step>)
    returns (rcs: seq<int>, results: seq<Result>, errors: seq<Option<Bytes>>, ghost events: seq<Event>)
    requires k.Valid() && k.honest && cluster.Valid() && StringFits(cluster.name)
    requires cluster.master == null || cluster.master in cluster.spine
    requires NodesInStep(k.table, cluster.spine)
    requires forall s :: s in steps ==> Possible(s)
    modifies k`now, k`idle, k`calls, k`acts, k`table, k`created, k`log, k`closings
    modifies cluster`master, cluster`lastError, cluster.spine`fd
    ensures k.Valid() && cluster.Valid() && (cluster.master == null || cluster.master in cluster.spine)
    ensures |rcs| == |results| == |errors| == |events| == |steps|
    ensures forall i :: 0 <= i < |steps| ==>
              Reported(NoneLapsed(events[..i]), steps[i], events[i], rcs[i], results[i], errors[i])
    ensures SeenInOrder(events, old(k.log), k.log)
    ensures forall i :: 0 <= i < |steps| ==> (steps[i].Perform? <==> events[i].Performed?)
    ensures Chronicle(events, rcs, cluster.spine, cluster.name, old(cluster.master), old(MasterFd(cluster)),
                      old(k.acts), k.acts)
    ensures FdAt(events, |events|, old(MasterFd(cluster))) == MasterFd(cluster)
    ensures MasterAfter(events, old(cluster.master)) == cluster.master
    ensures OnOneSocket(steps, events, rcs, old(SerialOf(k.table, MasterFd(cluster))))
    ensures AllWell(events, rcs, k.log[|old(k.log)|..]) ==> NoneLapsed(events)
    ensures NoneLapsed(events) ==>
              NodesInStep(k.table, cluster.spine) && k.log == old(k.log) + SeenAll(events)
  {
    hide Consistent, Explains, Cluster.Valid, Possible, Reported, NoneLapsed, Lapsed, Seen, SeenAll, NodesInStep, StringFits,
      SeenInOrder, Recorded, SoFar, Chronicle, OnOneSocket, FdAt, MasterAfter, RequestOf,
      AllWell;
    rcs, results, errors, events := [], [], [], [];
    ghost var log0 := k.log;
    NothingSeen(log0);
    ghost var was, fd := cluster.master, MasterFd(cluster);
    ghost var serial := SerialOf(k.table, fd);
    SessionBegins(cluster.spine, cluster.name, was, fd, serial, k.acts);
    for i := 0 to |steps|
      invariant k.Valid() && cluster.Valid() && (cluster.master == null || cluster.master in cluster.spine)
      invariant |rcs| == |results| == |errors| == |events| == i
      invariant forall j :: 0 <= j < |steps| ==> Possible(steps[j])
      invariant NoneLapsed(events) ==> NodesInStep(k.table, cluster.spine)
      invariant Recorded(events, log0, k.log)
      invariant SoFar(steps[..i], events, rcs, cluster.spine, cluster.name, was, fd, serial, old(k.acts),
                      k.acts, cluster.master, MasterFd(cluster), SerialOf(k.table, MasterFd(cluster)))
      invariant forall j :: 0 <= j < i ==>
                  Reported(NoneLapsed(events[..j]), steps[j], events[j], rcs[j], results[j], errors[j])
    {
      var rc, result;
      ghost var event;
      rc, result, event := NextStep(k, cluster, steps[i], steps[..i], events, rcs, was, fd, serial, old(k.acts), log0);
      assert steps[..i + 1] == steps[..i] + [steps[i]];
      PrefixesSame(events, event);
      rcs, results, errors, events := rcs + [rc], results + [result], errors + [cluster.lastError], events + [event];
    }
    assert steps[..|steps|] == steps;
    RecordedShows(events, log0, k.log);
    SoFarShows(steps, events, rcs, cluster.spine, cluster.name, was, fd, serial, old(k.acts),
               k.acts, cluster.master, MasterFd(cluster), SerialOf(k.table, MasterFd(cluster)));
    AllWellNoneLapsed(steps, events, rcs, results, errors, log0, k.log);
  }

  lemma NothingSeen(log: seq<Exchange>)
    ensures NoneLapsed([]) && Recorded([], log, log)
  {
  }

  lemma SessionBegins(spine: seq<Node>, title: Bytes, was: Node?, fd: int, serial: nat, acts: seq<Act>)
    ensures SoFar([], [], [], spine, title, was, fd, serial, acts, acts, was, fd, serial)
  {
    ChronicleBegins(spine, title, was, fd, acts);
  }

  lemma SoFarShows(steps: seq<Step>, events: seq<Event>, rcs: seq<int>, spine: seq<Node>, title: Bytes,
                   was: Node?, fd: int, serial: nat, acts0: seq<Act>,
                   acts: seq<Act>, master: Node?, fdNow: int, serialNow: nat)
    requires SoFar(steps, events, rcs, spine, title, was, fd, serial, acts0, acts, master, fdNow, serialNow)
    ensures |steps| == |events| == |rcs|
    ensures forall i :: 0 <= i < |steps| ==> (steps[i].Perform? <==> events[i].Performed?)
    ensures Chronicle(events, rcs, spine, title, was, fd, acts0, acts) && OnOneSocket(steps, events, rcs, serial)
    ensures FdAt(events, |events|, fd) == fdNow && MasterAfter(events, was) == master
  {
    hide Chronicle, OnOneSocket, FdAt, MasterAfter, KeptBefore;
  }
}
