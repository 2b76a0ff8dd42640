/** The protocol's I/O macros over a node's connection. Any failure but one drops the
    connection, so a half-read or half-written message is never left on an open one. */
module Protocol {
  import opened Wire
  import opened WireLists
  import opened Fields
  import opened Requests
  import opened Time
  import opened Acts
  import opened Kernels
  import opened Transfer
  import opened Topology
  import ValueLists
  import KeyValueLists

  /** Bytes were read from one connection; nothing else has changed. */
  ghost predicate OnlyRead(before: map<int, Conn>, after: map<int, Conn>, fd: int) {
    && OnlyStreams(before, after, fd)
    && fd in before
    && after[fd].up == before[fd].up
  }

  /** The unread stream of a descriptor. */
  function Unread(table: map<int, Conn>, fd: int): Bytes {
    if fd in table then table[fd].down else []
  }

  /** One value was decoded off the front of the unread stream. */
  ghost predicate Decoded<T>(before: map<int, Conn>, after: map<int, Conn>, fd: int, parsed: Parsed<T>, v: T) {
    OnlyRead(before, after, fd) && parsed == Got(v, Unread(after, fd))
  }

  // ----- the record of reads --------------------------------------------------

  /** The bytes that a run of transfers moved. */
  function Delivered(acts: seq<Act>): Bytes {
    if acts == [] then []
    else
      var a := acts[|acts| - 1];
      Delivered(acts[..|acts| - 1]) + if a.Transferred? then a.moved else []
  }

  lemma {:induction false} DeliveredMore(x: seq<Act>, y: seq<Act>)
    ensures Delivered(x + y) == Delivered(x) + Delivered(y)
  {
    if y == [] {
      assert x + y == x;
    } else {
      assert (x + y)[..|x + y| - 1] == x + y[..|y| - 1];
      DeliveredMore(x, y[..|y| - 1]);
    }
  }

  /** All acts succeeded, or all but the last, which gave the code. */
  ghost predicate Outcome(acts: seq<Act>, rc: int) {
    if rc == SUCCESS then forall a :: a in acts ==> a.rc == SUCCESS
    else acts != [] && acts[|acts| - 1].rc == rc && forall i :: 0 <= i < |acts| - 1 ==> acts[i].rc == SUCCESS
  }

  lemma OutcomeMore(x: seq<Act>, y: seq<Act>, rc: int)
    requires Outcome(x, SUCCESS) && Outcome(y, rc)
    ensures Outcome(x + y, rc)
  {
  }

  ghost predicate AllReads(acts: seq<Act>, fd: int) {
    forall a :: a in acts ==> a.Transferred? && a.action.ReadAction? && a.fd == fd
  }

  /** The code of the first act that failed. */
  function FirstFailure(acts: seq<Act>): int {
    if acts == [] then SUCCESS
    else if acts[0].rc != SUCCESS then acts[0].rc
    else FirstFailure(acts[1..])
  }

  lemma {:induction false} OutcomeIsFirstFailure(acts: seq<Act>, rc: int)
    requires Outcome(acts, rc)
    ensures FirstFailure(acts) == rc
  {
    if acts != [] {
      if rc != SUCCESS && |acts| == 1 {
        assert acts[0].rc == rc;
      } else {
        assert acts[0].rc == SUCCESS;
        assert rc != SUCCESS ==> acts[1..][|acts| - 2] == acts[|acts| - 1];
        OutcomeIsFirstFailure(acts[1..], rc);
      }
    }
  }

  lemma {:induction false} FirstFailureMore(x: seq<Act>, y: seq<Act>)
    ensures FirstFailure(x + y) == if FirstFailure(x) != SUCCESS then FirstFailure(x) else FirstFailure(y)
  {
    if x == [] {
      assert x + y == y;
    } else {
      assert (x + y)[1..] == x[1..] + y;
      FirstFailureMore(x[1..], y);
    }
  }

  ghost predicate AllWrites(acts: seq<Act>, fd: int) {
    forall a :: a in acts ==> a.Transferred? && a.action.WriteAction? && a.fd == fd
  }

  /** The new acts are writes on one descriptor, up to one that fails, of these bytes. */
  ghost predicate Writes(acts0: seq<Act>, acts: seq<Act>, fd: int, bytes: Bytes, rc: int) {
    && acts0 <= acts
    && var new_ := acts[|acts0|..];
       && AllWrites(new_, fd) && Outcome(new_, rc)
       && Delivered(new_) <= bytes && (rc == SUCCESS ==> Delivered(new_) == bytes)
  }

  lemma NothingWritten(acts: seq<Act>, fd: int)
    ensures Writes(acts, acts, fd, [], SUCCESS)
  {
  }

  lemma WritesMore(a0: seq<Act>, a1: seq<Act>, a: Act, fd: int, sent: Bytes, piece: Bytes)
    requires Writes(a0, a1, fd, sent, SUCCESS)
    requires a.Transferred? && a.action.WriteAction? && a.fd == fd
    requires a.moved <= piece && (a.rc == SUCCESS ==> a.moved == piece)
    ensures Writes(a0, a1 + [a], fd, sent + piece, a.rc)
  {
    var x := a1[|a0|..];
    assert (a1 + [a])[|a0|..] == x + [a];
    assert (x + [a])[..|x|] == x;
  }

  lemma WritesOne(acts: seq<Act>, a: Act, fd: int, bytes: Bytes)
    requires a.Transferred? && a.action.WriteAction? && a.fd == fd
    requires a.moved <= bytes && (a.rc == SUCCESS ==> a.moved == bytes)
    ensures Writes(acts, acts + [a], fd, bytes, a.rc)
  {
    hide Writes;
    NothingWritten(acts, fd);
    WritesMore(acts, acts, a, fd, [], bytes);
    assert [] + bytes == bytes;
  }

  /** A write that failed sent no more than was to be sent in the end. */
  lemma WritesOf(a0: seq<Act>, a1: seq<Act>, fd: int, part: Bytes, whole: Bytes, rc: int)
    requires Writes(a0, a1, fd, part, rc) && rc != SUCCESS && part <= whole
    ensures Writes(a0, a1, fd, whole, rc)
  {
    hide Delivered, Outcome, AllWrites;
  }

  /** The new acts are reads on one descriptor, up to one that fails. */
  ghost predicate ReadOn(acts0: seq<Act>, acts: seq<Act>, fd: int, rc: int) {
    acts0 <= acts && AllReads(acts[|acts0|..], fd) && Outcome(acts[|acts0|..], rc)
  }

  lemma ReadOnNone(acts: seq<Act>, fd: int)
    ensures ReadOn(acts, acts, fd, SUCCESS)
  {
  }

  /** What the new acts delivered is what is gone from the unread stream. */
  ghost predicate Took(before: map<int, Conn>, after: map<int, Conn>, acts0: seq<Act>, acts: seq<Act>, fd: int) {
    acts0 <= acts && Unread(before, fd) == Delivered(acts[|acts0|..]) + Unread(after, fd)
  }

  lemma TookNothing(table: map<int, Conn>, acts: seq<Act>, fd: int)
    ensures Took(table, table, acts, acts, fd)
  {
    assert acts[|acts|..] == [];
  }

  lemma TookShows(before: map<int, Conn>, after: map<int, Conn>, acts0: seq<Act>, acts: seq<Act>, fd: int)
    requires Took(before, after, acts0, acts, fd)
    ensures acts0 <= acts && Unread(before, fd) == Delivered(acts[|acts0|..]) + Unread(after, fd)
  {
  }

  lemma TookMore(t0: map<int, Conn>, t1: map<int, Conn>, t2: map<int, Conn>, a0: seq<Act>, a1: seq<Act>, a2: seq<Act>, fd: int)
    requires Took(t0, t1, a0, a1, fd) && Took(t1, t2, a1, a2, fd)
    ensures Took(t0, t2, a0, a2, fd)
  {
    SuffixSplits(a0, a1, a2);
    DeliveredMore(a1[|a0|..], a2[|a1|..]);
  }

  /** The new acts are reads on one descriptor, on one budget, and what they delivered is what
      is gone from the unread stream. */
  ghost predicate Reads(before: map<int, Conn>, after: map<int, Conn>, acts0: seq<Act>, acts: seq<Act>,
                        fd: int, timeout: int, rc: int, left: int)
  {
    && Spends(acts0, acts, timeout, left)
    && AllReads(acts[|acts0|..], fd)
    && Outcome(acts[|acts0|..], rc)
    && (rc == SUCCESS ==> Unread(before, fd) == Delivered(acts[|acts0|..]) + Unread(after, fd))
  }

  lemma ReadsMore(t0: map<int, Conn>, t1: map<int, Conn>, t2: map<int, Conn>, a0: seq<Act>, a1: seq<Act>, a2: seq<Act>,
                  fd: int, e0: int, e1: int, e2: int, rc: int)
    requires Reads(t0, t1, a0, a1, fd, e0, SUCCESS, e1) && Reads(t1, t2, a1, a2, fd, e1, rc, e2)
    ensures Reads(t0, t2, a0, a2, fd, e0, rc, e2)
  {
    hide Delivered, Outcome, Chained, LeftAfter;
    SpendsMore(a0, a1, a2, e0, e1, e2);
    var x, y := a1[|a0|..], a2[|a1|..];
    assert a2[|a0|..] == x + y;
    OutcomeMore(x, y, rc);
    DeliveredMore(x, y);
  }

  lemma ReadsSpends(t0: map<int, Conn>, t1: map<int, Conn>, a0: seq<Act>, a1: seq<Act>, fd: int, e0: int, rc: int, e1: int)
    requires Reads(t0, t1, a0, a1, fd, e0, rc, e1)
    ensures Spends(a0, a1, e0, e1) && Shared(a0, a1, e0) && ReadOn(a0, a1, fd, rc)
    ensures rc == SUCCESS ==> Took(t0, t1, a0, a1, fd)
  {
  }

  lemma ReadsCompose(a: map<int, Conn>, b: map<int, Conn>, c: map<int, Conn>, fd: int)
    requires OnlyRead(a, b, fd) && OnlyRead(b, c, fd)
    ensures OnlyRead(a, c, fd)
  {
  }

  lemma DroppedAnyway(a: map<int, Conn>, b: map<int, Conn>, fd: int)
    requires OnlyStreams(a, b, fd)
    ensures b - {fd} == a - {fd}
  {
    assert (b - {fd}).Keys == (a - {fd}).Keys;
    assert forall f :: f in a - {fd} ==> (b - {fd})[f] == (a - {fd})[f];
  }

  lemma NegativeIsNotOpen(table: map<int, Conn>, created: nat, closings: seq<Closing>, fd: int)
    requires Consistent(table, created, closings) && fd < 0
    ensures table - {fd} == table
  {
  }

  /** shutdown and close, if there is anything open. */
  method Disconnect(k: Kernel, node: Node)
    requires k.Valid()
    modifies k`table, k`closings, node`fd
    ensures k.Valid() && node.fd == -1 && k.table == old(k.table) - {old(node.fd)}
  {
    hide Consistent, Explains;
    if node.fd >= 0 {
      k.Close(node.fd);
    } else {
      NegativeIsNotOpen(k.table, k.created, k.closings, node.fd);
    }
    node.fd := -1;
  }

  /** WRITE_BYTES. `reached` is the connection as the write left it, before any drop. */
  method WriteBytes(k: Kernel, node: Node, data: array<byte>, timeout: int)
    returns (rc: int, left: int, ghost act: Act, ghost reached: Conn)
    requires k.Valid() && IsInt(timeout)
    modifies k`now, k`idle, k`calls, k`acts, k`table, k`log, k`closings, node`fd, data
    ensures k.Valid() && IsInt(left) && old(k.log) <= k.log && data[..] == old(data[..])
    ensures k.acts == old(k.acts) + [act] && IsTransferAct(act, WriteAction, old(node.fd), data.Length, Some(timeout), rc)
    ensures Spends(old(k.acts), k.acts, timeout, left)
    ensures act.moved <= data[..] && (rc == SUCCESS ==> act.moved == data[..])
    ensures rc != SUCCESS ==> node.fd == -1 && k.table == old(k.table) - {old(node.fd)}
    ensures rc == SUCCESS ==>
              && node.fd == old(node.fd) && node.fd >= 0
              && OnlyStreams(old(k.table), k.table, node.fd)
              && (data.Length > 0 ==> node.fd in k.table)
              && (node.fd in k.table ==> reached == k.table[node.fd])
    ensures old(node.fd) in old(k.table) && k.honest ==>
              && reached.serial == old(k.table)[old(node.fd)].serial
              && TookIn(old(k.table)[old(node.fd)], reached, act.moved, k.log[|old(k.log)|..])
    ensures old(node.fd) !in old(k.table) ==> k.log == old(k.log) && (data.Length > 0 ==> rc != SUCCESS)
  {
    hide Consistent, Explains, Reads, OnlyStreams, TookIn;
    rc, left, act := PollWrite(k, node.fd, data, timeout);
    SpendsOne(old(k.acts), act);
    SameKeys(old(k.table), k.table, node.fd);
    reached := if node.fd in k.table then k.table[node.fd] else Conn(0, false, false, [], []);
    SerialKept(old(k.table), k.table, node.fd);
    if rc != SUCCESS {
      DroppedAnyway(old(k.table), k.table, node.fd);
      Disconnect(k, node);
    }
  }

  lemma SerialKept(a: map<int, Conn>, b: map<int, Conn>, fd: int)
    requires OnlyStreams(a, b, fd)
    ensures fd in a ==> fd in b && b[fd].serial == a[fd].serial
  {
  }

  /** READ_BYTES into a buffer of n bytes */
  method ReadBytes(k: Kernel, node: Node, n: nat, timeout: int) returns (rc: int, data: Bytes, left: int)
    requires k.Valid() && IsInt(timeout) && n > 0
    modifies k`now, k`idle, k`calls, k`acts, k`table, k`closings, node`fd
    ensures k.Valid() && IsInt(left) && |k.acts| == |old(k.acts)| + 1
    ensures Reads(old(k.table), k.table, old(k.acts), k.acts, old(node.fd), timeout, rc, left)
    ensures rc != SUCCESS ==> node.fd == -1 && k.table == old(k.table) - {old(node.fd)}
    ensures rc == SUCCESS ==>
              && node.fd == old(node.fd) && |data| == n
              && OnlyRead(old(k.table), k.table, node.fd)
              && Unread(old(k.table), node.fd) == data + Unread(k.table, node.fd)
  {
    hide Consistent, Explains, OnlyStreams, Spends, AllReads, Outcome, Delivered;
    var buffer := new byte[n];
    ghost var act;
    rc, left, act := PollRead(k, node.fd, buffer, timeout);
    OneRead(old(k.acts), act, rc);
    data := buffer[..];
    if rc != SUCCESS {
      DroppedAnyway(old(k.table), k.table, node.fd);
      Disconnect(k, node);
    } else {
      SameKeys(old(k.table), k.table, node.fd);
    }
  }

  lemma OneRead(acts: seq<Act>, a: Act, rc: int)
    requires a.Transferred? && a.action.ReadAction? && a.entry.Some? && a.rc == rc
    ensures Spends(acts, acts + [a], a.entry.value, LeftOf(a))
    ensures var new_ := (acts + [a])[|acts|..];
            new_ == [a] && AllReads(new_, a.fd) && Outcome(new_, rc) && Delivered(new_) == a.moved
  {
    SpendsOne(acts, a);
    var one := (acts + [a])[|acts|..];
    assert one == [a] && one[..0] == [];
    assert Delivered([a]) == Delivered([]) + a.moved;
  }

  lemma SameKeys(a: map<int, Conn>, b: map<int, Conn>, fd: int)
    requires OnlyStreams(a, b, fd)
    ensures fd in a <==> fd in b
  {
  }

  /** READ_UINT32 */
  method ReadUint32(k: Kernel, node: Node, timeout: int) returns (rc: int, w: int, left: int)
    requires k.Valid() && IsInt(timeout)
    modifies k`now, k`idle, k`calls, k`acts, k`table, k`closings, node`fd
    ensures k.Valid() && IsInt(left) && |k.acts| == |old(k.acts)| + 1
    ensures Reads(old(k.table), k.table, old(k.acts), k.acts, old(node.fd), timeout, rc, left)
    ensures rc != SUCCESS ==> node.fd == -1 && k.table == old(k.table) - {old(node.fd)}
    ensures rc == SUCCESS ==>
              && node.fd == old(node.fd) && FitsWord(w)
              && Decoded(old(k.table), k.table, node.fd, GetUint(Unread(old(k.table), node.fd)), w)
  {
    hide Consistent, Explains, Reads, OnlyStreams, PutWord;
    var data;
    rc, data, left := ReadBytes(k, node, 4, timeout);
    w := 0;
    if rc == SUCCESS {
      w := GetWord(data);
      WordExtends(data, Unread(k.table, node.fd));
    }
  }

  /** READ_INT32 */
  method ReadInt32(k: Kernel, node: Node, timeout: int) returns (rc: int, i: int, left: int)
    requires k.Valid() && IsInt(timeout)
    modifies k`now, k`idle, k`calls, k`acts, k`table, k`closings, node`fd
    ensures k.Valid() && IsInt(left)
    ensures Reads(old(k.table), k.table, old(k.acts), k.acts, old(node.fd), timeout, rc, left)
    ensures rc != SUCCESS ==> node.fd == -1 && k.table == old(k.table) - {old(node.fd)}
    ensures rc == SUCCESS ==>
              && node.fd == old(node.fd)
              && Decoded(old(k.table), k.table, node.fd, GetInt(Unread(old(k.table), node.fd)), i)
  {
    hide Consistent, Explains, Reads, OnlyStreams;
    var w;
    rc, w, left := ReadUint32(k, node, timeout);
    i := if rc == SUCCESS then Signed(w) else 0;
  }

  /** READ_BOOL */
  method ReadBool(k: Kernel, node: Node, timeout: int) returns (rc: int, b: bool, left: int)
    requires k.Valid() && IsInt(timeout)
    modifies k`now, k`idle, k`calls, k`acts, k`table, k`closings, node`fd
    ensures k.Valid() && IsInt(left)
    ensures Reads(old(k.table), k.table, old(k.acts), k.acts, old(node.fd), timeout, rc, left)
    ensures rc != SUCCESS ==> node.fd == -1 && k.table == old(k.table) - {old(node.fd)}
    ensures rc == SUCCESS ==>
              && node.fd == old(node.fd)
              && Decoded(old(k.table), k.table, node.fd, GetBool(Unread(old(k.table), node.fd)), b)
  {
    hide Consistent, Explains, Reads, OnlyStreams;
    var data;
    rc, data, left := ReadBytes(k, node, 1, timeout);
    b := rc == SUCCESS && data[0] != 0;
    if rc == SUCCESS {
      assert Unread(old(k.table), node.fd)[0] == data[0];
      assert Unread(old(k.table), node.fd)[1..] == Unread(k.table, node.fd);
    }
  }

  /** READ_STRING. A zero length leaves the return code as it was. */
  method ReadString(k: Kernel, node: Node, rcBefore: int, timeout: int) returns (rc: int, s: Bytes, left: int)
    requires k.Valid() && IsInt(timeout) && rcBefore == SUCCESS
    modifies k`now, k`idle, k`calls, k`acts, k`table, k`closings, node`fd
    ensures k.Valid() && IsInt(left)
    ensures Reads(old(k.table), k.table, old(k.acts), k.acts, old(node.fd), timeout, rc, left)
    ensures rc != SUCCESS ==> node.fd == -1 && k.table == old(k.table) - {old(node.fd)}
    ensures rc == SUCCESS ==>
              && node.fd == old(node.fd)
              && Decoded(old(k.table), k.table, node.fd, GetString(Unread(old(k.table), node.fd)), s)
  {
    hide Consistent, Explains, Reads, OnlyStreams, OnlyRead;
    rc, s := rcBefore, [];
    var rc', l;
    rc', l, left := ReadUint32(k, node, timeout);
    if rc' != SUCCESS {
      rc := rc';
      return;
    }
    ghost var mid, acts, budget := k.table, k.acts, left;
    if l != 0 {
      rc, s, left := ReadBytes(k, node, l, left);
      ReadsMore(old(k.table), mid, k.table, old(k.acts), acts, k.acts, old(node.fd), timeout, budget, left, rc);
      if rc != SUCCESS {
        DroppedAnywayAfterRead(old(k.table), mid, old(node.fd));
        return;
      }
      ReadsCompose(old(k.table), mid, k.table, node.fd);
    }
    StringInTwoReads(Unread(old(k.table), node.fd), l, s, Unread(k.table, node.fd));
  }

  lemma DroppedAnywayAfterRead(a: map<int, Conn>, b: map<int, Conn>, fd: int)
    requires OnlyRead(a, b, fd)
    ensures b - {fd} == a - {fd}
  {
    DroppedAnyway(a, b, fd);
  }

  lemma StringInTwoReads(stream: Bytes, l: int, s: Bytes, rest: Bytes)
    requires GetUint(stream) == Got(l, s + rest) && |s| == l
    ensures GetString(stream) == Got(s, rest)
  {
    assert stream[4..4 + l] == stream[4..][..l];
    assert stream[4 + l..] == stream[4..][l..];
  }

  /** READ_STRING_OPTION */
  method ReadStringOption(k: Kernel, node: Node, rcBefore: int, timeout: int)
    returns (rc: int, o: Option<Bytes>, left: int)
    requires k.Valid() && IsInt(timeout) && rcBefore == SUCCESS
    modifies k`now, k`idle, k`calls, k`acts, k`table, k`closings, node`fd
    ensures k.Valid() && IsInt(left)
    ensures Reads(old(k.table), k.table, old(k.acts), k.acts, old(node.fd), timeout, rc, left)
    ensures rc != SUCCESS ==> node.fd == -1 && k.table == old(k.table) - {old(node.fd)}
    ensures rc == SUCCESS ==>
              && node.fd == old(node.fd)
              && Decoded(old(k.table), k.table, node.fd, GetOption(Unread(old(k.table), node.fd)), o)
  {
    hide Consistent, Explains, Reads, OnlyStreams, OnlyRead;
    o := None;
    var v;
    rc, v, left := ReadBytes(k, node, 1, timeout);
    if rc != SUCCESS {
      return;
    }
    ghost var mid, acts, budget := k.table, k.acts, left;
    assert Unread(old(k.table), node.fd)[1..] == Unread(mid, node.fd);
    if v[0] == 0 {
      return;
    }
    var s;
    rc, s, left := ReadString(k, node, rcBefore, left);
    ReadsMore(old(k.table), mid, k.table, old(k.acts), acts, k.acts, old(node.fd), timeout, budget, left, rc);
    if rc != SUCCESS {
      DroppedAnywayAfterRead(old(k.table), mid, old(node.fd));
      return;
    }
    o := Some(s);
    ReadsCompose(old(k.table), mid, k.table, node.fd);
  }

  /** A list after the given values were put in front of it, one at a time. */
  ghost function Onto<T>(xs: seq<T>, list: seq<T>): seq<T> {
    Reverse(xs) + list
  }

  lemma OntoNothing<T>(list: seq<T>)
    ensures Onto([], list) == list
  {
  }

  lemma OntoSnoc<T>(xs: seq<T>, x: T, list: seq<T>)
    ensures Onto(xs + [x], list) == [x] + Onto(xs, list)
  {
  }

  /** READ_STRING_LIST: each string read is put in front of the list. */
  method ReadStringList(k: Kernel, node: Node, list: ValueLists.ValueList, timeout: int)
    returns (rc: int, left: int, ghost strings: seq<Bytes>)
    requires k.Valid() && IsInt(timeout) && list.Valid()
    modifies k`now, k`idle, k`calls, k`acts, k`table, k`closings, node`fd, list
    ensures k.Valid() && IsInt(left) && list.Valid()
    ensures Reads(old(k.table), k.table, old(k.acts), k.acts, old(node.fd), timeout, rc, left)
    ensures rc != SUCCESS ==> node.fd == -1 && k.table == old(k.table) - {old(node.fd)}
    ensures rc == SUCCESS ==>
              && node.fd == old(node.fd)
              && Decoded(old(k.table), k.table, node.fd, GetTexts(Unread(old(k.table), node.fd)), strings)
              && list.Contents() == Onto(strings, old(list.Contents()))
  {
    hide Consistent, Explains, Reads, OnlyStreams, OnlyRead, ValueLists.ValueList.Valid, GetString, GetAll, GetUint, Onto;
    strings := [];
    var count;
    rc, count, left := ReadUint32(k, node, timeout);
    if rc != SUCCESS {
      return;
    }
    ghost var start := Unread(k.table, node.fd);
    NothingRead(GetString, start);
    OntoNothing(list.Contents());
    var i := 0;
    while i < count
      invariant 0 <= i <= count && rc == SUCCESS && node.fd == old(node.fd) && IsInt(left)
      invariant k.Valid() && list.Valid()
      invariant OnlyRead(old(k.table), k.table, node.fd)
      invariant Reads(old(k.table), k.table, old(k.acts), k.acts, node.fd, timeout, rc, left)
      invariant GetAll(GetString, i, start) == Got(strings, Unread(k.table, node.fd))
      invariant list.Contents() == Onto(strings, old(list.Contents()))
    {
      ghost var mid, acts, budget := k.table, k.acts, left;
      var s;
      rc, s, left := ReadString(k, node, rc, left);
      ReadsMore(old(k.table), mid, k.table, old(k.acts), acts, k.acts, old(node.fd), timeout, budget, left, rc);
      if rc != SUCCESS {
        DroppedAnywayAfterRead(old(k.table), mid, old(node.fd));
        return;
      }
      ReadsCompose(old(k.table), mid, k.table, node.fd);
      AllSnoc(GetString, i, start);
      list.Prepend(s);
      OntoSnoc(strings, s, old(list.Contents()));
      strings := strings + [s];
      i := i + 1;
    }
  }

  /** READ_STRING_STRING_LIST: each pair read is put in front of the list. */
  method ReadPairList(k: Kernel, node: Node, list: KeyValueLists.KeyValueList, timeout: int)
    returns (rc: int, left: int, ghost pairs: seq<(Bytes, Bytes)>)
    requires k.Valid() && IsInt(timeout) && list.Valid()
    modifies k`now, k`idle, k`calls, k`acts, k`table, k`closings, node`fd, list
    ensures k.Valid() && IsInt(left) && list.Valid()
    ensures Reads(old(k.table), k.table, old(k.acts), k.acts, old(node.fd), timeout, rc, left)
    ensures rc != SUCCESS ==> node.fd == -1 && k.table == old(k.table) - {old(node.fd)}
    ensures rc == SUCCESS ==>
              && node.fd == old(node.fd)
              && Decoded(old(k.table), k.table, node.fd, GetPairs(Unread(old(k.table), node.fd)), pairs)
              && list.Contents() == Onto(pairs, old(list.Contents()))
  {
    hide Consistent, Explains, Reads, OnlyStreams, OnlyRead, KeyValueLists.KeyValueList.Valid, GetString, GetAll, GetUint, Onto;
    pairs := [];
    var count;
    rc, count, left := ReadUint32(k, node, timeout);
    if rc != SUCCESS {
      return;
    }
    ghost var start := Unread(k.table, node.fd);
    NothingRead(GetPair, start);
    OntoNothing(list.Contents());
    var i := 0;
    while i < count
      invariant 0 <= i <= count && rc == SUCCESS && node.fd == old(node.fd) && IsInt(left)
      invariant k.Valid() && list.Valid()
      invariant OnlyRead(old(k.table), k.table, node.fd)
      invariant Reads(old(k.table), k.table, old(k.acts), k.acts, node.fd, timeout, rc, left)
      invariant GetAll(GetPair, i, start) == Got(pairs, Unread(k.table, node.fd))
      invariant list.Contents() == Onto(pairs, old(list.Contents()))
    {
      ghost var mid, acts, budget := k.table, k.acts, left;
      var s0, s1;
      rc, s0, left := ReadString(k, node, rc, left);
      ReadsMore(old(k.table), mid, k.table, old(k.acts), acts, k.acts, old(node.fd), timeout, budget, left, rc);
      if rc != SUCCESS {
        DroppedAnywayAfterRead(old(k.table), mid, old(node.fd));
        return;
      }
      ReadsCompose(old(k.table), mid, k.table, node.fd);
      ghost var half, acts', budget' := k.table, k.acts, left;
      rc, s1, left := ReadString(k, node, rc, left);
      ReadsMore(old(k.table), half, k.table, old(k.acts), acts', k.acts, old(node.fd), timeout, budget', left, rc);
      if rc != SUCCESS {
        DroppedAnywayAfterRead(old(k.table), half, old(node.fd));
        return;
      }
      ReadsCompose(old(k.table), half, k.table, node.fd);
      AllSnoc(GetPair, i, start);
      list.Prepend(s0, s1);
      OntoSnoc(pairs, (s0, s1), old(list.Contents()));
      pairs := pairs + [(s0, s1)];
      i := i + 1;
    }
  }
}
