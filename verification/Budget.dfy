/** One budget over many acts: what a series of transfers takes, and when the budget that a
    run of transfers and connects shares stays finite. */
module Budget {
  import opened Wire
  import opened Time
  import opened Acts
  import opened Kernels
  import opened Transfer

  /** An act's share of a chain of calls that pass one budget along. */
  function ShareOf(a: Act): Call {
    Call(if a.entry.Some? then a.entry.value else 0, a.charge)
  }

  function Shares(acts: seq<Act>): (calls: seq<Call>)
    ensures |calls| == |acts|
    ensures forall i :: 0 <= i < |acts| ==> calls[i] == ShareOf(acts[i])
  {
    seq(|acts|, i requires 0 <= i < |acts| => ShareOf(acts[i]))
  }

  /** A measured charge is from the act's first reading of the clock to its last one (zero if
      a connect took no second reading). */
  lemma MeasuredByReadings(a: Act)
    requires Lawful(a) && a.charge.Measured?
    ensures a.entry.Some? && a.calls != [] && a.calls[0].Clocked? && a.calls[0].errno == 0
    ensures a.charge == Measured(a.calls[0].t, LastReading(a.calls[1..]))
  {
    hide Careful;
    if a.Transferred? && a.rc != SUCCESS {
      var rest := a.calls[1..];
      assert rest[|rest| - 1] == Clocked(0, a.charge.end);
    }
  }

  /** A success with a budget starts and ends with a reading, and is charged for the time
      between the two. */
  lemma SuccessIsMeasured(a: Act)
    requires Lawful(a) && a.Transferred? && a.rc == SUCCESS && WithTimeout(a.entry)
    ensures a.entry.value > 0 && |a.calls| >= 2
    ensures a.calls[0].Clocked? && a.calls[|a.calls| - 1].Clocked?
    ensures a.charge == Measured(a.calls[0].t, a.calls[|a.calls| - 1].t)
  {
    hide Careful;
    assert a.calls[1..][|a.calls| - 2] == a.calls[|a.calls| - 1];
  }

  // ----- finite budgets -------------------------------------------------------

  /** By its own first and last readings the act took exactly one more than its budget, up to
      32 bits. */
  predicate OverdrawnAct(a: Act) {
    && a.charge.Measured? && a.entry.Some?
    && a.calls != [] && a.calls[0].Clocked?
    && (TimeDelta(a.calls[0].t, LastReading(a.calls[1..])) - (a.entry.value + 1)) % WORD_LIMIT == 0
  }

  lemma ChainedShares(entry: int, acts: seq<Act>)
    requires Chained(entry, acts) && IsInt(entry)
    ensures Passed(Shares(acts))
    ensures acts != [] ==> acts[0].entry == Some(entry)
    ensures forall i :: 0 <= i < |acts| ==>
              && acts[i].entry.Some? && IsInt(acts[i].entry.value)
              && LeftOf(acts[i]) == Left(Shares(acts)[i])
  {
    hide Charged;
    forall i | 0 <= i < |acts|
      ensures acts[i].entry.Some? && IsInt(acts[i].entry.value) && LeftOf(acts[i]) == Left(Shares(acts)[i])
      ensures i > 0 ==> acts[i].entry.value == LeftOf(acts[i - 1])
    {
      EntryIsInt(entry, acts, i);
      if i > 0 {
        EntryIsInt(entry, acts, i - 1);
        assert acts[..i][i - 1] == acts[i - 1];
      }
    }
    assert acts[..0] == [];
  }

  lemma {:induction false} EntryIsInt(entry: int, acts: seq<Act>, i: nat)
    requires Chained(entry, acts) && IsInt(entry) && i < |acts|
    ensures acts[i].entry == Some(LeftAfter(entry, acts[..i])) && IsInt(acts[i].entry.value)
    decreases i
  {
    hide Charged;
    if i > 0 {
      EntryIsInt(entry, acts, i - 1);
      assert acts[..i][i - 1] == acts[i - 1];
      ChargedIsInt(acts[i - 1].entry.value);
    } else {
      assert acts[..0] == [];
    }
  }

  /** Along any recorded run of transfers and connects that share a finite budget, successful
      or not, it stays finite if and only if no act that still had a finite budget measured,
      from its first reading to its last, exactly that budget plus one. */
  lemma BudgetStaysFinite(entry: int, acts: seq<Act>)
    requires acts != [] && Chained(entry, acts) && IsInt(entry) && entry != INFINITE
    requires forall a :: a in acts ==> Lawful(a)
    ensures (forall i :: 0 <= i < |acts| ==> LeftOf(acts[i]) != INFINITE)
       <==> (forall i :: 0 <= i < |acts| && acts[i].entry != Some(INFINITE) ==> !OverdrawnAct(acts[i]))
  {
    hide Lawful, Charged, TimeDelta, LastReading;
    ChainedShares(entry, acts);
    var calls := Shares(acts);
    FiniteUnlessOverdrawn(calls);
    forall i | 0 <= i < |acts| ensures Overdrawn(calls[i]) <==> OverdrawnAct(acts[i]) {
      if acts[i].charge.Measured? {
        MeasuredByReadings(acts[i]);
      }
    }
  }

  // ----- budgets that rise ----------------------------------------------------

  /** By its own first and last readings the act went on for more than 2^31 ms past its budget,
      up to 32 bits. */
  predicate OverranAct(a: Act) {
    && a.charge.Measured? && a.entry.Some?
    && a.calls != [] && a.calls[0].Clocked?
    && TimeDelta(a.calls[0].t, LastReading(a.calls[1..])) % WORD_LIMIT > a.entry.value + HALF_WORD_LIMIT
  }

  /** All of a budget is only ever taken when there was some. */
  lemma ExhaustedWasFinite(a: Act)
    requires Lawful(a) && a.charge.Exhausted?
    ensures a.entry.Some? && a.entry.value > 0
  {
    hide Careful;
  }

  /** Along any recorded run of transfers and connects that share a budget, no act leaves more
      than it got if and only if none went on, by its own first and last readings, for more
      than 2^31 ms past its budget, up to 32 bits. */
  lemma BudgetNeverRises(entry: int, acts: seq<Act>)
    requires Chained(entry, acts) && IsInt(entry)
    requires forall a :: a in acts ==> Lawful(a)
    ensures (forall i :: 0 <= i < |acts| ==> acts[i].entry.Some? && LeftOf(acts[i]) <= acts[i].entry.value)
       <==> (forall i :: 0 <= i < |acts| ==> !OverranAct(acts[i]))
  {
    hide Lawful, Charged, TimeDelta, LastReading;
    ChainedShares(entry, acts);
    forall i | 0 <= i < |acts| ensures LeftOf(acts[i]) > acts[i].entry.value <==> OverranAct(acts[i]) {
      RaisesBudget(acts[i].entry.value, acts[i].charge);
      if acts[i].charge.Measured? {
        MeasuredByReadings(acts[i]);
      } else if acts[i].charge.Exhausted? {
        ExhaustedWasFinite(acts[i]);
      }
    }
  }

  // ----- series of transfers --------------------------------------------------

  /** The time from an act's first reading to its last call, when that is a reading. */
  function Span(a: Act): int {
    if a.calls != [] && a.calls[0].Clocked? && a.calls[|a.calls| - 1].Clocked? then
      a.calls[|a.calls| - 1].t.Ns() - a.calls[0].t.Ns()
    else 0
  }

  function TotalSpan(acts: seq<Act>): int {
    if acts == [] then 0 else TotalSpan(acts[..|acts| - 1]) + Span(acts[|acts| - 1])
  }

  /** The subtraction an act makes on the budget fits an int: it did not go on for more than
      2^31 ms past the budget. */
  predicate Bounded(a: Act) {
    a.entry.Some? && (a.charge.Measured? ==> IsInt(a.entry.value - TimeDelta(a.charge.start, a.charge.end)))
  }

  /** What the bound on a series needs of each transfer in it. */
  ghost predicate Timely(a: Act) {
    && Lawful(a) && a.Transferred? && a.rc == SUCCESS && a.entry.Some? && a.entry.value != INFINITE
    && Bounded(a) && Completed(ShareOf(a))
  }

  lemma {:induction false} SpansAreSpent(acts: seq<Act>)
    requires forall a :: a in acts ==> Timely(a)
    ensures TotalSpan(acts) == TotalSpent(Shares(acts))
  {
    hide Lawful, Completed, Bounded;
    if acts != [] {
      var n := |acts| - 1;
      SpansAreSpent(acts[..n]);
      assert acts[n] in acts;
      SuccessIsMeasured(acts[n]);
      SpentSnoc(Shares(acts[..n]), ShareOf(acts[n]));
      assert Shares(acts) == Shares(acts[..n]) + [ShareOf(acts[n])];
    }
  }

  lemma {:induction false} SpentSnoc(calls: seq<Call>, c: Call)
    ensures TotalSpent(calls + [c]) == TotalSpent(calls) + Spent(c)
  {
    if calls != [] {
      assert (calls + [c])[1..] == calls[1..] + [c];
      SpentSnoc(calls[1..], c);
    } else {
      assert (calls + [c])[1..] == [];
    }
  }

  /** Successful transfers that pass a budget along, as long as it is finite, never raise it;
      and the time they took, each from its first reading of the clock to its last, is below
      what the budget lost plus one millisecond for each. */
  lemma SeriesStaysInBudget(entry: int, acts: seq<Act>)
    requires acts != [] && Chained(entry, acts) && IsInt(entry)
    requires forall a :: a in acts ==> Timely(a)
    ensures LeftAfter(entry, acts) <= entry
    ensures 0 <= TotalSpan(acts) < (entry - LeftAfter(entry, acts) + |acts|) * NS_PER_MS
  {
    hide Lawful, Charged, TimeDelta, Completed, TotalSpent;
    ChainedShares(entry, acts);
    SpansAreSpent(acts);
    var calls := Shares(acts);
    forall c | c in calls ensures Completed(c) {
      var i :| 0 <= i < |calls| && calls[i] == c;
      assert acts[i] in acts && Timely(acts[i]);
    }
    ChainStaysInBudget(calls);
  }

  /** Transfers every buffer in turn, up to the first failure. */
  method TransferSeries(k: Kernel, action: Action, fd: int, buffers: seq<array<byte>>, timeout: int)
    returns (rc: int, left: int)
    requires IsInt(timeout) && buffers != []
    modifies k`now, k`idle, k`calls, k`acts, k`table, set b | b in buffers
    ensures IsInt(left) && Spends(old(k.acts), k.acts, timeout, left)
    ensures var acts := k.acts[|old(k.acts)|..];
            && acts != [] && k.calls == old(k.calls) + AllCalls(acts) && (forall a :: a in acts ==> Lawful(a))
            && (rc == SUCCESS ==> |acts| == |buffers|)
            && (rc == SUCCESS && (forall a :: a in acts ==> a.entry != Some(INFINITE) && Bounded(a)) ==>
                  && left <= timeout
                  && 0 <= TotalSpan(acts) < (timeout - left + |acts|) * NS_PER_MS
                  && TotalSpan(acts) <= k.now - old(k.now))
  {
    hide Charged, TimeDelta, Lawful, Moved, LeftOf, Spends, Fine;
    left, rc := timeout, SUCCESS;
    ghost var acts: seq<Act> := [];
    SpendsNothing(k.acts, timeout);
    FineAtFirst();
    assert k.calls == old(k.calls) + AllCalls(acts);
    var i := 0;
    while i < |buffers|
      invariant 0 <= i == |acts| <= |buffers| && rc == SUCCESS && IsInt(left) && old(k.now) <= k.now
      invariant k.acts == old(k.acts) + acts && k.calls == old(k.calls) + AllCalls(acts)
      invariant Spends(old(k.acts), k.acts, timeout, left)
      invariant Fine(acts, true, k.now - old(k.now))
    {
      ghost var began, before := k.now, k.acts;
      var l;
      ghost var act;
      rc, l, act := PollAct(k, action, fd, buffers[i], Some(left));
      SpendsOne(before, act);
      SpendsMore(old(k.acts), before, k.acts, timeout, left, l.value);
      FineMore(acts, act, began - old(k.now), began, k.now);
      acts := acts + [act];
      left := l.value;
      if rc != SUCCESS {
        break;
      }
      i := i + 1;
    }
    assert k.acts[|old(k.acts)|..] == acts;
    FineShows(acts, rc == SUCCESS, k.now - old(k.now), old(k.acts), k.acts, timeout, left);
  }

  /** A series so far: lawful acts, of which only the last may have failed, that took no
      longer than the series did. */
  ghost predicate Fine(acts: seq<Act>, succeeded: bool, elapsed: int) {
    && (forall a :: a in acts ==> Lawful(a))
    && (succeeded && (forall a :: a in acts ==> a.entry != Some(INFINITE) && Bounded(a)) ==>
          (forall a :: a in acts ==> Timely(a)) && TotalSpan(acts) <= elapsed)
  }

  lemma FineAtFirst()
    ensures Fine([], true, 0)
  {
  }

  lemma FineMore(acts: seq<Act>, a: Act, elapsed: int, began: int, ended: int)
    requires Fine(acts, true, elapsed) && Lawful(a) && a.Transferred? && a.entry.Some? && IsInt(a.entry.value)
    requires WithinCall(a.charge, began, ended) && began <= ended
    ensures Fine(acts + [a], a.rc == SUCCESS, elapsed + (ended - began))
    ensures AllCalls(acts + [a]) == AllCalls(acts) + a.calls
  {
    hide Lawful, Timely, Bounded, TotalSpan, Span;
    OneMoreAct(acts, a);
    if a.rc == SUCCESS && forall b :: b in acts + [a] ==> b.entry != Some(INFINITE) && Bounded(b) {
      assert a in acts + [a];
      assert forall b :: b in acts ==> b in acts + [a];
      SuccessIsTimely(a, began, ended);
    }
  }

  lemma FineShows(acts: seq<Act>, succeeded: bool, elapsed: int, before: seq<Act>, after: seq<Act>, entry: int, left: int)
    requires Fine(acts, succeeded, elapsed) && acts != [] && IsInt(entry)
    requires Spends(before, after, entry, left) && after[|before|..] == acts
    ensures forall a :: a in acts ==> Lawful(a)
    ensures succeeded && (forall a :: a in acts ==> a.entry != Some(INFINITE) && Bounded(a)) ==>
              && left <= entry
              && 0 <= TotalSpan(acts) < (entry - left + |acts|) * NS_PER_MS
              && TotalSpan(acts) <= elapsed
  {
    hide Lawful, Timely, Bounded, TotalSpan, Chained;
    if succeeded && (forall a :: a in acts ==> a.entry != Some(INFINITE) && Bounded(a)) {
      SeriesStaysInBudget(entry, acts);
    }
  }

  lemma OneMoreAct(acts: seq<Act>, a: Act)
    ensures AllCalls(acts + [a]) == AllCalls(acts) + a.calls
    ensures TotalSpan(acts + [a]) == TotalSpan(acts) + Span(a)
  {
    assert (acts + [a])[..|acts|] == acts;
  }

  lemma SuccessIsTimely(a: Act, began: int, ended: int)
    requires Lawful(a) && a.Transferred? && a.rc == SUCCESS && WithTimeout(a.entry) && Bounded(a)
    requires IsInt(a.entry.value) && WithinCall(a.charge, began, ended)
    ensures Timely(a) && Span(a) <= ended - began
  {
    hide Lawful, TimeDelta;
    SuccessIsMeasured(a);
  }
}
