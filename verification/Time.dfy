/** Elapsed-time arithmetic and the millisecond budget that calls share through `*timeout`. */
module Time {
  import opened Wire

  const NS_PER_MS := 1_000_000
  const MS_PER_S := 1000
  const NS_PER_S := 1_000_000_000

  /** ARAKOON_CLIENT_CALL_OPTIONS_INFINITE_TIMEOUT */
  const INFINITE := -1

  datatype Timespec = Timespec(sec: int, nsec: int) {
    predicate Valid() {
      0 <= nsec < NS_PER_S
    }

    function Ns(): int {
      sec * NS_PER_S + nsec
    }
  }

  /** C's integer division: toward zero. */
  function TruncDiv(a: int, b: int): int
    requires b > 0
  {
    if a >= 0 then a / b else -(-a / b)
  }

  /** `time_delta`, in milliseconds. When the seconds differ a borrowed second is added to
      the nanoseconds and never taken off the seconds. */
  function TimeDelta(start: Timespec, end: Timespec): int {
    if start.sec == end.sec then TruncDiv(end.nsec - start.nsec, NS_PER_MS)
    else
      var nd := NS_PER_S - start.nsec + end.nsec;
      TruncDiv(nd, NS_PER_MS) + (end.sec - start.sec) * MS_PER_S
  }

  /** The elapsed whole milliseconds. */
  function ElapsedMs(start: Timespec, end: Timespec): int {
    (end.Ns() - start.Ns()) / NS_PER_MS
  }

  /** `time_delta` is the elapsed time when the seconds agree and 1000 ms more otherwise. */
  lemma TimeDeltaExact(start: Timespec, end: Timespec)
    requires start.Valid() && end.Valid() && start.Ns() <= end.Ns()
    ensures start.sec <= end.sec
    ensures TimeDelta(start, end) == ElapsedMs(start, end) + if start.sec == end.sec then 0 else 1000
  {
  }

  /** Never negative, never below the true elapsed time, never more than 1000 ms above it. */
  lemma TimeDeltaBounds(start: Timespec, end: Timespec)
    requires start.Valid() && end.Valid() && start.Ns() <= end.Ns()
    ensures 0 <= ElapsedMs(start, end) <= TimeDelta(start, end) <= ElapsedMs(start, end) + 1000
    ensures end.Ns() - start.Ns() < (TimeDelta(start, end) + 1) * NS_PER_MS
  {
  }

  lemma TimeDeltaMonotone(start: Timespec, mid: Timespec, end: Timespec)
    requires start.Valid() && mid.Valid() && end.Valid()
    requires start.Ns() <= mid.Ns() <= end.Ns()
    ensures TimeDelta(start, mid) <= TimeDelta(start, end)
  {
  }

  // ----- int arithmetic -------------------------------------------------------

  predicate IsInt(x: int) {
    FitsSigned(x)
  }

  /** Assigning a long to an int keeps the low 32 bits. */
  function Narrow(x: int): (i: int)
    ensures IsInt(i)
  {
    Signed(x % WORD_LIMIT)
  }

  // ----- budgets --------------------------------------------------------------

  /** What one call does to the budget it was given: nothing, take all of it, or take off
      the time it measured between two clock readings. */
  datatype Charge = Free | Exhausted | Measured(start: Timespec, end: Timespec)

  function Charged(entry: int, charge: Charge): int {
    match charge
    case Free => entry
    case Exhausted => 0
    case Measured(start, end) => Narrow(entry - TimeDelta(start, end))
  }

  /** A finite budget turns infinite exactly when the measured time is one more than the
      budget (up to the 32 bits that are kept). */
  lemma TurnsInfinite(entry: int, charge: Charge)
    requires IsInt(entry) && entry != INFINITE
    ensures Charged(entry, charge) == INFINITE
       <==> charge.Measured? && (TimeDelta(charge.start, charge.end) - (entry + 1)) % WORD_LIMIT == 0
  {
  }

  /** A charge raises a budget exactly when it takes all of a negative one, or when the measured
      time, up to 32 bits, is more than 2^31 past the budget. */
  lemma RaisesBudget(entry: int, charge: Charge)
    requires IsInt(entry)
    ensures Charged(entry, charge) > entry
       <==> || (charge.Exhausted? && entry < 0)
            || (charge.Measured? && TimeDelta(charge.start, charge.end) % WORD_LIMIT > entry + HALF_WORD_LIMIT)
  {
  }

  /** One real millisecond across a second boundary, charged against a budget of 1000 ms,
      already does it. */
  lemma OneMillisecondCanTurnInfinite()
    ensures exists start: Timespec, end: Timespec ::
              && start.Valid() && end.Valid() && ElapsedMs(start, end) == 1
              && Charged(1000, Measured(start, end)) == INFINITE
  {
    var start, end := Timespec(0, 999_000_000), Timespec(1, 0);
    assert ElapsedMs(start, end) == 1;
    assert TimeDelta(start, end) == 1001;
    assert Charged(1000, Measured(start, end)) == INFINITE;
  }

  /** A call's share of a chain of calls that pass one budget along. */
  datatype Call = Call(entry: int, charge: Charge)

  function Left(c: Call): int {
    Charged(c.entry, c.charge)
  }

  ghost predicate Passed(calls: seq<Call>) {
    && (forall i :: 0 <= i < |calls| ==> IsInt(calls[i].entry))
    && (forall i :: 0 < i < |calls| ==> calls[i].entry == Left(calls[i - 1]))
  }

  /** One more than the budget, up to 32 bits. */
  predicate Overdrawn(c: Call) {
    c.charge.Measured? && (TimeDelta(c.charge.start, c.charge.end) - (c.entry + 1)) % WORD_LIMIT == 0
  }

  /** Along a chain that starts finite, the budget becomes infinite if and only if some call
      that still had a finite budget measured exactly that budget plus one. */
  lemma {:induction false} FiniteUnlessOverdrawn(calls: seq<Call>)
    requires |calls| > 0 && Passed(calls) && calls[0].entry != INFINITE
    ensures (forall i :: 0 <= i < |calls| ==> Left(calls[i]) != INFINITE)
       <==> (forall i :: 0 <= i < |calls| && calls[i].entry != INFINITE ==> !Overdrawn(calls[i]))
  {
    forall i | 0 <= i < |calls| && calls[i].entry != INFINITE
      ensures Left(calls[i]) == INFINITE <==> Overdrawn(calls[i])
    {
      TurnsInfinite(calls[i].entry, calls[i].charge);
    }
    if forall i :: 0 <= i < |calls| && calls[i].entry != INFINITE ==> !Overdrawn(calls[i]) {
      var n := 0;
      while n < |calls|
        invariant 0 <= n <= |calls|
        invariant forall i :: 0 <= i < n ==> Left(calls[i]) != INFINITE
      {
        assert n > 0 ==> calls[n].entry == Left(calls[n - 1]);
        assert Left(calls[n]) == INFINITE <==> Overdrawn(calls[n]);
        n := n + 1;
      }
    } else {
      var i :| 0 <= i < |calls| && calls[i].entry != INFINITE && Overdrawn(calls[i]);
      assert Left(calls[i]) == INFINITE;
    }
  }

  /** The time between the two readings of a measuring call. */
  function Spent(c: Call): int {
    if c.charge.Measured? then c.charge.end.Ns() - c.charge.start.Ns() else 0
  }

  function TotalSpent(calls: seq<Call>): int {
    if calls == [] then 0 else Spent(calls[0]) + TotalSpent(calls[1..])
  }

  /** A timed call as the transfer loop completes it: it had time left on entry, its clock
      did not run backwards, and the result of the subtraction fits an int. */
  ghost predicate Completed(c: Call) {
    && 0 < c.entry && IsInt(c.entry)
    && c.charge.Measured?
    && c.charge.start.Valid() && c.charge.end.Valid()
    && c.charge.start.Ns() <= c.charge.end.Ns()
    && IsInt(c.entry - TimeDelta(c.charge.start, c.charge.end))
  }

  lemma CompletedNeverRaises(c: Call)
    requires Completed(c)
    ensures Left(c) == c.entry - TimeDelta(c.charge.start, c.charge.end)
    ensures Left(c) <= c.entry
    ensures 0 <= Spent(c) < (c.entry - Left(c) + 1) * NS_PER_MS
  {
  }

  /** n completed calls sharing a budget never raise it, and together they took less than
      what the budget lost plus one millisecond for each call. */
  lemma {:induction false} ChainStaysInBudget(calls: seq<Call>)
    requires |calls| > 0 && Passed(calls)
    requires forall c :: c in calls ==> Completed(c)
    ensures Left(calls[|calls| - 1]) <= calls[0].entry
    ensures 0 <= TotalSpent(calls)
    ensures TotalSpent(calls) < (calls[0].entry - Left(calls[|calls| - 1]) + |calls|) * NS_PER_MS
  {
    CompletedNeverRaises(calls[0]);
    var rest := calls[1..];
    if rest == [] {
      assert TotalSpent(calls) == Spent(calls[0]) + TotalSpent(rest);
    } else {
      forall i | 0 < i < |rest| ensures rest[i].entry == Left(rest[i - 1]) {
        assert rest[i] == calls[i + 1] && rest[i - 1] == calls[i];
      }
      ChainStaysInBudget(rest);
      assert rest[0] == calls[1] && rest[|rest| - 1] == calls[|calls| - 1];
    }
  }
}
