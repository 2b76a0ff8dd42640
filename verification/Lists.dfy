/** Wire lists: a run of elements written one after the other by one codec. The laws of
    an element codec (it reads back what it wrote, and it never looks past its own bytes)
    carry over to lists of any length. */
module WireLists {
  import opened Wire

  ghost predicate ReadsBack<T(!new)>(put: T -> Bytes, get: Bytes -> Parsed<T>, fits: T -> bool) {
    forall x, rest :: fits(x) ==> get(put(x) + rest) == Got(x, rest)
  }

  ghost predicate Extends<T(!new)>(get: Bytes -> Parsed<T>) {
    forall s, more {:trigger get(s + more)} ::
      get(s).Got? ==> get(s + more) == Got(get(s).value, get(s).rest + more)
  }

  function PutAll<T>(put: T -> Bytes, xs: seq<T>): Bytes {
    if xs == [] then [] else put(xs[0]) + PutAll(put, xs[1..])
  }

  function GetAll<T>(get: Bytes -> Parsed<T>, n: nat, s: Bytes): (p: Parsed<seq<T>>)
    ensures p.Got? ==> |p.value| == n
  {
    if n == 0 then Got([], s)
    else
      match get(s)
      case NoParse => NoParse
      case Got(x, rest) =>
        match GetAll(get, n - 1, rest)
        case NoParse => NoParse
        case Got(xs, end) => Got([x] + xs, end)
  }

  lemma NothingRead<T>(get: Bytes -> Parsed<T>, s: Bytes)
    ensures GetAll(get, 0, s) == Got([], s)
  {
  }

  lemma {:induction false} AllReadBack<T(!new)>(put: T -> Bytes, get: Bytes -> Parsed<T>, fits: T -> bool,
                                                xs: seq<T>, rest: Bytes)
    requires ReadsBack(put, get, fits)
    requires forall x :: x in xs ==> fits(x)
    ensures GetAll(get, |xs|, PutAll(put, xs) + rest) == Got(xs, rest)
  {
    if xs == [] {
      assert PutAll(put, xs) + rest == rest;
    } else {
      var tail := PutAll(put, xs[1..]) + rest;
      assert PutAll(put, xs) + rest == put(xs[0]) + tail;
      assert get(put(xs[0]) + tail) == Got(xs[0], tail);
      AllReadBack(put, get, fits, xs[1..], rest);
      assert [xs[0]] + xs[1..] == xs;
    }
  }

  lemma {:induction false} AllExtend<T(!new)>(get: Bytes -> Parsed<T>, n: nat, s: Bytes, more: Bytes)
    requires Extends(get)
    requires GetAll(get, n, s).Got?
    ensures GetAll(get, n, s + more) == Got(GetAll(get, n, s).value, GetAll(get, n, s).rest + more)
  {
    if n != 0 {
      assert get(s + more) == Got(get(s).value, get(s).rest + more);
      AllExtend(get, n - 1, get(s).rest, more);
    }
  }

  /** Reading one more element where a list ended makes the list one longer. */
  lemma {:induction false} AllSnoc<T(!new)>(get: Bytes -> Parsed<T>, n: nat, s: Bytes)
    requires GetAll(get, n, s).Got? && get(GetAll(get, n, s).rest).Got?
    ensures var so := GetAll(get, n, s);
            var next := get(so.rest);
            GetAll(get, n + 1, s) == Got(so.value + [next.value], next.rest)
  {
    if n == 0 {
      var next := get(s);
      assert GetAll(get, 0, next.rest) == Got([], next.rest);
      assert [next.value] + [] == [] + [next.value];
    } else {
      var x, rest := get(s).value, get(s).rest;
      AllSnoc(get, n - 1, rest);
      var tail := GetAll(get, n - 1, rest);
      var y := get(tail.rest).value;
      assert [x] + (tail.value + [y]) == ([x] + tail.value) + [y];
    }
  }

  lemma {:induction false} AllShrink<T(!new)>(get: Bytes -> Parsed<T>, n: nat, s: Bytes)
    requires forall t :: get(t).Got? ==> |get(t).rest| <= |t|
    requires GetAll(get, n, s).Got?
    ensures |GetAll(get, n, s).rest| <= |s|
  {
    if n != 0 {
      AllShrink(get, n - 1, get(s).rest);
    }
  }

  lemma {:induction false} PutAllSplits<T>(put: T -> Bytes, xs: seq<T>, ys: seq<T>)
    ensures PutAll(put, xs + ys) == PutAll(put, xs) + PutAll(put, ys)
  {
    if xs == [] {
      assert xs + ys == ys;
    } else {
      assert (xs + ys)[1..] == xs[1..] + ys;
      PutAllSplits(put, xs[1..], ys);
    }
  }

  // ----- lists of strings, lists of pairs -------------------------------------

  function PutStrings(xs: seq<Bytes>): Bytes {
    PutAll(PutString, xs)
  }

  lemma PutStringsSplit(xs: seq<Bytes>, x: Bytes, ys: seq<Bytes>)
    ensures PutStrings(xs + [x]) == PutStrings(xs) + PutString(x)
    ensures PutStrings(xs + [x] + ys) == PutStrings(xs) + PutString(x) + PutStrings(ys)
  {
    PutAllSplits(PutString, xs, [x]);
    PutAllSplits(PutString, xs + [x], ys);
    var one: seq<Bytes> := [x];
    assert one[1..] == [];
    assert PutAll(PutString, one) == PutString(x) + [];
  }

  function PutPair(p: (Bytes, Bytes)): Bytes {
    PutString(p.0) + PutString(p.1)
  }

  function GetPair(s: Bytes): Parsed<(Bytes, Bytes)> {
    match GetString(s)
    case NoParse => NoParse
    case Got(k, rest) =>
      match GetString(rest)
      case NoParse => NoParse
      case Got(v, end) => Got((k, v), end)
  }

  predicate PairFits(p: (Bytes, Bytes)) {
    StringFits(p.0) && StringFits(p.1)
  }

  lemma StringLaws()
    ensures ReadsBack(PutString, GetString, StringFits)
    ensures Extends(GetString)
  {
    forall s, rest | StringFits(s) ensures GetString(PutString(s) + rest) == Got(s, rest) {
      StringRoundTrip(s, rest);
    }
    forall s, more | GetString(s).Got?
      ensures GetString(s + more) == Got(GetString(s).value, GetString(s).rest + more)
    {
      StringExtends(s, more);
    }
  }

  lemma PairLaws()
    ensures ReadsBack(PutPair, GetPair, PairFits)
    ensures Extends(GetPair)
  {
    forall p, rest | PairFits(p) ensures GetPair(PutPair(p) + rest) == Got(p, rest) {
      assert PutPair(p) + rest == PutString(p.0) + (PutString(p.1) + rest);
      StringRoundTrip(p.0, PutString(p.1) + rest);
      StringRoundTrip(p.1, rest);
    }
    forall s, more | GetPair(s).Got?
      ensures GetPair(s + more) == Got(GetPair(s).value, GetPair(s).rest + more)
    {
      StringExtends(s, more);
      StringExtends(GetString(s).rest, more);
    }
  }
}
