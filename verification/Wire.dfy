/** Bytes, 32-bit words and length-prefixed strings: the primitive encodings of
    the Arakoon protocol, as the client's WRITE_* and READ_* macros lay them out
    on a little-endian host. */
module Wire {

  datatype Option<+T> = None | Some(value: T)

  /** What a decoder makes of a byte string: a value and the bytes after it, or nothing
      because the input is too short or not of the expected form. */
  datatype Parsed<+T> = NoParse | Got(value: T, rest: Bytes)

  type byte = x: int | 0 <= x < 0x100
  type Bytes = seq<byte>

  const WORD_LIMIT: int := 0x1_0000_0000
  const HALF_WORD_LIMIT: int := 0x8000_0000

  // ----- 32-bit words ---------------------------------------------------------

  /** The four bytes stored by `*((uint32_t *) a) = n` (and by the int32_t variant):
      the low 32 bits of n, least significant byte first. */
  function PutWord(n: int): (b: Bytes)
    ensures |b| == 4
  {
    var w := n % WORD_LIMIT;
    [w % 0x100, w / 0x100 % 0x100, w / 0x1_0000 % 0x100, w / 0x100_0000]
  }

  /** The uint32_t held by the first four bytes. */
  function GetWord(b: Bytes): (n: nat)
    requires |b| >= 4
    ensures n < WORD_LIMIT
  {
    var b0: int, b1: int, b2: int, b3: int := b[0], b[1], b[2], b[3];
    b0 + 0x100 * b1 + 0x1_0000 * b2 + 0x100_0000 * b3
  }

  /** The int32_t with the same bits as the uint32_t w. */
  function Signed(w: int): (i: int)
    requires 0 <= w < WORD_LIMIT
    ensures -HALF_WORD_LIMIT <= i < HALF_WORD_LIMIT
    ensures i % WORD_LIMIT == w
  {
    if w < HALF_WORD_LIMIT then w else w - WORD_LIMIT
  }

  predicate FitsWord(n: int) {
    0 <= n < WORD_LIMIT
  }

  predicate FitsSigned(i: int) {
    -HALF_WORD_LIMIT <= i < HALF_WORD_LIMIT
  }

  /** Reading back a stored word loses exactly the bits above the 32nd. */
  lemma WordRoundTrip(n: int, rest: Bytes)
    ensures GetWord(PutWord(n) + rest) == n % WORD_LIMIT
    ensures (PutWord(n) + rest)[4..] == rest
  {
    var w := n % WORD_LIMIT;
    var b := PutWord(n);
    assert (b + rest)[..4] == b;
    assert w == w % 0x100 + 0x100 * (w / 0x100);
    assert w / 0x100 == w / 0x100 % 0x100 + 0x100 * (w / 0x1_0000);
    assert w / 0x1_0000 == w / 0x1_0000 % 0x100 + 0x100 * (w / 0x100_0000);
  }

  lemma SignedRoundTrip(i: int)
    ensures Signed(i % WORD_LIMIT) == i <==> FitsSigned(i)
  {
  }

  // ----- booleans, strings, optional strings ----------------------------------

  function PutBool(b: bool): (r: Bytes)
    ensures |r| == 1
  {
    [if b then 1 else 0]
  }

  function PutString(s: Bytes): (r: Bytes)
    ensures |r| == 4 + |s|
  {
    PutWord(|s|) + s
  }

  function PutOption(o: Option<Bytes>): (r: Bytes)
    ensures |r| == 1 + if o.None? then 0 else 4 + |o.value|
  {
    match o
    case None => PutBool(false)
    case Some(s) => PutBool(true) + PutString(s)
  }

  function GetUint(s: Bytes): (p: Parsed<int>)
    ensures p.Got? ==> FitsWord(p.value) && |s| == 4 + |p.rest|
  {
    if |s| < 4 then NoParse else Got(GetWord(s), s[4..])
  }

  /** Any byte other than zero reads as true. */
  function GetBool(s: Bytes): (p: Parsed<bool>)
    ensures p.Got? ==> |s| == 1 + |p.rest|
  {
    if |s| < 1 then NoParse else Got(s[0] != 0, s[1..])
  }

  function GetString(s: Bytes): (p: Parsed<Bytes>)
    ensures p.Got? ==> |s| == 4 + |p.value| + |p.rest| && FitsWord(|p.value|)
  {
    if |s| < 4 then NoParse
    else
      var l := GetWord(s);
      if |s| < 4 + l then NoParse else Got(s[4..4 + l], s[4 + l..])
  }

  function GetOption(s: Bytes): (p: Parsed<Option<Bytes>>)
    ensures p.Got? ==> |p.rest| < |s|
  {
    if |s| < 1 then NoParse
    else if s[0] == 0 then Got(None, s[1..])
    else
      match GetString(s[1..])
      case NoParse => NoParse
      case Got(v, rest) => Got(Some(v), rest)
  }

  predicate StringFits(s: Bytes) {
    FitsWord(|s|)
  }

  predicate OptionFits(o: Option<Bytes>) {
    o.Some? ==> StringFits(o.value)
  }

  lemma UintRoundTrip(n: int, rest: Bytes)
    requires FitsWord(n)
    ensures GetUint(PutWord(n) + rest) == Got(n, rest)
  {
    WordRoundTrip(n, rest);
  }

  lemma BoolRoundTrip(b: bool, rest: Bytes)
    ensures GetBool(PutBool(b) + rest) == Got(b, rest)
  {
  }

  lemma StringRoundTrip(s: Bytes, rest: Bytes)
    requires StringFits(s)
    ensures GetString(PutString(s) + rest) == Got(s, rest)
  {
    var all := PutString(s) + rest;
    assert all == PutWord(|s|) + (s + rest);
    WordRoundTrip(|s|, s + rest);
    assert all[4..4 + |s|] == s;
    assert all[4 + |s|..] == rest;
  }

  lemma OptionRoundTrip(o: Option<Bytes>, rest: Bytes)
    requires OptionFits(o)
    ensures GetOption(PutOption(o) + rest) == Got(o, rest)
  {
    var all := PutOption(o) + rest;
    if o.Some? {
      assert all[1..] == PutString(o.value) + rest;
      StringRoundTrip(o.value, rest);
    } else {
      assert all[1..] == rest;
    }
  }

  // ----- a successful decode does not depend on what follows ------------------

  lemma WordExtends(s: Bytes, more: Bytes)
    requires |s| >= 4
    ensures GetWord(s + more) == GetWord(s)
    ensures (s + more)[4..] == s[4..] + more
  {
  }

  lemma StringExtends(s: Bytes, more: Bytes)
    requires GetString(s).Got?
    ensures GetString(s + more) == Got(GetString(s).value, GetString(s).rest + more)
  {
    WordExtends(s, more);
    var l := GetWord(s);
    assert (s + more)[4..4 + l] == s[4..4 + l];
    assert (s + more)[4 + l..] == s[4 + l..] + more;
  }

  lemma OptionExtends(s: Bytes, more: Bytes)
    requires GetOption(s).Got?
    ensures GetOption(s + more) == Got(GetOption(s).value, GetOption(s).rest + more)
  {
    assert (s + more)[1..] == s[1..] + more;
    if s[0] != 0 {
      StringExtends(s[1..], more);
    }
  }

  // ----- sequences ------------------------------------------------------------

  function Reverse<T>(s: seq<T>): (r: seq<T>)
    ensures |r| == |s|
    ensures forall i :: 0 <= i < |s| ==> r[i] == s[|s| - 1 - i]
  {
    if s == [] then [] else Reverse(s[1..]) + [s[0]]
  }

  /** Prepending each element in turn is what reverses a list. */
  lemma ReverseSnoc<T>(s: seq<T>, x: T)
    ensures Reverse(s + [x]) == [x] + Reverse(s)
  {
  }

  lemma SuffixSplits<T>(a: seq<T>, b: seq<T>, c: seq<T>)
    requires a <= b <= c
    ensures c[|a|..] == b[|a|..] + c[|b|..]
  {
  }

  lemma PrefixesSame<T>(xs: seq<T>, x: T)
    ensures forall j :: 0 <= j <= |xs| ==> (xs + [x])[..j] == xs[..j]
    ensures xs[..|xs|] == xs
  {
  }

  lemma StillPrefix<T>(a: seq<T>, b: seq<T>, c: seq<T>)
    requires a <= b <= c
    ensures a <= c
  {
  }

  lemma Reassociate<T>(a: seq<T>, b: seq<T>, c: seq<T>)
    ensures a + b + c == a + (b + c)
  {
  }

  lemma Regroup(a: Bytes, b: Bytes, c: Bytes, d: Bytes)
    ensures a + (b + (c + d)) == (a + (b + c)) + d
  {
  }
}
