/** The nursery's routing table: its wire form, and how a key is routed. */
module Routing {
  import opened Wire
  import opened WireLists
  import opened Layouts

  datatype Tree = Leaf(cluster: Bytes) | Internal(boundary: Bytes, left: Tree, right: Tree)

  datatype NodeSpec = NodeSpec(id: Bytes, ip: Bytes, port: int)
  datatype ClusterSpec = ClusterSpec(id: Bytes, nodes: seq<NodeSpec>)
  datatype Table = Table(tree: Tree, clusters: seq<ClusterSpec>)

  // ----- wire form ------------------------------------------------------------

  function PutTree(t: Tree): Bytes {
    match t
    case Leaf(cluster) => PutBool(true) + PutString(cluster)
    case Internal(boundary, left, right) => PutBool(false) + (PutString(boundary) + (PutTree(left) + PutTree(right)))
  }

  function GetTree(s: Bytes): (p: Parsed<Tree>)
    ensures p.Got? ==> |p.rest| < |s|
    decreases |s|
  {
    match GetBool(s)
    case NoParse => NoParse
    case Got(isLeaf, s1) =>
      match GetString(s1)
      case NoParse => NoParse
      case Got(name, s2) =>
        if isLeaf then Got(Leaf(name), s2)
        else
          match GetTree(s2)
          case NoParse => NoParse
          case Got(left, s3) =>
            match GetTree(s3)
            case NoParse => NoParse
            case Got(right, s4) => Got(Internal(name, left, right), s4)
  }

  function PutNode(n: NodeSpec): Bytes {
    PutString(n.id) + (PutString(n.ip) + PutWord(n.port))
  }

  function GetNode(s: Bytes): Parsed<NodeSpec> {
    match GetString(s)
    case NoParse => NoParse
    case Got(id, s1) =>
      match GetString(s1)
      case NoParse => NoParse
      case Got(ip, s2) =>
        match GetUint(s2)
        case NoParse => NoParse
        case Got(port, s3) => Got(NodeSpec(id, ip, port), s3)
  }

  function PutCluster(c: ClusterSpec): Bytes {
    PutString(c.id) + (PutWord(|c.nodes|) + PutAll(PutNode, c.nodes))
  }

  function GetCluster(s: Bytes): Parsed<ClusterSpec> {
    match GetString(s)
    case NoParse => NoParse
    case Got(id, s1) =>
      match GetUint(s1)
      case NoParse => NoParse
      case Got(n, s2) =>
        match GetAll(GetNode, n, s2)
        case NoParse => NoParse
        case Got(nodes, s3) => Got(ClusterSpec(id, nodes), s3)
  }

  function PutTable(t: Table): Bytes {
    PutTree(t.tree) + (PutWord(|t.clusters|) + PutAll(PutCluster, t.clusters))
  }

  function GetTable(s: Bytes): Parsed<Table> {
    match GetTree(s)
    case NoParse => NoParse
    case Got(tree, s1) =>
      match GetUint(s1)
      case NoParse => NoParse
      case Got(n, s2) =>
        match GetAll(GetCluster, n, s2)
        case NoParse => NoParse
        case Got(clusters, s3) => Got(Table(tree, clusters), s3)
  }

  predicate TreeFits(t: Tree) {
    match t
    case Leaf(cluster) => StringFits(cluster)
    case Internal(boundary, left, right) => StringFits(boundary) && TreeFits(left) && TreeFits(right)
  }

  predicate NodeFits(n: NodeSpec) {
    StringFits(n.id) && StringFits(n.ip) && FitsWord(n.port)
  }

  predicate ClusterFits(c: ClusterSpec) {
    StringFits(c.id) && FitsWord(|c.nodes|) && forall n :: n in c.nodes ==> NodeFits(n)
  }

  predicate TableFits(t: Table) {
    TreeFits(t.tree) && FitsWord(|t.clusters|) && forall c :: c in t.clusters ==> ClusterFits(c)
  }

  lemma {:induction false} TreeRoundTrip(t: Tree, rest: Bytes)
    requires TreeFits(t)
    ensures GetTree(PutTree(t) + rest) == Got(t, rest)
  {
    hide PutBool, PutString, GetBool, GetString;
    match t {
      case Leaf(cluster) =>
        assert PutTree(t) + rest == PutBool(true) + (PutString(cluster) + rest);
        BoolRoundTrip(true, PutString(cluster) + rest);
        StringRoundTrip(cluster, rest);
      case Internal(boundary, left, right) =>
        var after := PutTree(right) + rest;
        RegroupTree(PutBool(false), PutString(boundary), PutTree(left), PutTree(right), rest);
        BoolRoundTrip(false, PutString(boundary) + (PutTree(left) + after));
        StringRoundTrip(boundary, PutTree(left) + after);
        TreeRoundTrip(left, after);
        TreeRoundTrip(right, rest);
    }
  }

  lemma RegroupTree(a: Bytes, b: Bytes, c: Bytes, d: Bytes, e: Bytes)
    ensures (a + (b + (c + d))) + e == a + (b + (c + (d + e)))
  {
  }

  lemma NodeRoundTrip(n: NodeSpec, rest: Bytes)
    requires NodeFits(n)
    ensures GetNode(PutNode(n) + rest) == Got(n, rest)
  {
    hide PutString, GetString, PutWord, GetUint;
    assert PutNode(n) + rest == PutString(n.id) + (PutString(n.ip) + (PutWord(n.port) + rest));
    StringRoundTrip(n.id, PutString(n.ip) + (PutWord(n.port) + rest));
    StringRoundTrip(n.ip, PutWord(n.port) + rest);
    UintRoundTrip(n.port, rest);
  }

  lemma NodesRoundTrip(nodes: seq<NodeSpec>, rest: Bytes)
    requires forall n :: n in nodes ==> NodeFits(n)
    ensures GetAll(GetNode, |nodes|, PutAll(PutNode, nodes) + rest) == Got(nodes, rest)
  {
    hide GetNode, PutNode, NodeFits;
    forall n, after | NodeFits(n) ensures GetNode(PutNode(n) + after) == Got(n, after) {
      NodeRoundTrip(n, after);
    }
    AllReadBack(PutNode, GetNode, NodeFits, nodes, rest);
  }

  lemma ClusterRoundTrip(c: ClusterSpec, rest: Bytes)
    requires ClusterFits(c)
    ensures GetCluster(PutCluster(c) + rest) == Got(c, rest)
  {
    hide PutString, GetString, PutWord, GetUint, PutAll, GetAll;
    var list := PutAll(PutNode, c.nodes);
    assert PutCluster(c) + rest == PutString(c.id) + (PutWord(|c.nodes|) + (list + rest));
    StringRoundTrip(c.id, PutWord(|c.nodes|) + (list + rest));
    UintRoundTrip(|c.nodes|, list + rest);
    NodesRoundTrip(c.nodes, rest);
  }

  lemma ClustersRoundTrip(cs: seq<ClusterSpec>, rest: Bytes)
    requires forall c :: c in cs ==> ClusterFits(c)
    ensures GetAll(GetCluster, |cs|, PutAll(PutCluster, cs) + rest) == Got(cs, rest)
  {
    hide GetCluster, PutCluster, ClusterFits;
    forall c, after | ClusterFits(c) ensures GetCluster(PutCluster(c) + after) == Got(c, after) {
      ClusterRoundTrip(c, after);
    }
    AllReadBack(PutCluster, GetCluster, ClusterFits, cs, rest);
  }

  /** Reading a printed table gives the table back and stops exactly at its end. */
  lemma TableRoundTrip(t: Table, rest: Bytes)
    requires TableFits(t)
    ensures GetTable(PutTable(t) + rest) == Got(t, rest)
  {
    hide PutTree, GetTree, PutWord, GetUint, PutAll, GetAll;
    var list := PutAll(PutCluster, t.clusters);
    assert PutTable(t) + rest == PutTree(t.tree) + (PutWord(|t.clusters|) + (list + rest));
    TreeRoundTrip(t.tree, PutWord(|t.clusters|) + (list + rest));
    UintRoundTrip(|t.clusters|, list + rest);
    ClustersRoundTrip(t.clusters, rest);
  }

  /** The bytes of a routing tree: one byte says leaf or not; then comes the name, or the boundary
      and the two subtrees. */
  lemma TreeBytes(t: Tree)
    ensures t.Leaf? ==> PutTree(t) == [1] + StringLayout(t.cluster)
    ensures t.Internal? ==> PutTree(t) == [0] + StringLayout(t.boundary) + PutTree(t.left) + PutTree(t.right)
  {
    match t {
      case Leaf(cluster) =>
      case Internal(boundary, left, right) =>
        hide PutTree;
        var l, r := PutTree(left), PutTree(right);
        assert PutBool(false) + (PutString(boundary) + (l + r)) == [0] + StringLayout(boundary) + l + r by {
          hide PutWord;
        }
        InternalBytes(boundary, left, right);
    }
  }

  lemma InternalBytes(boundary: Bytes, left: Tree, right: Tree)
    ensures PutTree(Internal(boundary, left, right))
         == PutBool(false) + (PutString(boundary) + (PutTree(left) + PutTree(right)))
  {
    hide PutBool, PutString;
  }

  /** The bytes of the cluster table: counted lists of clusters and of their nodes. */
  lemma ClusterBytes(n: NodeSpec, c: ClusterSpec, table: Table)
    ensures PutNode(n) == StringLayout(n.id) + StringLayout(n.ip) + PutWord(n.port)
    ensures PutCluster(c) == StringLayout(c.id) + PutWord(|c.nodes|) + PutAll(PutNode, c.nodes)
    ensures PutTable(table) == PutTree(table.tree) + PutWord(|table.clusters|) + PutAll(PutCluster, table.clusters)
  {
    hide PutWord, PutAll, PutTree;
  }

  // ----- order on keys --------------------------------------------------------

  /** Lexicographic order on byte strings. */
  predicate Less(a: Bytes, b: Bytes) {
    if b == [] then false
    else if a == [] then true
    else if a[0] != b[0] then a[0] < b[0]
    else Less(a[1..], b[1..])
  }

  /** One is less than another if it is a proper prefix of it, or smaller at the first place
      where they differ. */
  lemma {:induction false} LessByFirstDifference(a: Bytes, b: Bytes)
    ensures Less(a, b) <==>
              exists n :: 0 <= n <= |a| && n < |b| && a[..n] == b[..n] && (n == |a| || a[n] < b[n])
  {
    if a != [] && b != [] && a[0] == b[0] {
      LessByFirstDifference(a[1..], b[1..]);
      if Less(a[1..], b[1..]) {
        var n :| 0 <= n <= |a[1..]| && n < |b[1..]| && a[1..][..n] == b[1..][..n] && (n == |a[1..]| || a[1..][n] < b[1..][n]);
        assert a[..n + 1] == [a[0]] + a[1..][..n] && b[..n + 1] == [b[0]] + b[1..][..n];
      }
      if n :| 0 <= n <= |a| && n < |b| && a[..n] == b[..n] && (n == |a| || a[n] < b[n]) {
        assert n > 0;
        assert a[1..][..n - 1] == a[..n][1..] && b[1..][..n - 1] == b[..n][1..];
        assert Less(a[1..], b[1..]);
      }
    } else if b != [] {
      if Less(a, b) {
        assert a[..0] == b[..0];
      }
      if n :| 0 <= n <= |a| && n < |b| && a[..n] == b[..n] && (n == |a| || a[n] < b[n]) {
        assert n > 0 ==> a[..n][0] == b[..n][0];
      }
    }
  }

  /** memcmp on n bytes stays within both buffers. */
  predicate Comparable(a: Bytes, b: Bytes, n: nat) {
    n == 0 || (a != [] && b != [] && (a[0] != b[0] || Comparable(a[1..], b[1..], n - 1)))
  }

  function MemCmp(a: Bytes, b: Bytes, n: nat): int
    requires Comparable(a, b, n)
  {
    if n == 0 then 0 else if a[0] != b[0] then a[0] - b[0] else MemCmp(a[1..], b[1..], n - 1)
  }

  /** A string in memory, with its terminating NUL. */
  function Terminated(s: Bytes): Bytes {
    s + [0]
  }

  function Cut(b: Bytes, n: nat): Bytes {
    if |b| <= n then b else b[..n]
  }

  /** Comparing a key without NULs never leaves the boundary's buffer, and tells whether the
      key is below the boundary cut to the key's length. */
  lemma {:induction false} TruncatedCompare(key: Bytes, b: Bytes)
    requires 0 !in key
    ensures Comparable(key, Terminated(b), |key|)
    ensures MemCmp(key, Terminated(b), |key|) < 0 <==> Less(key, Cut(b, |key|))
  {
    if key != [] && b != [] && key[0] == b[0] {
      assert Terminated(b)[1..] == Terminated(b[1..]);
      assert Cut(b, |key|)[1..] == Cut(b[1..], |key| - 1);
      TruncatedCompare(key[1..], b[1..]);
    }
  }

  lemma {:induction false} LessThenNotBelow(a: Bytes, b: Bytes, c: Bytes)
    requires Less(a, b) && !Less(c, b)
    ensures Less(a, c)
  {
    if a != [] && b != [] && c != [] && a[0] == b[0] == c[0] {
      LessThenNotBelow(a[1..], b[1..], c[1..]);
    }
  }

  /** Cutting to a common length keeps the order, though not its strictness. */
  lemma {:induction false} CutIsMonotone(a: Bytes, b: Bytes, n: nat)
    requires !Less(b, a)
    ensures !Less(Cut(b, n), Cut(a, n))
  {
    if n > 0 && a != [] && b != [] && a[0] == b[0] {
      assert Cut(a, n)[1..] == Cut(a[1..], n - 1);
      assert Cut(b, n)[1..] == Cut(b[1..], n - 1);
      CutIsMonotone(a[1..], b[1..], n - 1);
    }
  }

  // ----- routing --------------------------------------------------------------

  /** The descent of the tree. */
  function Descend(t: Tree, key: Bytes): Bytes
    requires 0 !in key
  {
    match t
    case Leaf(cluster) => cluster
    case Internal(boundary, left, right) =>
      TruncatedCompare(key, boundary);
      if MemCmp(key, Terminated(boundary), |key|) < 0 then Descend(left, key) else Descend(right, key)
  }

  function Boundaries(t: Tree): seq<Bytes> {
    match t
    case Leaf(_) => []
    case Internal(boundary, left, right) => Boundaries(left) + [boundary] + Boundaries(right)
  }

  function Leaves(t: Tree): (ls: seq<Bytes>)
    ensures |ls| == |Boundaries(t)| + 1
  {
    match t
    case Leaf(cluster) => [cluster]
    case Internal(_, left, right) => Leaves(left) + Leaves(right)
  }

  ghost predicate Sorted(bs: seq<Bytes>) {
    forall i, j :: 0 <= i < j < |bs| ==> !Less(bs[j], bs[i])
  }

  /** A linear scan with truncated comparison: how many boundaries the key is not below. */
  function Passed(bs: seq<Bytes>, key: Bytes): (n: nat)
    ensures n <= |bs|
  {
    if bs == [] then 0 else (if Less(key, Cut(bs[0], |key|)) then 0 else 1) + Passed(bs[1..], key)
  }

  /** The true interval: how many boundaries are at most the key. */
  function AtMost(bs: seq<Bytes>, key: Bytes): (n: nat)
    ensures n <= |bs|
  {
    if bs == [] then 0 else (if Less(key, bs[0]) then 0 else 1) + AtMost(bs[1..], key)
  }

  predicate ProperlyExtends(b: Bytes, key: Bytes) {
    |key| < |b| && b[..|key|] == key
  }

  function Extending(bs: seq<Bytes>, key: Bytes): nat {
    if bs == [] then 0 else (if ProperlyExtends(bs[0], key) then 1 else 0) + Extending(bs[1..], key)
  }

  lemma {:induction false} PassedSplits(front: seq<Bytes>, bs: seq<Bytes>, key: Bytes)
    ensures Passed(front + bs, key) == Passed(front, key) + Passed(bs, key)
  {
    if front == [] {
      assert front + bs == bs;
    } else {
      assert (front + bs)[1..] == front[1..] + bs;
      PassedSplits(front[1..], bs, key);
    }
  }

  lemma {:induction false} AllPassed(bs: seq<Bytes>, key: Bytes)
    requires forall b :: b in bs ==> !Less(key, Cut(b, |key|))
    ensures Passed(bs, key) == |bs|
  {
    if bs != [] {
      AllPassed(bs[1..], key);
    }
  }

  lemma {:induction false} NonePassed(bs: seq<Bytes>, key: Bytes)
    requires forall b :: b in bs ==> Less(key, Cut(b, |key|))
    ensures Passed(bs, key) == 0
  {
    if bs != [] {
      NonePassed(bs[1..], key);
    }
  }

  lemma SortedParts(xs: seq<Bytes>, b: Bytes, ys: seq<Bytes>)
    requires Sorted(xs + [b] + ys)
    ensures Sorted(xs) && Sorted(ys)
    ensures forall x :: x in xs ==> !Less(b, x)
    ensures forall y :: y in ys ==> !Less(y, b)
  {
    var all := xs + [b] + ys;
    assert all[|xs|] == b;
    forall i | 0 <= i < |xs| ensures all[i] == xs[i] && !Less(b, xs[i]) {
    }
    forall j | 0 <= j < |ys| ensures all[|xs| + 1 + j] == ys[j] && !Less(ys[j], b) {
    }
    forall i, j | 0 <= i < j < |xs| ensures !Less(xs[j], xs[i]) {
      assert all[i] == xs[i] && all[j] == xs[j];
    }
    forall i, j | 0 <= i < j < |ys| ensures !Less(ys[j], ys[i]) {
      assert all[|xs| + 1 + i] == ys[i] && all[|xs| + 1 + j] == ys[j];
    }
  }

  /** For sorted boundaries the descent reaches the leaf that the linear scan counts out. */
  lemma {:induction false} DescentIsScan(t: Tree, key: Bytes)
    requires 0 !in key && Sorted(Boundaries(t))
    ensures Descend(t, key) == Leaves(t)[Passed(Boundaries(t), key)]
  {
    hide Less, Cut, MemCmp, Sorted, Comparable, Terminated, Passed;
    if t.Internal? {
      var b, xs, ys := t.boundary, Boundaries(t.left), Boundaries(t.right);
      TruncatedCompare(key, b);
      SortedParts(xs, b, ys);
      PassedSplits(xs + [b], ys, key);
      PassedSplits(xs, [b], key);
      PassedOne(b, key);
      if Less(key, Cut(b, |key|)) {
        forall y | y in ys ensures Less(key, Cut(y, |key|)) {
          CutIsMonotone(b, y, |key|);
          LessThenNotBelow(key, Cut(b, |key|), Cut(y, |key|));
        }
        NonePassed(ys, key);
        DescentIsScan(t.left, key);
      } else {
        forall x | x in xs ensures !Less(key, Cut(x, |key|)) {
          CutIsMonotone(x, b, |key|);
          if Less(key, Cut(x, |key|)) {
            LessThenNotBelow(key, Cut(x, |key|), Cut(b, |key|));
          }
        }
        AllPassed(xs, key);
        DescentIsScan(t.right, key);
      }
    }
  }

  lemma PassedOne(b: Bytes, key: Bytes)
    ensures Passed([b], key) == if Less(key, Cut(b, |key|)) then 0 else 1
  {
  }

  lemma {:induction false} CutMisjudgesExtensions(key: Bytes, b: Bytes)
    ensures ProperlyExtends(b, key) ==> Less(key, b) && !Less(key, Cut(b, |key|))
    ensures !ProperlyExtends(b, key) ==> (Less(key, Cut(b, |key|)) <==> Less(key, b))
  {
    if key != [] && b != [] && key[0] == b[0] {
      assert Cut(b, |key|)[1..] == Cut(b[1..], |key| - 1);
      CutMisjudgesExtensions(key[1..], b[1..]);
      if |key| < |b| {
        assert b[..|key|] == [b[0]] + b[1..][..|key| - 1];
        assert key == [key[0]] + key[1..];
      }
    } else if key == [] {
      assert Cut(b, 0) == [];
    } else if b != [] && |key| < |b| {
      assert b[..|key|][0] == b[0];
    }
  }

  /** The truncated scan overshoots the true interval by exactly the number of boundaries
      that properly extend the key; so the two agree if and only if there is none. */
  lemma {:induction false} ScanOvershoots(bs: seq<Bytes>, key: Bytes)
    ensures Passed(bs, key) == AtMost(bs, key) + Extending(bs, key)
  {
    if bs != [] {
      CutMisjudgesExtensions(key, bs[0]);
      ScanOvershoots(bs[1..], key);
    }
  }

  lemma {:induction false} NoneExtends(bs: seq<Bytes>, key: Bytes)
    ensures Extending(bs, key) == 0 <==> forall b :: b in bs ==> !ProperlyExtends(b, key)
  {
    if bs != [] {
      NoneExtends(bs[1..], key);
      assert bs == [bs[0]] + bs[1..];
    }
  }

  /** Where a key goes, and exactly when that is its place in lexicographic order. */
  lemma RoutedByInterval(t: Tree, key: Bytes)
    requires 0 !in key && Sorted(Boundaries(t))
    ensures var bs := Boundaries(t);
            && Descend(t, key) == Leaves(t)[Passed(bs, key)]
            && AtMost(bs, key) <= Passed(bs, key)
            && (Passed(bs, key) == AtMost(bs, key) <==> forall b :: b in bs ==> !ProperlyExtends(b, key))
  {
    DescentIsScan(t, key);
    ScanOvershoots(Boundaries(t), key);
    NoneExtends(Boundaries(t), key);
  }

  /** A key that is a proper prefix of a boundary goes right of it. */
  lemma PrefixGoesRight(b: Bytes, key: Bytes, left: Bytes, right: Bytes)
    requires 0 !in key && ProperlyExtends(b, key)
    ensures Less(key, b) && Descend(Internal(b, Leaf(left), Leaf(right)), key) == right
  {
    TruncatedCompare(key, b);
    CutMisjudgesExtensions(key, b);
  }
}
