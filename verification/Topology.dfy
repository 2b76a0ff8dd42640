/** Clusters and their nodes: who owns whom, and the chain of nodes of each cluster. */
module Topology {
  import opened Wire
  import opened Chains
  import opened Acts

  /** The C string held by a buffer: its bytes up to the first NUL. */
  function CString(b: Bytes): (s: Bytes)
    ensures |s| <= |b| && s == b[..|s|]
    ensures 0 !in s
    ensures |s| < |b| ==> b[|s|] == 0
    ensures s == b <==> 0 !in b
  {
    if b == [] || b[0] == 0 then [] else [b[0]] + CString(b[1..])
  }

  /** One resolved address of a node. */
  datatype Address = Address(host: Bytes, port: int)

  class Node {
    const name: Bytes
    var cluster: Cluster?
    var addresses: seq<Address>
    var fd: int
    var next: Node?

    constructor (name: Bytes)
      ensures this.name == CString(name)
      ensures cluster == null && addresses == [] && fd == -1 && next == null
    {
      this.name := CString(name);
      cluster, addresses, fd, next := null, [], -1, null;
    }

    /** Appends the results of one address lookup. */
    method AddAddresses(found: seq<Address>)
      modifies this`addresses
      ensures addresses == old(addresses) + found
    {
      addresses := addresses + found;
    }

    /** A node belongs to at most one cluster, for good. */
    method SetCluster(c: Cluster) returns (rc: int)
      modifies this`cluster
      ensures old(cluster) == null ==> rc == SUCCESS && cluster == c
      ensures old(cluster) != null ==> rc == -22 && cluster == old(cluster)
    {
      if cluster != null {
        return -EINVAL;
      }
      cluster := c;
      rc := SUCCESS;
    }
  }

  class Cluster {
    const name: Bytes
    var nodes: Node?
    var master: Node?
    var lastError: Option<Bytes>
    ghost var spine: seq<Node>

    /** The chain from `nodes` visits the spine and ends; every node on it is owned by this
        cluster and occurs once. */
    ghost predicate Valid()
      reads this`nodes, this`spine, spine`next, spine`cluster
    {
      && nodes == At(spine, 0, null)
      && (forall i :: 0 <= i < |spine| ==> spine[i].next == At(spine, i + 1, null) && spine[i].cluster == this)
      && (forall i, j :: 0 <= i < j < |spine| ==> spine[i] != spine[j])
    }

    constructor (name: Bytes)
      ensures Valid() && spine == [] && this.name == CString(name) && master == null && lastError == None
    {
      this.name := CString(name);
      nodes, master, lastError := null, null, None;
      spine := [];
    }

    /** Puts a node in front of the chain, unless it is owned already. */
    method AddNode(node: Node) returns (rc: int)
      requires Valid()
      modifies this`nodes, this`spine, node`cluster, node`next
      ensures Valid()
      ensures old(node.cluster) == null ==>
                rc == SUCCESS && spine == [node] + old(spine) && node.cluster == this
      ensures old(node.cluster) != null ==>
                && rc == -EINVAL && spine == old(spine) && nodes == old(nodes)
                && node.cluster == old(node.cluster) && node.next == old(node.next)
    {
      rc := node.SetCluster(this);
      if rc != SUCCESS {
        return;
      }
      node.next := nodes;
      nodes := node;
      spine := [node] + spine;
    }

    /** A node to talk to: the master, with a descriptor. None if there is no such node. */
    method GetMaster() returns (m: Node?)
      ensures m != null ==> m == master && m.fd >= 0
      ensures m == null ==> master == null || master.fd < 0
    {
      m := if master == null || master.fd < 0 then null else master;
    }
  }

  lemma ChainLinks(c: Cluster, i: nat)
    requires c.Valid()
    ensures c.nodes == At(c.spine, 0, null)
    ensures i < |c.spine| ==> c.spine[i].next == At(c.spine, i + 1, null) && c.spine[i].cluster == c
  {
  }

  // ----- any run of add_node over any clusters --------------------------------

  datatype Addition = Addition(cluster: Cluster, node: Node)

  /** A cluster's chain after a run of additions: each accepted one went in front. */
  ghost function ChainAfter(calls: seq<Addition>, rcs: seq<int>, c: Cluster, start: seq<Node>): seq<Node>
    requires |calls| == |rcs|
  {
    if calls == [] then start
    else
      var n := |calls| - 1;
      Extended(calls[n], rcs[n], c, ChainAfter(calls[..n], rcs[..n], c, start))
  }

  ghost function Extended(a: Addition, rc: int, c: Cluster, chain: seq<Node>): seq<Node> {
    if a.cluster == c && rc == SUCCESS then [a.node] + chain else chain
  }

  /** Adding to one cluster leaves all the others as they were. */
  method AddAmong(a: Addition, ghost clusters: set<Cluster>) returns (rc: int)
    requires a.cluster in clusters && forall d :: d in clusters ==> d.Valid()
    modifies a.cluster`nodes, a.cluster`spine, a.node`cluster, a.node`next
    ensures forall d :: d in clusters ==> d.Valid()
    ensures rc == SUCCESS <==> old(a.node.cluster) == null
    ensures a.node.cluster != null
    ensures forall d :: d in clusters ==> d.spine == Extended(a, rc, d, old(d.spine))
  {
    rc := a.cluster.AddNode(a.node);
    forall d | d in clusters ensures d.Valid() {
      if d != a.cluster {
        assert d.spine == old(d.spine);
        if old(a.node.cluster) == null {
          assert forall i :: 0 <= i < |d.spine| ==> old(d.spine[i].cluster) == d;
          assert a.node !in d.spine;
        }
      }
    }
  }

  function NodesOf(calls: seq<Addition>): set<Node> {
    set a | a in calls :: a.node
  }

  /** Exactly the first additions of nodes that were free to begin with succeed. */
  ghost predicate FirstSucceed(calls: seq<Addition>, rcs: seq<int>, free: set<Node>) {
    && |rcs| == |calls|
    && forall i :: 0 <= i < |calls| ==>
         (rcs[i] == SUCCESS <==> calls[i].node in free && calls[i].node !in NodesOf(calls[..i]))
  }

  ghost function Free(nodes: set<Node>): set<Node>
    reads nodes
  {
    set n | n in nodes && n.cluster == null
  }

  lemma CallsSnoc(calls: seq<Addition>, rcs: seq<int>, a: Addition, rc: int, free: set<Node>)
    requires FirstSucceed(calls, rcs, free)
    requires rc == SUCCESS <==> a.node in free && a.node !in NodesOf(calls)
    ensures FirstSucceed(calls + [a], rcs + [rc], free)
    ensures NodesOf(calls + [a]) == NodesOf(calls) + {a.node}
    ensures forall c, start :: ChainAfter(calls + [a], rcs + [rc], c, start)
                            == Extended(a, rc, c, ChainAfter(calls, rcs, c, start))
  {
    assert (calls + [a])[..|calls|] == calls && (rcs + [rc])[..|rcs|] == rcs;
    forall i | 0 <= i < |calls| ensures (calls + [a])[..i] == calls[..i] {
    }
  }

  /** After any run of additions every chain is still acyclic and no two chains share a node:
      an addition succeeds exactly when nobody owns the node yet. */
  method RunAdditions(clusters: set<Cluster>, calls: seq<Addition>) returns (rcs: seq<int>)
    requires forall c :: c in clusters ==> c.Valid()
    requires forall a :: a in calls ==> a.cluster in clusters
    modifies clusters, NodesOf(calls)
    ensures forall c :: c in clusters ==> c.Valid()
    ensures forall c, d, n :: c in clusters && d in clusters && n in c.spine && n in d.spine ==> c == d
    ensures FirstSucceed(calls, rcs, old(Free(NodesOf(calls))))
    ensures forall c :: c in clusters ==> c.spine == ChainAfter(calls, rcs, c, old(c.spine))
  {
    hide FirstSucceed, ChainAfter, Extended, NodesOf, Free, Cluster.Valid;
    rcs := [];
    ghost var all: set<Node>, free: set<Node> := NodesOf(calls), Free(NodesOf(calls));
    ghost var done: seq<Addition>, seen: set<Node> := [], {};
    NothingAdded(calls);
    for i := 0 to |calls|
      invariant |rcs| == i && done == calls[..i] && seen == NodesOf(done)
      invariant forall c :: c in clusters ==> c.Valid()
      invariant FirstSucceed(done, rcs, free)
      invariant forall c :: c in clusters ==> c.spine == ChainAfter(done, rcs, c, old(c.spine))
      invariant forall n :: n in all ==> (n.cluster == null <==> n in free && n !in seen)
    {
      var a := calls[i];
      OneMore(calls, i);
      var rc := AddAmong(a, clusters);
      CallsSnoc(done, rcs, a, rc, free);
      done, rcs, seen := done + [a], rcs + [rc], seen + {a.node};
    }
    assert calls[..|calls|] == calls;
    ChainsAreDisjoint(clusters);
  }

  lemma NothingAdded(calls: seq<Addition>)
    ensures FirstSucceed([], [], Free(NodesOf(calls))) && NodesOf([]) == {}
    ensures forall c, start :: ChainAfter([], [], c, start) == start
    ensures forall n :: n in NodesOf(calls) ==> (n.cluster == null <==> n in Free(NodesOf(calls)))
  {
  }

  lemma OneMore(calls: seq<Addition>, i: nat)
    requires i < |calls|
    ensures calls[..i + 1] == calls[..i] + [calls[i]]
    ensures calls[i].node in NodesOf(calls)
  {
  }

  /** Two chains with a common node belong to the node's one owner. */
  lemma ChainsAreDisjoint(clusters: set<Cluster>)
    requires forall c :: c in clusters ==> c.Valid()
    ensures forall c, d, n :: c in clusters && d in clusters && n in c.spine && n in d.spine ==> c == d
  {
  }
}
