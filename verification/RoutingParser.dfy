/** Parsing the routing table with a cursor that the readers advance, building the clusters
    it lists, and looking up the cluster of a key. */
module RoutingParser {
  import opened Wire
  import opened WireLists
  import opened Acts
  import opened Topology
  import opened Routing

  /** `const void **data`: a position in a buffer, moved along by every read. */
  class Cursor {
    const data: Bytes
    var pos: nat

    ghost predicate Valid()
      reads this
    {
      pos <= |data|
    }

    ghost function Rest(): Bytes
      reads this
      requires Valid()
    {
      data[pos..]
    }

    constructor (data: Bytes)
      ensures Valid() && this.data == data && Rest() == data && pos == 0
    {
      this.data, pos := data, 0;
    }

    method ReadBool() returns (b: bool)
      requires Valid() && GetBool(Rest()).Got?
      modifies this`pos
      ensures Valid() && old(pos) < pos && GetBool(old(Rest())) == Got(b, Rest())
    {
      b := data[pos] != 0;
      pos := pos + 1;
    }

    method ReadUint32() returns (w: int)
      requires Valid() && GetUint(Rest()).Got?
      modifies this`pos
      ensures Valid() && old(pos) < pos && GetUint(old(Rest())) == Got(w, Rest())
    {
      w := GetWord(data[pos..]);
      pos := pos + 4;
    }

    method ReadString() returns (s: Bytes)
      requires Valid() && GetString(Rest()).Got?
      modifies this`pos
      ensures Valid() && old(pos) < pos && GetString(old(Rest())) == Got(s, Rest())
    {
      ghost var all := Rest();
      var length := ReadUint32();
      s := data[pos..pos + length];
      pos := pos + length;
      assert all[4..4 + length] == s;
    }

    /** The recursive parser of the tree. */
    method ParseNode() returns (tree: Tree)
      requires Valid() && GetTree(Rest()).Got?
      modifies this`pos
      ensures Valid() && old(pos) < pos && GetTree(old(Rest())) == Got(tree, Rest())
      decreases |data| - pos
    {
      hide GetBool, GetString;
      var isLeaf := ReadBool();
      if isLeaf {
        var cluster := ReadString();
        tree := Leaf(cluster);
      } else {
        var boundary := ReadString();
        var left := ParseNode();
        var right := ParseNode();
        tree := Internal(boundary, left, right);
      }
    }

    /** One entry of a cluster's node list, as a node with one looked-up address. */
    method ParseClusterNode() returns (node: Node, ghost spec: NodeSpec)
      requires Valid() && GetNode(Rest()).Got?
      modifies this`pos
      ensures Valid() && GetNode(old(Rest())) == Got(spec, Rest())
      ensures fresh(node) && node.cluster == null && node.fd == -1 && IsNode(node, spec)
    {
      hide GetString, GetUint;
      var id := ReadString();
      var ip := ReadString();
      var port := ReadUint32();
      spec := NodeSpec(id, ip, port);
      node := new Node(id);
      node.AddAddresses([Address(CString(ip), port)]);
    }
  }

  ghost predicate IsNode(node: Node, spec: NodeSpec)
    reads node`addresses
  {
    node.name == CString(spec.id) && node.addresses == [Address(CString(spec.ip), spec.port)]
  }

  /** The cluster has exactly the listed nodes, last one first. */
  ghost predicate IsCluster(cluster: Cluster, spec: ClusterSpec)
    reads cluster, cluster.spine
  {
    && cluster.Valid()
    && cluster.name == CString(spec.id) && cluster.master == null
    && IsReversed(cluster.spine, spec.nodes)
  }

  ghost predicate IsReversed(spine: seq<Node>, nodes: seq<NodeSpec>)
    reads spine`addresses
  {
    && |spine| == |nodes|
    && forall i :: 0 <= i < |spine| ==> IsNode(spine[i], nodes[|nodes| - 1 - i])
  }

  /** The inner loop: one cluster and its nodes. */
  method ParseCluster(cursor: Cursor) returns (cluster: Cluster, ghost spec: ClusterSpec)
    requires cursor.Valid() && GetCluster(cursor.Rest()).Got?
    modifies cursor`pos
    ensures cursor.Valid() && GetCluster(old(cursor.Rest())) == Got(spec, cursor.Rest())
    ensures fresh(cluster) && (forall n :: n in cluster.spine ==> fresh(n)) && IsCluster(cluster, spec)
  {
    hide GetString, GetUint, GetNode, GetAll, IsReversed, Cluster.Valid, IsNode, CString;
    var id := cursor.ReadString();
    var size := cursor.ReadUint32();
    cluster := new Cluster(id);
    ghost var start, nodes := cursor.Rest(), [];
    NothingRead(GetNode, start);
    NothingReversed();
    var j := 0;
    while j < size
      invariant 0 <= j <= size && cursor.Valid()
      invariant GetAll(GetNode, size, start).Got?
      invariant GetAll(GetNode, j, start) == Got(nodes, cursor.Rest())
      invariant fresh(cluster) && (forall n :: n in cluster.spine ==> fresh(n))
      invariant cluster.Valid() && cluster.name == CString(id) && cluster.master == null
      invariant IsReversed(cluster.spine, nodes)
    {
      NextIsThere(GetNode, size, j, start);
      var node;
      ghost var nodeSpec;
      node, nodeSpec := cursor.ParseClusterNode();
      AllSnoc(GetNode, j, start);
      var rc := cluster.AddNode(node);
      ReversedGrows(cluster.spine[1..], nodes, node, nodeSpec);
      assert [node] + cluster.spine[1..] == cluster.spine;
      nodes := nodes + [nodeSpec];
      j := j + 1;
    }
    spec := ClusterSpec(id, nodes);
  }

  lemma NothingReversed()
    ensures IsReversed([], [])
  {
  }

  lemma ReversedGrows(spine: seq<Node>, nodes: seq<NodeSpec>, node: Node, spec: NodeSpec)
    requires IsReversed(spine, nodes) && IsNode(node, spec)
    ensures IsReversed([node] + spine, nodes + [spec])
  {
  }

  /** A list that can be read as a whole can be read one element further at any point. */
  lemma {:induction false} NextIsThere<T(!new)>(get: Bytes -> Parsed<T>, n: nat, i: nat, s: Bytes)
    requires GetAll(get, n, s).Got? && i < n
    ensures GetAll(get, i, s).Got? && get(GetAll(get, i, s).rest).Got?
  {
    if i > 0 {
      NextIsThere(get, n - 1, i - 1, get(s).rest);
    }
  }

  ghost function NodesOfAll(clusters: seq<Cluster>): set<Node>
    reads clusters
  {
    set c, n | c in clusters && n in c.spine :: n
  }

  ghost predicate AreClusters(clusters: seq<Cluster>, specs: seq<ClusterSpec>)
    reads clusters, NodesOfAll(clusters)
  {
    && |clusters| == |specs|
    && forall i :: 0 <= i < |clusters| ==>
         assert forall n :: n in clusters[i].spine ==> n in NodesOfAll(clusters);
         IsCluster(clusters[i], specs[i])
  }

  /** The outer loop: the cluster table. */
  method ParseClusters(cursor: Cursor) returns (clusters: seq<Cluster>, ghost specs: seq<ClusterSpec>)
    requires cursor.Valid() && GetUint(cursor.Rest()).Got?
    requires GetAll(GetCluster, GetUint(cursor.Rest()).value, GetUint(cursor.Rest()).rest).Got?
    modifies cursor`pos
    ensures cursor.Valid()
    ensures GetAll(GetCluster, GetUint(old(cursor.Rest())).value, GetUint(old(cursor.Rest())).rest) == Got(specs, cursor.Rest())
    ensures AreClusters(clusters, specs)
  {
    hide GetUint, GetCluster, GetAll, IsCluster;
    var count := cursor.ReadUint32();
    ghost var start := cursor.Rest();
    clusters, specs := [], [];
    NothingRead(GetCluster, start);
    var i := 0;
    while i < count
      invariant 0 <= i <= count && cursor.Valid()
      invariant GetAll(GetCluster, count, start).Got?
      invariant GetAll(GetCluster, i, start) == Got(specs, cursor.Rest())
      invariant AreClusters(clusters, specs)
    {
      NextIsThere(GetCluster, count, i, start);
      var cluster;
      ghost var spec;
      cluster, spec := ParseCluster(cursor);
      AllSnoc(GetCluster, i, start);
      clusters, specs := clusters + [cluster], specs + [spec];
      i := i + 1;
    }
  }

  class Nursery {
    const tree: Tree
    const clusters: seq<Cluster>

    constructor (tree: Tree, clusters: seq<Cluster>)
      ensures this.tree == tree && this.clusters == clusters
    {
      this.tree, this.clusters := tree, clusters;
    }

    /** The first cluster with the name at the leaf of the key. */
    method Lookup(key: Bytes) returns (cluster: Cluster?)
      requires 0 !in key
      ensures var name := CString(Descend(tree, key));
              if cluster == null then forall c :: c in clusters ==> c.name != name
              else exists i :: 0 <= i < |clusters| && clusters[i] == cluster && cluster.name == name
                            && forall j :: 0 <= j < i ==> clusters[j].name != name
    {
      var name := CString(Descend(tree, key));
      for i := 0 to |clusters|
        invariant forall j :: 0 <= j < i ==> clusters[j].name != name
      {
        if clusters[i].name == name {
          return clusters[i];
        }
      }
      cluster := null;
    }
  }

  /** A buffer that starts with a routing table is accepted if and only if nothing follows
      the table, and then gives exactly its tree and its clusters. */
  method ParseRouting(data: Bytes) returns (rc: int, nursery: Nursery?)
    requires GetTable(data).Got?
    ensures rc == if GetTable(data).rest == [] then 0 else 0x600
    ensures nursery != null <==> rc == 0
    ensures nursery != null ==>
              && nursery.tree == GetTable(data).value.tree
              && AreClusters(nursery.clusters, GetTable(data).value.clusters)
  {
    hide GetTree, GetUint, GetAll;
    var cursor := new Cursor(data);
    var tree := cursor.ParseNode();
    var clusters;
    ghost var specs;
    clusters, specs := ParseClusters(cursor);
    if cursor.pos != |data| {
      return INVALID_ROUTING, null;
    }
    rc := SUCCESS;
    nursery := new Nursery(tree, clusters);
  }
}
