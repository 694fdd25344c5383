/** Graph construction of src/graph.c on values.  Memory is a map from addresses to what they
    hold; a graph_node_t * is an address, stored as its eight bytes in the node map, and a
    graph_edge_t * is an address, stored as a key in the edge set of its source. */
module GraphModel {
  import opened Prelude
  import opened Probing
  import opened Capacity
  import MapModel
  import SetModel

  const MAX_EDGES: nat := 16

  type Address = Bytes

  /** The node map; the data and the edge set of the node at an address; the node that the edge
      at an address leads to. */
  datatype Graph = Graph(table: Table<MapModel.Stored>, dataAt: map<Address, Bytes>,
                         edgesAt: map<Address, SetModel.Keys>, destAt: map<Address, Address>)

  function NewGraph(maxNodes: nat): Graph
  {
    Graph(MapModel.NewTable(maxNodes), map[], map[], map[])
  }

  /** The memory with a new node, without edges, at p. */
  function WithNode(g: Graph, data: Bytes, p: Address): Graph
  {
    Graph(g.table, g.dataAt[p := data], g.edgesAt[p := SetModel.NewKeys(MAX_EDGES)], g.destAt)
  }

  /** graph_add_node: the address of the node for the data, which is made at p if the map has
      none.  None stands for the exit taken when map_set fails. */
  function AddNode(g: Graph, hash: Hash, data: Bytes, p: Address): Option<(Graph, Address)>
  {
    var found := MapModel.Get(g.table, hash, data);
    if found.Value? then Some((g, found.data))
    else
      match MapModel.Set(g.table, hash, data, p)
      case None => None
      case Some(t) => Some((WithNode(g, data, p).(table := t), p))
  }

  /** The addresses that calloc returns for the destination, the edge and the source. */
  datatype Fresh = Fresh(dst: Address, edge: Address, src: Address)

  /** graph_node_add_edge; None stands for the exit taken when set_add fails. */
  function NodeAddEdge(g: Graph, hash: Hash, src: Address, edge: Address): Option<Graph>
  {
    if src !in g.edgesAt then None
    else
      match SetModel.Add(g.edgesAt[src], hash, edge)
      case None => None
      case Some(t) => Some(g.(edgesAt := g.edgesAt[src := t]))
  }

  /** The part of graph_add_edge that deals with the source: graph_add_node, then
      graph_node_add_edge. */
  function LinkSource(g: Graph, hash: Hash, a: Bytes, f: Fresh): Option<Graph>
  {
    match AddNode(g, hash, a, f.src)
    case None => None
    case Some((g2, src)) => NodeAddEdge(g2, hash, src, f.edge)
  }

  /** graph_add_edge */
  function AddEdge(g: Graph, hash: Hash, a: Bytes, b: Bytes, f: Fresh): Option<Graph>
  {
    match AddNode(g, hash, b, f.dst)
    case None => None
    case Some((g1, dst)) =>
      LinkSource(g1.(destAt := g1.destAt[f.edge := dst]), hash, a, f)
  }

  // ---------- the multigraph ----------

  /** A call of graph_add_edge: source data and destination data. */
  type Call = (Bytes, Bytes)

  ghost function Pointers(addr: map<Bytes, Address>): map<Bytes, MapModel.Stored>
  {
    map k | k in addr :: MapModel.Stored(8, addr[k])
  }

  /** The addresses of the edges added from k; edgeOf[i] is the edge that call i made. */
  ghost function EdgesFrom(calls: seq<Call>, edgeOf: seq<Address>, k: Bytes): set<Address>
    requires |calls| == |edgeOf|
  {
    set i | 0 <= i < |calls| && calls[i].0 == k :: edgeOf[i]
  }

  function CallsFrom(calls: seq<Call>, k: Bytes): nat
  {
    if calls == [] then 0
    else CallsFrom(calls[..|calls| - 1], k) + (if calls[|calls| - 1].0 == k then 1 else 0)
  }

  /** Every registered data has one node, and different data have different nodes. */
  ghost predicate NodesOk(g: Graph, hash: Hash, addr: map<Bytes, Address>)
  {
    && Refines(g.table, hash, Pointers(addr))
    && forall k :: k in addr ==>
         |addr[k]| == 8 && addr[k] in g.dataAt && g.dataAt[addr[k]] == k && addr[k] in g.edgesAt
  }

  /** Calls and edges match one to one, and each edge leads to the node of its destination. */
  ghost predicate EdgesOk(g: Graph, addr: map<Bytes, Address>, calls: seq<Call>, edgeOf: seq<Address>)
  {
    && |calls| == |edgeOf|
    && (forall i :: 0 <= i < |calls| ==>
          && calls[i].0 in addr && calls[i].1 in addr
          && edgeOf[i] in g.destAt && g.destAt[edgeOf[i]] == addr[calls[i].1])
    && (forall i, j :: 0 <= i < j < |calls| ==> edgeOf[i] != edgeOf[j])
  }

  /** The edge set of each node holds the edges of the calls with that source, and no others. */
  ghost predicate SetsOk(g: Graph, hash: Hash, addr: map<Bytes, Address>, calls: seq<Call>, edgeOf: seq<Address>)
    requires NodesOk(g, hash, addr) && |calls| == |edgeOf|
  {
    forall k :: k in addr ==> SetOk(g.edgesAt[addr[k]], hash, EdgesFrom(calls, edgeOf, k))
  }

  ghost predicate SetOk(t: SetModel.Keys, hash: Hash, edges: set<Address>)
  {
    |t| == MAX_EDGES && SetModel.RefinesSet(t, hash, edges)
  }

  /** The graph is the multigraph of the calls. */
  ghost predicate Represents(g: Graph, hash: Hash, addr: map<Bytes, Address>, calls: seq<Call>, edgeOf: seq<Address>)
  {
    NodesOk(g, hash, addr) && EdgesOk(g, addr, calls, edgeOf) && SetsOk(g, hash, addr, calls, edgeOf)
  }

  lemma {:induction false} NewGraphRepresents(maxNodes: nat, hash: Hash)
    ensures Represents(NewGraph(maxNodes), hash, map[], [], [])
  {
    MapModel.NewTableRefines(maxNodes, hash);
    assert Pointers(map[]) == map[];
  }

  // ---------- adding a node ----------

  function Registered(addr: map<Bytes, Address>, data: Bytes, p: Address): map<Bytes, Address>
  {
    if data in addr then addr else addr[data := p]
  }

  lemma {:induction false} AddNodeFails(g: Graph, hash: Hash, addr: map<Bytes, Address>, data: Bytes, p: Address)
    requires NodesOk(g, hash, addr)
    ensures AddNode(g, hash, data, p).None? <==> data !in addr && MapModel.Set(g.table, hash, data, p).None?
    ensures data in addr ==> AddNode(g, hash, data, p) == Some((g, addr[data]))
    ensures MapModel.Get(g.table, hash, data) == if data in addr then MapModel.Value(addr[data]) else MapModel.Missing
  {
    MapModel.GetRefines(g.table, hash, Pointers(addr), data);
    if data in addr {
      assert addr[data][..8] == addr[data];
    }
  }

  /** Equal data share one node; new data get a new node without edges; the exit is taken exactly
      when new data find no room in the map. */
  lemma {:induction false} AddNodeRepresents(g: Graph, hash: Hash, addr: map<Bytes, Address>, calls: seq<Call>,
                                             edgeOf: seq<Address>, data: Bytes, p: Address)
    requires Represents(g, hash, addr, calls, edgeOf) && |p| == 8 && p !in g.dataAt
    ensures AddNode(g, hash, data, p).None? <==> data !in addr && MapModel.Set(g.table, hash, data, p).None?
    ensures AddNode(g, hash, data, p).Some? ==>
              var (g', q) := AddNode(g, hash, data, p).value;
              && Represents(g', hash, Registered(addr, data, p), calls, edgeOf)
              && q == Registered(addr, data, p)[data]
              && g'.destAt == g.destAt && |g'.table| == |g.table|
              && (data in addr ==> g' == g) && (data !in addr ==> g'.dataAt == g.dataAt[p := data])
  {
    MapModel.GetRefines(g.table, hash, Pointers(addr), data);
    if data in addr {
      assert addr[data][..8] == addr[data];
    } else if MapModel.Set(g.table, hash, data, p).Some? {
      MapModel.SetRefines(g.table, hash, Pointers(addr), data, p);
      assert Pointers(addr)[data := MapModel.NewBucket(p)] == Pointers(addr[data := p]);
      NewNodeRepresents(g, hash, addr, calls, edgeOf, data, p, MapModel.Set(g.table, hash, data, p).value);
    }
  }

  lemma {:induction false} NewNodeRepresents(g: Graph, hash: Hash, addr: map<Bytes, Address>, calls: seq<Call>,
                                             edgeOf: seq<Address>, data: Bytes, p: Address, t: Table<MapModel.Stored>)
    requires Represents(g, hash, addr, calls, edgeOf) && |p| == 8 && p !in g.dataAt && data !in addr
    requires Refines(t, hash, Pointers(addr[data := p]))
    ensures Represents(Graph(t, g.dataAt[p := data], g.edgesAt[p := SetModel.NewKeys(MAX_EDGES)], g.destAt),
                       hash, addr[data := p], calls, edgeOf)
  {
    var addr' := addr[data := p];
    var g' := Graph(t, g.dataAt[p := data], g.edgesAt[p := SetModel.NewKeys(MAX_EDGES)], g.destAt);
    forall k | k in addr' ensures SetOk(g'.edgesAt[addr'[k]], hash, EdgesFrom(calls, edgeOf, k)) {
      if k == data {
        assert EdgesFrom(calls, edgeOf, k) == {};
        SetModel.NewKeysRefine(MAX_EDGES, hash);
      }
    }
  }

  // ---------- adding an edge ----------

  /** Writing the destination of a new edge object changes nothing that is registered. */
  lemma {:induction false} NewEdgeRepresents(g: Graph, hash: Hash, addr: map<Bytes, Address>, calls: seq<Call>,
                                             edgeOf: seq<Address>, edge: Address, dst: Address)
    requires Represents(g, hash, addr, calls, edgeOf) && edge !in g.destAt
    ensures Represents(g.(destAt := g.destAt[edge := dst]), hash, addr, calls, edgeOf)
  {
    forall k | k in addr ensures SetOk(g.edgesAt[addr[k]], hash, EdgesFrom(calls, edgeOf, k)) {
    }
  }

  lemma {:induction false} EdgesFromAppend(calls: seq<Call>, edgeOf: seq<Address>, c: Call, e: Address, k: Bytes)
    requires |calls| == |edgeOf|
    ensures EdgesFrom(calls + [c], edgeOf + [e], k) ==
            if c.0 == k then EdgesFrom(calls, edgeOf, k) + {e} else EdgesFrom(calls, edgeOf, k)
  {
    var calls', edgeOf' := calls + [c], edgeOf + [e];
    forall x | x in EdgesFrom(calls, edgeOf, k) ensures x in EdgesFrom(calls', edgeOf', k) {
      var i :| 0 <= i < |calls| && calls[i].0 == k && edgeOf[i] == x;
      assert calls'[i].0 == k && edgeOf'[i] == x;
    }
    if c.0 == k {
      assert calls'[|calls|].0 == k && edgeOf'[|calls|] == e;
    }
  }

  /** Entering the edge into the set of its source completes the call. */
  lemma {:induction false} LinkRepresents(g: Graph, hash: Hash, addr: map<Bytes, Address>, calls: seq<Call>,
                                          edgeOf: seq<Address>, a: Bytes, b: Bytes, edge: Address, t: SetModel.Keys)
    requires Represents(g, hash, addr, calls, edgeOf) && a in addr && b in addr
    requires edge in g.destAt && g.destAt[edge] == addr[b] && edge !in edgeOf
    requires SetOk(t, hash, EdgesFrom(calls, edgeOf, a) + {edge})
    ensures Represents(g.(edgesAt := g.edgesAt[addr[a] := t]), hash, addr, calls + [(a, b)], edgeOf + [edge])
  {
    var g' := g.(edgesAt := g.edgesAt[addr[a] := t]);
    assert NodesOk(g', hash, addr);
    assert EdgesOk(g', addr, calls + [(a, b)], edgeOf + [edge]);
    forall k | k in addr
      ensures SetOk(g'.edgesAt[addr[k]], hash, EdgesFrom(calls + [(a, b)], edgeOf + [edge], k))
    {
      EdgesFromAppend(calls, edgeOf, (a, b), edge, k);
      assert SetOk(g.edgesAt[addr[k]], hash, EdgesFrom(calls, edgeOf, k));
      assert g.dataAt[addr[k]] == k && g.dataAt[addr[a]] == a;
    }
  }

  /** The edge set of a node holds the edges of the calls with that source, one for each call, and
      nothing else. */
  lemma {:induction false} OutDegree(g: Graph, hash: Hash, addr: map<Bytes, Address>, calls: seq<Call>,
                                     edgeOf: seq<Address>, k: Bytes)
    requires Represents(g, hash, addr, calls, edgeOf) && k in addr
    ensures var t := g.edgesAt[addr[k]];
            KeysUpTo(t, |t|) == EdgesFrom(calls, edgeOf, k) && |KeysUpTo(t, |t|)| == CallsFrom(calls, k)
  {
    var edges := EdgesFrom(calls, edgeOf, k);
    assert SetOk(g.edgesAt[addr[k]], hash, edges);
    StoredKeys(g.edgesAt[addr[k]], hash, SetModel.AsMap(edges));
    assert SetModel.AsMap(edges).Keys == edges;
    CountEdges(calls, edgeOf, k);
  }

  lemma {:induction false} CountEdges(calls: seq<Call>, edgeOf: seq<Address>, k: Bytes)
    requires |calls| == |edgeOf|
    requires forall i, j :: 0 <= i < j < |calls| ==> edgeOf[i] != edgeOf[j]
    ensures |EdgesFrom(calls, edgeOf, k)| == CallsFrom(calls, k)
    decreases |calls|
  {
    if calls == [] {
      assert EdgesFrom(calls, edgeOf, k) == {};
    } else {
      var n := |calls| - 1;
      CountEdges(calls[..n], edgeOf[..n], k);
      assert calls[..n] + [calls[n]] == calls && edgeOf[..n] + [edgeOf[n]] == edgeOf;
      EdgesFromAppend(calls[..n], edgeOf[..n], calls[n], edgeOf[n], k);
      assert edgeOf[n] !in EdgesFrom(calls[..n], edgeOf[..n], k);
    }
  }

  /** Sixteen slots take exactly sixteen edges, whatever the hash: 16 divides 2^64, so every probe
      sequence visits every slot. */
  lemma {:induction false} EdgeSetFull(t: SetModel.Keys, hash: Hash, edges: set<Address>, edge: Address)
    requires SetOk(t, hash, edges) && edge !in edges
    ensures SetModel.Add(t, hash, edge).None? <==> |edges| == 16
    ensures SetModel.Add(t, hash, edge).Some? ==> SetOk(SetModel.Add(t, hash, edge).value, hash, edges + {edge})
    ensures |edges| <= 16
  {
    assert CleanCycle(hash(edge), MAX_EDGES);
    SetModel.AddFailsIff(t, hash, edges, edge);
    SetModel.AddRefines(t, hash, edges, edge);
    FullAtCapacity(t, hash, SetModel.AsMap(edges));
    assert SetModel.AsMap(edges).Keys == edges;
  }

  /** The addresses are those of new objects. */
  predicate Unused(g: Graph, f: Fresh)
  {
    && |f.dst| == |f.src| == 8 && f.dst != f.src && f.dst !in g.dataAt && f.src !in g.dataAt
    && f.dst !in g.edgesAt && f.src !in g.edgesAt && f.edge !in g.destAt
  }

  ghost function AddressesAfter(addr: map<Bytes, Address>, a: Bytes, b: Bytes, f: Fresh): map<Bytes, Address>
  {
    Registered(Registered(addr, b, f.dst), a, f.src)
  }

  /** graph_add_edge adds exactly the call to the multigraph. */
  lemma {:induction false} AddEdgeRepresents(g: Graph, hash: Hash, addr: map<Bytes, Address>, calls: seq<Call>,
                                             edgeOf: seq<Address>, a: Bytes, b: Bytes, f: Fresh)
    requires Represents(g, hash, addr, calls, edgeOf) && Unused(g, f)
    ensures AddEdge(g, hash, a, b, f).Some? ==>
              Represents(AddEdge(g, hash, a, b, f).value, hash, AddressesAfter(addr, a, b, f),
                         calls + [(a, b)], edgeOf + [f.edge])
  {
    AddNodeRepresents(g, hash, addr, calls, edgeOf, b, f.dst);
    if AddNode(g, hash, b, f.dst).Some? {
      var (g1, dst) := AddNode(g, hash, b, f.dst).value;
      var addr1 := Registered(addr, b, f.dst);
      NewEdgeRepresents(g1, hash, addr1, calls, edgeOf, f.edge, dst);
      var ge := g1.(destAt := g1.destAt[f.edge := dst]);
      AddNodeRepresents(ge, hash, addr1, calls, edgeOf, a, f.src);
      if AddNode(ge, hash, a, f.src).Some? {
        var (g2, src) := AddNode(ge, hash, a, f.src).value;
        var addr2 := Registered(addr1, a, f.src);
        EdgeSetFull(g2.edgesAt[src], hash, EdgesFrom(calls, edgeOf, a), f.edge);
        if SetModel.Add(g2.edgesAt[src], hash, f.edge).Some? {
          LinkRepresents(g2, hash, addr2, calls, edgeOf, a, b, f.edge,
                         SetModel.Add(g2.edgesAt[src], hash, f.edge).value);
        }
      }
    }
  }

  lemma {:induction false} RoomForNode(t: Table<MapModel.Stored>, hash: Hash, addr: map<Bytes, Address>,
                                       data: Bytes, p: Address)
    requires Refines(t, hash, Pointers(addr)) && data !in addr
    requires 0 < |t| < TWO_TO_THE_64 && CleanCycle(hash(data), |t|)
    ensures |addr| <= |t|
    ensures MapModel.Set(t, hash, data, p).None? <==> |addr| == |t|
  {
    assert Pointers(addr).Keys == addr.Keys;
    FullAtCapacity(t, hash, Pointers(addr));
    LookupRefines(t, hash, Pointers(addr), data);
    WriteFailsIff(t, hash, Pointers(addr), data, MapModel.NewBucket(p));
  }

  /** A node can be added exactly while the number of registered data stays within the map. */
  lemma {:induction false} NodeFits(g: Graph, hash: Hash, addr: map<Bytes, Address>, data: Bytes, p: Address)
    requires NodesOk(g, hash, addr)
    requires 0 < |g.table| < TWO_TO_THE_64 && CleanCycle(hash(data), |g.table|)
    ensures |Registered(addr, data, p)| == |addr| + (if data in addr then 0 else 1)
    ensures |addr| <= |g.table|
    ensures AddNode(g, hash, data, p).None? <==> |Registered(addr, data, p)| > |g.table|
  {
    AddNodeFails(g, hash, addr, data, p);
    if data in addr {
      assert Pointers(addr).Keys == addr.Keys;
      FullAtCapacity(g.table, hash, Pointers(addr));
    } else {
      RoomForNode(g.table, hash, addr, data, p);
      assert addr[data := p].Keys == addr.Keys + {data};
    }
  }

  /** When no hash wraps badly on the node map, graph_add_edge exits exactly when the data do not
      all fit into the map, or the source has sixteen edges already. */
  lemma {:induction false} AddEdgeFailsIff(g: Graph, hash: Hash, addr: map<Bytes, Address>, calls: seq<Call>,
                                           edgeOf: seq<Address>, a: Bytes, b: Bytes, f: Fresh)
    requires Represents(g, hash, addr, calls, edgeOf) && Unused(g, f) && 0 < |g.table| < TWO_TO_THE_64
    requires CleanCycle(hash(a), |g.table|) && CleanCycle(hash(b), |g.table|)
    ensures AddEdge(g, hash, a, b, f).None? <==>
              |AddressesAfter(addr, a, b, f)| > |g.table| || CallsFrom(calls, a) == 16
  {
    NodeFits(g, hash, addr, b, f.dst);
    AddNodeRepresents(g, hash, addr, calls, edgeOf, b, f.dst);
    if AddNode(g, hash, b, f.dst).Some? {
      var (g1, dst) := AddNode(g, hash, b, f.dst).value;
      var addr1 := Registered(addr, b, f.dst);
      NewEdgeRepresents(g1, hash, addr1, calls, edgeOf, f.edge, dst);
      LinkSourceFailsIff(g1.(destAt := g1.destAt[f.edge := dst]), hash, addr1, calls, edgeOf, a, f);
    } else {
      AtLeast(Registered(addr, b, f.dst), a, f.src);
    }
  }

  lemma {:induction false} AtLeast(addr: map<Bytes, Address>, a: Bytes, p: Address)
    ensures |Registered(addr, a, p)| >= |addr|
  {
    if a !in addr {
      assert addr[a := p].Keys == addr.Keys + {a};
    }
  }

  lemma {:induction false} LinkSourceFailsIff(g: Graph, hash: Hash, addr: map<Bytes, Address>, calls: seq<Call>,
                                              edgeOf: seq<Address>, a: Bytes, f: Fresh)
    requires Represents(g, hash, addr, calls, edgeOf) && 0 < |g.table| < TWO_TO_THE_64
    requires |f.src| == 8 && f.src !in g.dataAt && f.edge !in edgeOf && CleanCycle(hash(a), |g.table|)
    ensures LinkSource(g, hash, a, f).None? <==>
              |Registered(addr, a, f.src)| > |g.table| || CallsFrom(calls, a) == 16
  {
    NodeFits(g, hash, addr, a, f.src);
    AddNodeRepresents(g, hash, addr, calls, edgeOf, a, f.src);
    CountEdges(calls, edgeOf, a);
    if AddNode(g, hash, a, f.src).Some? {
      var (g2, src) := AddNode(g, hash, a, f.src).value;
      EdgeSetFull(g2.edgesAt[src], hash, EdgesFrom(calls, edgeOf, a), f.edge);
    }
  }

  /** What the code needs of a graph before graph_add_node: an address found in the map is that of
      a node. */
  predicate Ready(g: Graph, hash: Hash, data: Bytes)
  {
    var found := MapModel.Get(g.table, hash, data);
    found == MapModel.Missing || (found.Value? && found.data in g.edgesAt)
  }

  lemma {:induction false} RepresentsReady(g: Graph, hash: Hash, addr: map<Bytes, Address>, data: Bytes)
    requires NodesOk(g, hash, addr)
    ensures Ready(g, hash, data)
  {
    AddNodeFails(g, hash, addr, data, []);
  }

  /** What the code needs of a graph before graph_add_edge. */
  predicate EdgeReady(g: Graph, hash: Hash, a: Bytes, b: Bytes, f: Fresh)
  {
    && Ready(g, hash, b)
    && var r := AddNode(g, hash, b, f.dst);
       r.Some? ==> Ready(r.value.0.(destAt := r.value.0.destAt[f.edge := r.value.1]), hash, a)
  }

  /** graph_add_edge may call graph_add_node for its source as well as for its destination. */
  lemma {:induction false} AddEdgeReady(g: Graph, hash: Hash, addr: map<Bytes, Address>, calls: seq<Call>,
                                        edgeOf: seq<Address>, a: Bytes, b: Bytes, f: Fresh)
    requires Represents(g, hash, addr, calls, edgeOf) && Unused(g, f)
    ensures EdgeReady(g, hash, a, b, f)
  {
    RepresentsReady(g, hash, addr, b);
    AddNodeRepresents(g, hash, addr, calls, edgeOf, b, f.dst);
    if AddNode(g, hash, b, f.dst).Some? {
      RepresentsReady(AddNode(g, hash, b, f.dst).value.0, hash, Registered(addr, b, f.dst), a);
    }
  }

  // ---------- runs ----------

  datatype Step = Step(a: Bytes, b: Bytes, unused: Fresh)

  function Run(g: Graph, hash: Hash, steps: seq<Step>): Option<Graph>
    decreases |steps|
  {
    if steps == [] then Some(g)
    else
      match AddEdge(g, hash, steps[0].a, steps[0].b, steps[0].unused)
      case None => None
      case Some(g') => Run(g', hash, steps[1..])
  }

  predicate AllUnused(g: Graph, hash: Hash, steps: seq<Step>)
    decreases |steps|
  {
    steps == [] ||
    (&& Unused(g, steps[0].unused)
     && var r := AddEdge(g, hash, steps[0].a, steps[0].b, steps[0].unused);
        r.Some? ==> AllUnused(r.value, hash, steps[1..]))
  }

  function CallsOf(steps: seq<Step>): seq<Call>
  {
    seq(|steps|, i requires 0 <= i < |steps| => (steps[i].a, steps[i].b))
  }

  function EdgesOf(steps: seq<Step>): seq<Address>
  {
    seq(|steps|, i requires 0 <= i < |steps| => steps[i].unused.edge)
  }

  ghost function AddressesAfterAll(addr: map<Bytes, Address>, steps: seq<Step>): map<Bytes, Address>
    decreases |steps|
  {
    if steps == [] then addr
    else AddressesAfterAll(AddressesAfter(addr, steps[0].a, steps[0].b, steps[0].unused), steps[1..])
  }

  /** Every run of graph_add_edge that does not exit builds the multigraph of its calls. */
  lemma {:induction false} RunRepresents(g: Graph, hash: Hash, addr: map<Bytes, Address>, calls: seq<Call>,
                                         edgeOf: seq<Address>, steps: seq<Step>)
    requires Represents(g, hash, addr, calls, edgeOf) && AllUnused(g, hash, steps)
    ensures Run(g, hash, steps).Some? ==>
              Represents(Run(g, hash, steps).value, hash, AddressesAfterAll(addr, steps),
                         calls + CallsOf(steps), edgeOf + EdgesOf(steps))
    decreases |steps|
  {
    if steps == [] {
      assert calls + CallsOf(steps) == calls && edgeOf + EdgesOf(steps) == edgeOf;
    } else {
      var x := steps[0];
      AddEdgeRepresents(g, hash, addr, calls, edgeOf, x.a, x.b, x.unused);
      if AddEdge(g, hash, x.a, x.b, x.unused).Some? {
        CallsOfRest(steps);
        RunRepresents(AddEdge(g, hash, x.a, x.b, x.unused).value, hash, AddressesAfter(addr, x.a, x.b, x.unused),
                      calls + [(x.a, x.b)], edgeOf + [x.unused.edge], steps[1..]);
        Regroup(calls, [(x.a, x.b)], CallsOf(steps[1..]));
        Regroup(edgeOf, [x.unused.edge], EdgesOf(steps[1..]));
      }
    }
  }

  lemma {:induction false} CallsOfRest(steps: seq<Step>)
    requires steps != []
    ensures CallsOf(steps) == [(steps[0].a, steps[0].b)] + CallsOf(steps[1..])
    ensures EdgesOf(steps) == [steps[0].unused.edge] + EdgesOf(steps[1..])
  {
  }

  lemma {:induction false} Regroup<T>(x: seq<T>, y: seq<T>, z: seq<T>)
    ensures (x + y) + z == x + (y + z)
  {
  }

  // ---------- when a run exits ----------

  function DataOf(steps: seq<Step>): set<Bytes>
  {
    if steps == [] then {} else {steps[0].a, steps[0].b} + DataOf(steps[1..])
  }

  lemma {:induction false} WithinLimits(g: Graph, hash: Hash, addr: map<Bytes, Address>, calls: seq<Call>,
                                        edgeOf: seq<Address>, k: Bytes)
    requires Represents(g, hash, addr, calls, edgeOf)
    ensures |addr.Keys| <= |g.table| && CallsFrom(calls, k) <= 16
  {
    FullAtCapacity(g.table, hash, Pointers(addr));
    assert Pointers(addr).Keys == addr.Keys;
    CountEdges(calls, edgeOf, k);
    var edges := EdgesFrom(calls, edgeOf, k);
    if k in addr {
      assert SetOk(g.edgesAt[addr[k]], hash, edges);
      FullAtCapacity(g.edgesAt[addr[k]], hash, SetModel.AsMap(edges));
      assert SetModel.AsMap(edges).Keys == edges;
    } else {
      assert edges == {};
    }
  }

  lemma {:induction false} TableKept(g: Graph, hash: Hash, a: Bytes, b: Bytes, f: Fresh)
    ensures AddEdge(g, hash, a, b, f).Some? ==> |AddEdge(g, hash, a, b, f).value.table| == |g.table|
  {
  }

  lemma {:induction false} CallsFromGrows(calls: seq<Call>, more: seq<Call>, k: Bytes)
    ensures CallsFrom(calls + more, k) >= CallsFrom(calls, k)
    decreases |more|
  {
    if more == [] {
      assert calls + more == calls;
    } else {
      var n := |more| - 1;
      CallsFromGrows(calls, more[..n], k);
      assert (calls + more)[..|calls + more| - 1] == calls + more[..n];
    }
  }

  lemma {:induction false} SubsetSize(x: set<Bytes>, y: set<Bytes>)
    requires x <= y
    ensures |x| <= |y|
  {
    assert y == x + (y - x);
  }

  /** At most n distinct data, and at most sixteen calls for each source. */
  ghost predicate Fits(n: nat, data: set<Bytes>, calls: seq<Call>)
  {
    |data| <= n && forall k :: CallsFrom(calls, k) <= 16
  }

  /** What a run still has to do, seen before and after its first step. */
  lemma {:induction false} NextStep(addr: map<Bytes, Address>, calls: seq<Call>, steps: seq<Step>)
    requires steps != []
    ensures var x := steps[0];
            && AddressesAfter(addr, x.a, x.b, x.unused).Keys + DataOf(steps[1..]) == addr.Keys + DataOf(steps)
            && (calls + [(x.a, x.b)]) + CallsOf(steps[1..]) == calls + CallsOf(steps)
  {
    var x := steps[0];
    assert AddressesAfter(addr, x.a, x.b, x.unused).Keys == addr.Keys + {x.a, x.b};
    CallsOfRest(steps);
    Regroup(calls, [(x.a, x.b)], CallsOf(steps[1..]));
  }

  lemma {:induction false} StepTooBig(n: nat, addr: map<Bytes, Address>, calls: seq<Call>, data: set<Bytes>,
                                      more: seq<Call>, a: Bytes, b: Bytes)
    requires |addr| > n || CallsFrom(calls, a) == 16
    ensures !Fits(n, addr.Keys + data, (calls + [(a, b)]) + more)
  {
    if |addr| > n {
      assert |addr| == |addr.Keys|;
      SubsetSize(addr.Keys, addr.Keys + data);
    } else {
      assert (calls + [(a, b)])[..|calls|] == calls;
      CallsFromGrows(calls + [(a, b)], more, a);
    }
  }

  lemma {:induction false} NothingToDo(g: Graph, hash: Hash, addr: map<Bytes, Address>, calls: seq<Call>,
                                       edgeOf: seq<Address>)
    requires Represents(g, hash, addr, calls, edgeOf)
    ensures Fits(|g.table|, addr.Keys, calls)
  {
    WithinLimits(g, hash, addr, calls, edgeOf, []);
    forall k ensures CallsFrom(calls, k) <= 16 {
      WithinLimits(g, hash, addr, calls, edgeOf, k);
    }
  }

  /** When no hash wraps badly on the node map, a run of graph_add_edge gets through exactly if the
      distinct data fit into the map and no source has more than sixteen calls. */
  lemma {:induction false} RunSucceedsIff(g: Graph, hash: Hash, addr: map<Bytes, Address>, calls: seq<Call>,
                                          edgeOf: seq<Address>, steps: seq<Step>)
    requires Represents(g, hash, addr, calls, edgeOf) && AllUnused(g, hash, steps) && 0 < |g.table| < TWO_TO_THE_64
    requires forall k :: k in DataOf(steps) ==> CleanCycle(hash(k), |g.table|)
    ensures Run(g, hash, steps).Some? <==> Fits(|g.table|, addr.Keys + DataOf(steps), calls + CallsOf(steps))
    decreases |steps|
  {
    if steps == [] {
      NothingToDo(g, hash, addr, calls, edgeOf);
      assert addr.Keys + DataOf(steps) == addr.Keys && calls + CallsOf(steps) == calls;
    } else {
      var x := steps[0];
      var addr', calls' := AddressesAfter(addr, x.a, x.b, x.unused), calls + [(x.a, x.b)];
      NextStep(addr, calls, steps);
      AddEdgeFailsIff(g, hash, addr, calls, edgeOf, x.a, x.b, x.unused);
      var r := AddEdge(g, hash, x.a, x.b, x.unused);
      if r.Some? {
        TableKept(g, hash, x.a, x.b, x.unused);
        AddEdgeRepresents(g, hash, addr, calls, edgeOf, x.a, x.b, x.unused);
        RunSucceedsIff(r.value, hash, addr', calls', edgeOf + [x.unused.edge], steps[1..]);
      } else {
        StepTooBig(|g.table|, addr', calls, DataOf(steps[1..]), CallsOf(steps[1..]), x.a, x.b);
      }
    }
  }

  /** From graph_create: the run gets through, and builds the multigraph, exactly under these limits. */
  lemma {:induction false} NewGraphRun(maxNodes: nat, hash: Hash, steps: seq<Step>)
    requires 0 < maxNodes < TWO_TO_THE_64 && AllUnused(NewGraph(maxNodes), hash, steps)
    requires forall k :: k in DataOf(steps) ==> CleanCycle(hash(k), maxNodes)
    ensures var r := Run(NewGraph(maxNodes), hash, steps);
            && (r.Some? <==> Fits(maxNodes, DataOf(steps), CallsOf(steps)))
            && (r.Some? ==> Represents(r.value, hash, AddressesAfterAll(map[], steps), CallsOf(steps), EdgesOf(steps)))
  {
    var none: map<Bytes, Address> := map[];
    NewGraphRepresents(maxNodes, hash);
    RunSucceedsIff(NewGraph(maxNodes), hash, none, [], [], steps);
    RunRepresents(NewGraph(maxNodes), hash, none, [], [], steps);
    assert none.Keys + DataOf(steps) == DataOf(steps);
    assert [] + CallsOf(steps) == CallsOf(steps) && [] + EdgesOf(steps) == EdgesOf(steps);
  }
}
