/** Graph construction of src/graph.c as it runs.  A graph holds its node map and the memory it
    has built up, field by field: the data and the edge set of the node at an address, and the
    destination of the edge at an address.  The node map and the edge sets are the objects of
    modules HashMap and HashSet. */
module Graph {
  import opened Prelude
  import opened Probing
  import MapModel
  import SetModel
  import GraphModel
  import HashMap
  import HashSet

  type Owners = map<object, Bytes>

  /** The edge set at each address is valid, holds the table given for it, and shares no memory
      with another: `owner` says for each object which address it belongs to. */
  ghost predicate SetsApart(setAt: map<Bytes, HashSet.Set>, tables: map<Bytes, SetModel.Keys>, owner: Owners,
                            hash: Hash)
    reads owner.Keys
  {
    && (forall p :: p in tables ==> p in setAt)
    && (forall p :: p in setAt ==> p in tables && SetHolds(setAt[p], p, tables[p], owner, hash))
  }

  ghost predicate SetHolds(s: HashSet.Set, p: Bytes, t: SetModel.Keys, owner: Owners, hash: Hash)
    reads owner.Keys
  {
    && s in owner && s.Repr <= owner.Keys && (forall o :: o in s.Repr ==> owner[o] == p)
    && s.Valid() && s.hash == hash && s.table == t
  }

  class Graph {
    const nodes: HashMap.Map
    var dataAt: map<Bytes, Bytes>
    var setAt: map<Bytes, HashSet.Set>
    var destAt: map<Bytes, Bytes>
    ghost var tables: map<Bytes, SetModel.Keys>
    ghost var owner: Owners

    /** The node of each data, the calls of graph_add_edge so far, and the edge of each call. */
    ghost var addr: map<Bytes, Bytes>
    ghost var calls: seq<GraphModel.Call>
    ghost var edgeOf: seq<Bytes>

    ghost function View(): GraphModel.Graph
      reads this, nodes
    {
      GraphModel.Graph(nodes.table, dataAt, tables, destAt)
    }

    /** The objects are in order and do not overlap. */
    ghost predicate Apart()
      reads this, nodes, nodes.Repr, owner.Keys
    {
      && this !in nodes.Repr && this !in owner && nodes.Repr !! owner.Keys
      && nodes.Valid() && SetsApart(setAt, tables, owner, nodes.hash)
    }

    /** The graph is the multigraph of the calls so far. */
    ghost predicate Valid()
      reads this, nodes, nodes.Repr, owner.Keys
    {
      Apart() && GraphModel.Represents(View(), nodes.hash, addr, calls, edgeOf)
    }

    /** graph_create */
    constructor (maxNodes: nat, hash: Hash)
      requires maxNodes < TWO_TO_THE_64
      ensures Valid() && fresh(nodes.Repr + owner.Keys) && calls == [] && addr == map[] && nodes.hash == hash
      ensures View() == GraphModel.NewGraph(maxNodes)
    {
      nodes := new HashMap.Map(maxNodes, hash);
      dataAt, setAt, destAt, tables, owner := map[], map[], map[], map[], map[];
      addr, calls, edgeOf := map[], [], [];
      new;
      GraphModel.NewGraphRepresents(maxNodes, hash);
    }

    /** graph_node_create at address p */
    method CreateNode(data: Bytes, p: Bytes)
      requires Apart() && p !in setAt
      modifies this`dataAt, this`setAt, this`tables, this`owner
      ensures Apart() && fresh(owner.Keys - old(owner.Keys)) && setAt.Keys == old(setAt).Keys + {p}
      ensures View() == GraphModel.WithNode(old(View()), data, p)
    {
      var edges := new HashSet.Set(GraphModel.MAX_EDGES, nodes.hash);
      OneMoreSet(setAt, tables, owner, nodes.hash, p, edges);
      Enter(data, p, edges);
    }

    /** Puts the fields of a new node at its address. */
    method Enter(data: Bytes, p: Bytes, edges: HashSet.Set)
      requires edges.Valid() && p !in setAt
      modifies this`dataAt, this`setAt, this`tables, this`owner
      ensures setAt == old(setAt)[p := edges] && owner == WithOwner(old(owner), edges.Repr, p)
      ensures dataAt == old(dataAt)[p := data] && tables == old(tables)[p := edges.table]
    {
      dataAt := dataAt[p := data];
      setAt := setAt[p := edges];
      tables := tables[p := edges.table];
      owner := WithOwner(owner, edges.Repr, p);
    }

    /** graph_add_node: the address of the node; p is the one that calloc would return.  None
        stands for the exit taken when map_set fails. */
    method AddNode(data: Bytes, p: Bytes) returns (node: Option<Bytes>)
      requires Apart() && GraphModel.Ready(View(), nodes.hash, data) && p !in setAt
      modifies this`dataAt, this`setAt, this`tables, this`owner, nodes.Repr
      ensures fresh(owner.Keys - old(owner.Keys)) && fresh(nodes.Repr - old(nodes.Repr))
      ensures node.Some? <==> GraphModel.AddNode(old(View()), nodes.hash, data, p).Some?
      ensures node.Some? ==> GraphModel.AddNode(old(View()), nodes.hash, data, p) == Some((View(), node.value))
      ensures node.Some? ==> Apart() && node.value in setAt
      ensures node.Some? ==> setAt.Keys <= old(setAt).Keys + {p}
    {
      var found, exited := nodes.Get(data);
      assert !exited;
      if found.Some? {
        return found;
      }
      var ok := Register(data, p);
      node := if ok then Some(p) else None;
    }

    /** The branch of graph_add_node for data that have no node yet. */
    method Register(data: Bytes, p: Bytes) returns (ok: bool)
      requires Apart() && !MapModel.Exists(nodes.table, nodes.hash, data) && p !in setAt
      modifies this`dataAt, this`setAt, this`tables, this`owner, nodes.Repr
      ensures fresh(owner.Keys - old(owner.Keys)) && fresh(nodes.Repr - old(nodes.Repr))
      ensures ok <==> MapModel.Set(old(nodes.table), nodes.hash, data, p).Some?
      ensures ok ==> Apart()
      ensures ok ==> View() == GraphModel.WithNode(old(View()), data, p).(
                                 table := MapModel.Set(old(nodes.table), nodes.hash, data, p).value)
      ensures ok ==> setAt.Keys == old(setAt).Keys + {p}
    {
      CreateNode(data, p);
      assert allocated(owner.Keys);
      var ret := nodes.Set(data, p);
      ok := !(0 > ret);
      assert SetsApart(setAt, tables, owner, nodes.hash);
    }

    /** graph_node_add_edge */
    method NodeAddEdge(node: Bytes, edge: Bytes) returns (ok: bool)
      requires Apart() && node in setAt && node in tables
      modifies this`tables, owner.Keys
      ensures Apart()
      ensures ok <==> GraphModel.NodeAddEdge(old(View()), nodes.hash, node, edge).Some?
      ensures ok ==> Some(View()) == GraphModel.NodeAddEdge(old(View()), nodes.hash, node, edge)
    {
      assert setAt[node].Repr <= owner.Keys;
      ghost var tables';
      ok, tables' := AddToSet(setAt, tables, owner, nodes.hash, node, edge);
      tables := tables';
    }

    /** The part of graph_add_edge that deals with the source. */
    method LinkSource(a: Bytes, f: GraphModel.Fresh) returns (ok: bool)
      requires Apart() && GraphModel.Ready(View(), nodes.hash, a) && f.src !in setAt
      modifies this`dataAt, this`setAt, this`tables, this`owner, nodes.Repr, owner.Keys
      ensures fresh(nodes.Repr - old(nodes.Repr)) && fresh(owner.Keys - old(owner.Keys))
      ensures ok <==> GraphModel.LinkSource(old(View()), nodes.hash, a, f).Some?
      ensures ok ==> Some(View()) == GraphModel.LinkSource(old(View()), nodes.hash, a, f)
      ensures ok ==> Apart()
    {
      var src := AddNode(a, f.src);
      if src.None? {
        return false;
      }
      ok := NodeAddEdge(src.value, f.edge);
    }

    /** The part of graph_add_edge that deals with the destination and the edge object. */
    method Connect(b: Bytes, f: GraphModel.Fresh) returns (dst: Option<Bytes>)
      requires Apart() && GraphModel.Ready(View(), nodes.hash, b) && GraphModel.Unused(View(), f)
      modifies this`dataAt, this`setAt, this`destAt, this`tables, this`owner, nodes.Repr
      ensures fresh(owner.Keys - old(owner.Keys)) && fresh(nodes.Repr - old(nodes.Repr))
      ensures dst.Some? <==> GraphModel.AddNode(old(View()), nodes.hash, b, f.dst).Some?
      ensures dst.Some? ==> Apart() && f.src !in setAt
      ensures dst.Some? ==>
                var (g1, p) := GraphModel.AddNode(old(View()), nodes.hash, b, f.dst).value;
                dst.value == p && View() == g1.(destAt := g1.destAt[f.edge := p])
    {
      dst := AddNode(b, f.dst);
      if dst.Some? {
        CreateEdge(f.edge, dst.value);
      }
    }

    /** graph_edge_create at address p */
    method CreateEdge(p: Bytes, dst: Bytes)
      requires Apart()
      modifies this`destAt
      ensures Apart() && View() == old(View()).(destAt := old(destAt)[p := dst])
    {
      destAt := destAt[p := dst];
    }

    /** What graph_add_edge does to the memory. */
    method Construct(a: Bytes, b: Bytes, f: GraphModel.Fresh) returns (ok: bool)
      requires Apart() && GraphModel.Unused(View(), f)
      requires GraphModel.EdgeReady(View(), nodes.hash, a, b, f)
      modifies this`dataAt, this`setAt, this`destAt, this`tables, this`owner, nodes.Repr, owner.Keys
      ensures fresh(nodes.Repr - old(nodes.Repr)) && fresh(owner.Keys - old(owner.Keys))
      ensures ok <==> GraphModel.AddEdge(old(View()), nodes.hash, a, b, f).Some?
      ensures ok ==> Some(View()) == GraphModel.AddEdge(old(View()), nodes.hash, a, b, f)
      ensures ok ==> Apart()
    {
      var dst := Connect(b, f);
      if dst.None? {
        return false;
      }
      ok := LinkSource(a, f);
    }

    /** graph_add_edge: adds exactly the call to the multigraph, unless the code exits. */
    method AddEdge(a: Bytes, b: Bytes, f: GraphModel.Fresh) returns (ok: bool)
      requires Valid() && GraphModel.Unused(View(), f)
      modifies this, nodes.Repr, owner.Keys
      ensures fresh(nodes.Repr - old(nodes.Repr)) && fresh(owner.Keys - old(owner.Keys))
      ensures ok <==> GraphModel.AddEdge(old(View()), nodes.hash, a, b, f).Some?
      ensures ok ==> Valid() && Some(View()) == GraphModel.AddEdge(old(View()), nodes.hash, a, b, f)
      ensures ok ==> calls == old(calls) + [(a, b)] && edgeOf == old(edgeOf) + [f.edge]
      ensures ok ==> addr == GraphModel.AddressesAfter(old(addr), a, b, f)
    {
      ghost var g := View();
      GraphModel.AddEdgeReady(g, nodes.hash, addr, calls, edgeOf, a, b, f);
      ok := Construct(a, b, f);
      if ok {
        GraphModel.AddEdgeRepresents(g, nodes.hash, addr, calls, edgeOf, a, b, f);
        Record(GraphModel.AddEdge(g, nodes.hash, a, b, f).value, a, b, f);
      }
    }

    /** Notes a call that has been made. */
    ghost method Record(g: GraphModel.Graph, a: Bytes, b: Bytes, f: GraphModel.Fresh)
      requires Apart() && View() == g
      requires GraphModel.Represents(g, nodes.hash, GraphModel.AddressesAfter(addr, a, b, f), calls + [(a, b)],
                                     edgeOf + [f.edge])
      modifies this`addr, this`calls, this`edgeOf
      ensures Valid() && View() == g
      ensures calls == old(calls) + [(a, b)] && edgeOf == old(edgeOf) + [f.edge]
      ensures addr == GraphModel.AddressesAfter(old(addr), a, b, f)
    {
      addr := GraphModel.AddressesAfter(addr, a, b, f);
      calls := calls + [(a, b)];
      edgeOf := edgeOf + [f.edge];
    }
  }

  /** set_add on the edge set of one node; the others stay as they are. */
  method AddToSet(setAt: map<Bytes, HashSet.Set>, ghost tables: map<Bytes, SetModel.Keys>, ghost owner: Owners,
                  ghost hash: Hash, node: Bytes, edge: Bytes)
    returns (ok: bool, ghost tables': map<Bytes, SetModel.Keys>)
    requires SetsApart(setAt, tables, owner, hash) && node in setAt
    modifies setAt[node].Repr
    ensures SetsApart(setAt, tables', owner, hash)
    ensures ok <==> SetModel.Add(tables[node], hash, edge).Some?
    ensures tables' == tables[node := SetModel.Add(tables[node], hash, edge).GetOr(tables[node])]
  {
    var s := setAt[node];
    assert forall q :: q in setAt && q != node ==>
             SetHolds(setAt[q], q, tables[q], owner, hash) && setAt[q].Repr !! s.Repr;
    var ret := s.Add(edge);
    ok := !(0 > ret);
    tables' := tables[node := s.table];
    assert forall q :: q in setAt ==> SetHolds(setAt[q], q, tables'[q], owner, hash);
  }

  ghost function WithOwner(owner: Owners, repr: set<object>, p: Bytes): (o: Owners)
    ensures o.Keys == owner.Keys + repr
  {
    owner + map o | o in repr :: p
  }

  lemma {:induction false} OneMoreSet(setAt: map<Bytes, HashSet.Set>, tables: map<Bytes, SetModel.Keys>,
                                      owner: Owners, hash: Hash, p: Bytes, edges: HashSet.Set)
    requires SetsApart(setAt, tables, owner, hash) && p !in setAt && edges.Repr !! owner.Keys
    requires edges.Valid() && edges.hash == hash
    ensures SetsApart(setAt[p := edges], tables[p := edges.table], WithOwner(owner, edges.Repr, p), hash)
  {
    forall q | q in setAt ensures SetHolds(setAt[q], q, tables[q], WithOwner(owner, edges.Repr, p), hash) {
    }
  }
}
