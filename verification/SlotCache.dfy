/** The persistent slot cache: a copy of the known masters, and a table rebuilt from it. */
module SlotCache {
  import opened Bytes
  import opened Shuffle
  import opened SlotSpec
  import opened SlotTable

  /** The cached form of a node. */
  ghost function EntryOf(n: ClusterNode): CachedMaster
    requires n.Keyed()
    reads n
  {
    CachedMaster(n.addr, n.ranges, n.SlaveAddrs())
  }

  ghost predicate NodesKeyed(nodes: map<Addr, ClusterNode>)
    reads nodes.Values
  {
    forall a :: a in nodes ==> nodes[a].addr == a && nodes[a].Keyed() && !nodes[a].replica
  }

  /** The cache holds each master among the nodes once, and nothing else. */
  ghost predicate Copies(cache: seq<CachedMaster>, nodes: map<Addr, ClusterNode>)
    requires NodesKeyed(nodes)
    reads nodes.Values
  {
    && (forall i :: 0 <= i < |cache| ==>
          cache[i].host in nodes && !nodes[cache[i].host].slave && cache[i] == EntryOf(nodes[cache[i].host]))
    && (forall i, j :: 0 <= i < j < |cache| ==> cache[i].host != cache[j].host)
    && (forall a :: a in nodes && !nodes[a].slave ==> HasHost(cache, a))
  }

  method SlaveList(n: ClusterNode) returns (slaves: seq<Addr>)
    requires n.Keyed()
    ensures slaves == n.SlaveAddrs()
  {
    slaves := [];
    for k := 1 to n.nextSlave
      invariant slaves == n.SlaveAddrs()[..k - 1]
    {
      slaves := slaves + [n.slaves[k].addr];
    }
  }

  /** cluster_cache_create, with the nodes visited in any order. */
  method CacheCreate(nodes: map<Addr, ClusterNode>) returns (cache: seq<CachedMaster>)
    requires NodesKeyed(nodes)
    ensures Copies(cache, nodes)
  {
    cache := [];
    var todo := nodes.Keys;
    while todo != {}
      invariant todo <= nodes.Keys
      invariant forall i :: 0 <= i < |cache| ==>
                  var h := cache[i].host; h in nodes && h !in todo && !nodes[h].slave && cache[i] == EntryOf(nodes[h])
      invariant forall i, j :: 0 <= i < j < |cache| ==> cache[i].host != cache[j].host
      invariant forall a :: a in nodes && a !in todo && !nodes[a].slave ==> HasHost(cache, a)
    {
      var a :| a in todo;
      todo := todo - {a};
      var node := nodes[a];
      if node.slave {
        continue;
      }
      var slaves := SlaveList(node);
      ghost var was := cache;
      cache := cache + [CachedMaster(node.addr, node.ranges, slaves)];
      HasHostLast(was, cache[|was|]);
    }
  }

  lemma HasHostLast(cache: seq<CachedMaster>, m: CachedMaster)
    ensures forall a :: HasHost(cache + [m], a) <==> HasHost(cache, a) || a == m.host
  {
    forall a | HasHost(cache, a) ensures HasHost(cache + [m], a) {
      var i :| 0 <= i < |cache| && cache[i].host == a;
      assert (cache + [m])[i].host == a;
    }
    assert (cache + [m])[|cache|].host == m.host;
  }

  /** What loading the entries in this order leaves in the table. */
  ghost predicate Loaded(t: Table, order: seq<CachedMaster>, before: seq<ClusterNode?>)
    requires t.Sized() && |before| == SLOTS
    reads t`nodes, t.nodes.Values, t.master
  {
    NodesLoaded(t, order) && SlotsLoaded(t, order, before)
  }

  ghost predicate NodesLoaded(t: Table, order: seq<CachedMaster>)
    reads t`nodes, t.nodes.Values
  {
    && NodesKeyed(t.nodes)
    && (forall a :: a in t.nodes <==> HasHost(order, a))
    && (forall i :: 0 <= i < |order| ==>
          order[i].host in t.nodes && EntryOf(t.nodes[order[i].host]) == order[i])
  }

  ghost predicate SlotsLoaded(t: Table, order: seq<CachedMaster>, before: seq<ClusterNode?>)
    requires t.Sized() && |before| == SLOTS
    reads t`nodes, t.master
  {
    forall s :: 0 <= s < SLOTS ==>
      match CachedOwner(order, s)
      case Some(a) => a in t.nodes && t.master[s] == t.nodes[a]
      case None => t.master[s] == before[s]
  }

  /** cached_master_clone and its replicas, which are given slot 0. */
  method CloneMaster(cm: CachedMaster) returns (node: ClusterNode)
    requires cm.slots != []
    ensures fresh(node) && node.Keyed() && EntryOf(node) == cm
    ensures !node.slave && !node.replica && node.slot == cm.slots[0].low
  {
    node := new ClusterNode(cm.host, cm.slots[0].low, false);
    for i := 0 to |cm.slots|
      invariant node.Keyed() && node.SlaveAddrs() == [] && node.ranges == cm.slots[..i]
      invariant !node.slave && node.slot == cm.slots[0].low
    {
      node.ranges := node.ranges + [cm.slots[i]];
    }
    for s := 0 to |cm.slaves|
      invariant node.Keyed() && node.SlaveAddrs() == cm.slaves[..s] && node.ranges == cm.slots
      invariant !node.slave && node.slot == cm.slots[0].low
    {
      var slave := new ClusterNode(cm.slaves[s], 0, true);
      node.AddSlave(slave);
    }
  }

  method FillAll(t: Table, ranges: seq<Range>, node: ClusterNode)
    requires t.Sized() && forall i :: 0 <= i < |ranges| ==> InTable(ranges[i])
    modifies t.master
    ensures forall s :: 0 <= s < SLOTS ==> t.master[s] == if Covers(ranges, s) then node else old(t.master[s])
  {
    for j := 0 to |ranges|
      invariant forall s :: 0 <= s < SLOTS ==>
                  t.master[s] == if Covers(ranges[..j], s) then node else old(t.master[s])
    {
      t.Fill(ranges[j], node);
      assert ranges[..j + 1] == ranges[..j] + [ranges[j]];
      forall s | 0 <= s < SLOTS ensures t.master[s] == if Covers(ranges[..j + 1], s) then node else old(t.master[s]) {
        CoversLast(ranges[..j], ranges[j], s);
      }
    }
    assert ranges[..|ranges|] == ranges;
  }

  predicate Loadable(cm: CachedMaster) {
    cm.slots != [] && forall i :: 0 <= i < |cm.slots| ==> InTable(cm.slots[i])
  }

  lemma EachHasHost(done: seq<CachedMaster>)
    ensures forall i :: 0 <= i < |done| ==> HasHost(done, done[i].host)
  {
  }

  lemma LoadableSlots(cm: CachedMaster)
    requires Loadable(cm)
    ensures forall i :: 0 <= i < |cm.slots| ==> InTable(cm.slots[i])
  {
  }

  lemma NothingLoaded(t: Table)
    requires t.Sized() && t.nodes == map[]
    ensures Loaded(t, [], t.master[..]) && forall a :: !HasHost([], a)
  {
  }

  method AddMaster(t: Table, cm: CachedMaster, ghost done: seq<CachedMaster>) returns (node: ClusterNode)
    requires Loadable(cm) && NodesLoaded(t, done) && !HasHost(done, cm.host)
    modifies t`nodes
    ensures fresh(node) && t.nodes == old(t.nodes)[cm.host := node]
    ensures NodesLoaded(t, done + [cm])
  {
    hide HasHost;
    EachHasHost(done);
    node := CloneMaster(cm);
    t.nodes := t.nodes[cm.host := node];
    HasHostLast(done, cm);
  }

  /** One entry: the loop body of cluster_init_cache. */
  method LoadMaster(t: Table, cm: CachedMaster, ghost done: seq<CachedMaster>, ghost before: seq<ClusterNode?>)
    requires t.Sized() && |before| == SLOTS && Loadable(cm)
    requires Loaded(t, done, before) && !HasHost(done, cm.host)
    modifies t`nodes, t.master
    ensures forall a :: a in t.nodes ==> fresh(t.nodes[a]) || t.nodes[a] in old(t.nodes.Values)
    ensures Loaded(t, done + [cm], before)
  {
    hide CachedOwner, Covers, HasHost, NodesLoaded, Loadable;
    LoadableSlots(cm);
    var node := AddMaster(t, cm, done);
    FillAll(t, cm.slots, node);
    CachedOwnerLast(done, cm);
    HostsOfOwners(done);
  }

  lemma CachedOwnerLast(done: seq<CachedMaster>, cm: CachedMaster)
    ensures forall s: int :: CachedOwner(done + [cm], s) == if Covers(cm.slots, s) then Some(cm.host) else CachedOwner(done, s)
  {
    assert (done + [cm])[..|done|] == done;
  }

  lemma HostsOfOwners(done: seq<CachedMaster>)
    ensures forall s: int :: CachedOwner(done, s).Some? ==> HasHost(done, CachedOwner(done, s).value)
  {
    forall s: int | CachedOwner(done, s).Some? ensures HasHost(done, CachedOwner(done, s).value) {
      CachedOwnerIs(done, s);
    }
  }

  /** Distinct entries, in a shuffled order. */
  lemma Shuffled(cache: seq<CachedMaster>, at: seq<nat>)
    requires Permutation(at, Upto(|cache|))
    requires forall i, j :: 0 <= i < j < |cache| ==> cache[i].host != cache[j].host
    ensures forall i :: 0 <= i < |at| ==> at[i] < |cache|
    ensures Permutation(Select(cache, at), cache) && |at| == |cache|
    ensures forall i :: 0 <= i < |at| ==> !HasHost(Select(cache, at)[..i], Select(cache, at)[i].host)
  {
    EachOnce(at, |cache|);
    ShuffledSelection(cache, at);
    forall i | 0 <= i < |at| ensures !HasHost(Select(cache, at)[..i], Select(cache, at)[i].host) {
      forall j | 0 <= j < i ensures Select(cache, at)[..i][j].host != Select(cache, at)[i].host {
        assert at[j] != at[i];
      }
    }
  }

  /** The positions of the entries, shuffled. */
  method ShuffledPositions(cache: seq<CachedMaster>) returns (at: array<nat>)
    requires forall i, j :: 0 <= i < j < |cache| ==> cache[i].host != cache[j].host
    ensures at.Length == |cache| && forall i :: 0 <= i < |cache| ==> at[i] < |cache|
    ensures Permutation(Select(cache, at[..]), cache)
    ensures forall i :: 0 <= i < |cache| ==> !HasHost(Select(cache, at[..])[..i], Select(cache, at[..])[i].host)
  {
    hide Permutation, HasHost;
    at := new nat[|cache|](i => i);
    assert at[..] == Upto(|cache|);
    FisherYates(at);
    Shuffled(cache, at[..]);
  }

  /** cluster_init_cache: the entries are loaded in a shuffled order. */
  method InitCache(t: Table, cache: seq<CachedMaster>) returns (seeds: set<Addr>, ghost order: seq<CachedMaster>)
    requires t.Sized() && t.nodes == map[]
    requires forall i :: 0 <= i < |cache| ==> Loadable(cache[i])
    requires forall i, j :: 0 <= i < j < |cache| ==> cache[i].host != cache[j].host
    modifies t`nodes, t.master
    ensures Permutation(order, cache) && Loaded(t, order, old(t.master[..]))
    ensures forall a :: a in t.nodes ==> fresh(t.nodes[a])
    ensures forall a :: a in seeds <==> HasHost(order, a)
  {
    hide Permutation, Loaded, HasHost, Loadable;
    NothingLoaded(t);
    var at := ShuffledPositions(cache);
    ghost var positions, before := at[..], t.master[..];
    order := Select(cache, positions);
    seeds := {};
    assert order[..0] == [];
    for i := 0 to |cache|
      invariant at[..] == positions && Loaded(t, order[..i], before)
      invariant forall a :: a in t.nodes ==> fresh(t.nodes[a])
      invariant forall a :: a in seeds <==> HasHost(order[..i], a)
    {
      assert at[i] == positions[i];
      var cm := cache[at[i]];
      assert order[..i + 1] == order[..i] + [cm];
      seeds := seeds + {cm.host};
      LoadMaster(t, cm, order[..i], before);
      HasHostLast(order[..i], cm);
    }
    assert order[..|order|] == order;
  }

  /** The round trip: a table built from CLUSTER SLOTS and a table loaded from its cache, in any
      order of the masters, give every slot the same address and every master the same ranges and
      replicas. SlotSpec.AmbiguousSlotMoves shows that one address per slot is needed. */
  lemma CacheRoundTrip(t: Table, rows: seq<Row>, cache: seq<CachedMaster>, u: Table, order: seq<CachedMaster>, empty: seq<ClusterNode?>)
    requires t.Sized() && u.Sized() && |empty| == SLOTS && forall s :: 0 <= s < SLOTS ==> empty[s] == null
    requires t.NodesBuilt(rows) && t.SlotsBuilt(rows, empty)
    requires NodesKeyed(t.nodes) && Copies(cache, t.nodes)
    requires Permutation(order, cache) && Loaded(u, order, empty)
    requires forall s :: 0 <= s < SLOTS ==> Unambiguous(rows, s)
    ensures forall s :: 0 <= s < SLOTS ==> u.Address(s) == t.Address(s)
    ensures u.nodes.Keys == t.nodes.Keys
    ensures forall a :: a in t.nodes ==> EntryOf(u.nodes[a]) == EntryOf(t.nodes[a])
  {
    hide Table.SlotsBuilt, Table.NodesBuilt, Copies, Loaded, Caches;
    CopiesCache(t, rows, cache);
    MastersKept(t, cache, u, order, empty);
    forall s | 0 <= s < SLOTS ensures u.Address(s) == t.Address(s) {
      SlotKept(t, rows, cache, u, order, empty, s);
    }
  }

  lemma SlotKept(t: Table, rows: seq<Row>, cache: seq<CachedMaster>, u: Table, order: seq<CachedMaster>, empty: seq<ClusterNode?>, s: nat)
    requires t.Sized() && u.Sized() && |empty| == SLOTS && s < SLOTS && empty[s] == null && Unambiguous(rows, s)
    requires t.NodesBuilt(rows) && t.SlotsBuilt(rows, empty) && Caches(cache, rows)
    requires Permutation(order, cache) && Loaded(u, order, empty)
    ensures u.Address(s) == t.Address(s)
  {
    hide Permutation, Caches, Unambiguous;
    SlotRoundTrip(rows, cache, order, s);
    HostsOfOwners(order);
  }

  lemma MastersKept(t: Table, cache: seq<CachedMaster>, u: Table, order: seq<CachedMaster>, empty: seq<ClusterNode?>)
    requires u.Sized() && |empty| == SLOTS && NodesKeyed(t.nodes) && Copies(cache, t.nodes)
    requires forall a :: a in t.nodes ==> HasHost(cache, a)
    requires Permutation(order, cache) && Loaded(u, order, empty)
    ensures u.nodes.Keys == t.nodes.Keys
    ensures forall a :: a in t.nodes ==> EntryOf(u.nodes[a]) == EntryOf(t.nodes[a])
  {
    hide SlotsLoaded, EntryOf;
    SameHosts(cache, order);
    forall a | a in t.nodes ensures a in u.nodes && EntryOf(u.nodes[a]) == EntryOf(t.nodes[a]) {
      var i :| 0 <= i < |cache| && cache[i].host == a;
      assert cache[i] in multiset(order);
      var j :| 0 <= j < |order| && order[j] == cache[i];
    }
  }

  /** A copy of freshly mapped nodes caches the rows they were mapped from. */
  lemma CopiesCache(t: Table, rows: seq<Row>, cache: seq<CachedMaster>)
    requires t.NodesBuilt(rows) && NodesKeyed(t.nodes) && Copies(cache, t.nodes)
    ensures Caches(cache, rows) && forall a :: a in t.nodes ==> HasHost(cache, a)
  {
    hide RangesOf, ReplicasOf;
  }

  lemma SameHosts(cache: seq<CachedMaster>, order: seq<CachedMaster>)
    requires Permutation(order, cache)
    ensures forall a :: HasHost(cache, a) <==> HasHost(order, a)
  {
    forall a | HasHost(cache, a) ensures HasHost(order, a) {
      var i :| 0 <= i < |cache| && cache[i].host == a;
      assert cache[i] in multiset(order);
      var j :| 0 <= j < |order| && order[j] == cache[i];
    }
    forall a | HasHost(order, a) ensures HasHost(cache, a) {
      var i :| 0 <= i < |order| && order[i].host == a;
      assert order[i] in multiset(cache);
      var j :| 0 <= j < |cache| && cache[j] == order[i];
    }
  }
}
