/** The slot table of a cluster connection: built from CLUSTER SLOTS, repaired by MOVED, saved to
    and loaded from the slot cache. */
module SlotTable {
  import opened Bytes
  import opened Shuffle
  import opened SlotSpec

  /** redisClusterNode, together with the socket that belongs to it. */
  class ClusterNode {
    const addr: Addr                     // host and port of the socket
    ghost const replica: bool            // created as somebody's replica
    var slot: int                        // one slot it is believed to serve
    var slave: bool
    var ranges: seq<Range>
    var slaves: map<nat, ClusterNode>
    var nextSlave: nat

    /** cluster_node_create. */
    constructor (addr: Addr, slot: int, slave: bool)
      ensures this.addr == addr && replica == slave && this.slot == slot && this.slave == slave
      ensures ranges == [] && Keyed() && SlaveAddrs() == []
    {
      this.addr, replica, this.slot, this.slave := addr, slave, slot, slave;
      ranges, slaves, nextSlave := [], map[], 1;
    }

    /** The replicas are distinct and keyed 1, 2, ... without gaps. */
    ghost predicate Keyed()
      reads `slaves, `nextSlave
    {
      && nextSlave >= 1
      && (forall k :: k in slaves <==> 1 <= k < nextSlave)
      && (forall k :: k in slaves ==> slaves[k].replica)
      && (forall j, k :: j in slaves && k in slaves && j != k ==> slaves[j] != slaves[k])
    }

    ghost function SlaveAddrs(): (s: seq<Addr>)
      requires Keyed()
      reads `slaves, `nextSlave
      ensures |s| == nextSlave - 1
    {
      var n, m := nextSlave - 1, slaves;
      seq(n, i requires 0 <= i < n && i + 1 in m => m[i + 1].addr)
    }

    /** cluster_node_add_slave: a new table starts at index 1. */
    method AddSlave(s: ClusterNode)
      requires Keyed() && s.replica && s !in slaves.Values
      modifies `slaves, `nextSlave
      ensures Keyed() && slaves == old(slaves)[old(nextSlave) := s] && nextSlave == old(nextSlave) + 1
      ensures SlaveAddrs() == old(SlaveAddrs()) + [s.addr]
    {
      var index := if slaves == map[] then 1 else nextSlave;
      assert slaves == map[] ==> nextSlave == 1 by {
        if nextSlave > 1 {
          assert 1 in slaves;
        }
      }
      ghost var before := SlaveAddrs();
      slaves, nextSlave := slaves[index := s], index + 1;
      assert SlaveAddrs() == before + [s.addr];
    }
  }

  /** The result of mapping slots: done, refused by the validation, or undefined, because a range
      leaves the table. */
  datatype Mapping = Mapped | Refused | OutOfTable

  ghost predicate IsTracked(nodes: map<Addr, ClusterNode>, n: ClusterNode?) {
    n == null || (n.addr in nodes && nodes[n.addr] == n)
  }

  ghost function EmptyTable(): (s: seq<ClusterNode?>)
    ensures |s| == SLOTS
  {
    seq(SLOTS, i => null)
  }

  /** Some slot in use is covered by no row. */
  ghost predicate Strands(rows: seq<Row>, before: seq<ClusterNode?>)
    requires |before| == SLOTS
  {
    exists s :: 0 <= s < SLOTS && Owner(rows, s).None? && before[s] != null
  }

  lemma NothingStranded(rows: seq<Row>)
    ensures !Strands(rows, EmptyTable())
  {
  }

  /** Asking the seeds leaves a valid table. */
  ghost predicate RemapKeepsValid(answers: seq<SeedAnswer>, before: seq<ClusterNode?>, wasValid: bool)
    requires |before| == SLOTS
  {
    if FirstMapping(answers).Some? then MalformedFirst(answers) || !Strands(FirstMapping(answers).value, before)
    else AnySlots(answers) || wasValid
  }

  class Table {
    const master: array<ClusterNode?>
    var nodes: map<Addr, ClusterNode>

    constructor ()
      ensures fresh(master) && Sized() && nodes == map[]
      ensures forall s :: 0 <= s < SLOTS ==> master[s] == null
    {
      master := new ClusterNode?[SLOTS](_ => null);
      nodes := map[];
    }

    ghost predicate Sized() {
      master.Length == SLOTS
    }

    /** Every node is a master stored under its own address. */
    ghost predicate Keyed()
      reads `nodes, nodes.Values
    {
      forall a :: a in nodes ==> nodes[a].addr == a && IsMaster(nodes[a])
    }

    ghost predicate IsMaster(n: ClusterNode)
      reads n`slaves, n`nextSlave
    {
      !n.replica && n.Keyed()
    }

    lemma SoundAt(s: int)
      requires Sound() && 0 <= s < SLOTS
      ensures Sized() && (master[s] != null ==> IsMaster(master[s]))
    {
    }

    /** What holds of the table whatever the servers answer. */
    ghost predicate Sound()
      reads `nodes, nodes.Values, master, set s | 0 <= s < master.Length && master[s] != null :: master[s]
    {
      Sized() && Keyed() && forall s :: 0 <= s < SLOTS && master[s] != null ==> IsMaster(master[s])
    }

    /** The slot is empty, or points to the node stored under that node's address. */
    ghost predicate Tracked(s: int)
      requires 0 <= s < master.Length
      reads `nodes, master
    {
      IsTracked(nodes, master[s])
    }

    ghost predicate Valid()
      reads `nodes, nodes.Values, master
    {
      Sized() && Keyed() && forall s :: 0 <= s < SLOTS ==> Tracked(s)
    }

    ghost predicate Covering()
      requires Sized()
      reads master
    {
      forall s :: 0 <= s < SLOTS ==> master[s] != null
    }

    ghost function Address(s: int): Option<Addr>
      requires 0 <= s < master.Length
      reads master
    {
      if master[s] == null then None else Some(master[s].addr)
    }

    // -------------------------------------------------------------- CLUSTER SLOTS

    /** The node is what the rows say about its address. */
    ghost predicate NodeBuilt(n: ClusterNode, rows: seq<Row>)
      reads n
    {
      && n.Keyed() && !n.slave && !n.replica
      && n.ranges == RangesOf(rows, n.addr)
      && ReplicasOf(rows, n.addr) == Some(n.SlaveAddrs())
    }

    ghost predicate NodesBuilt(rows: seq<Row>)
      reads `nodes, nodes.Values
    {
      && (forall a :: a in nodes <==> ReplicasOf(rows, a).Some?)
      && (forall a :: a in nodes ==> nodes[a].addr == a && NodeBuilt(nodes[a], rows))
    }

    lemma BuiltIsKeyed(rows: seq<Row>)
      requires NodesBuilt(rows)
      ensures Keyed()
    {
    }

    /** Like NodesBuilt, but the ranges of one address still lack those of the last row. */
    ghost predicate AllButRange(rows: seq<Row>, row: Row)
      requires row.Row?
      reads `nodes, nodes.Values
    {
      && (forall a :: a in nodes <==> ReplicasOf(rows + [row], a).Some?)
      && (forall a :: a in nodes ==> nodes[a].addr == a)
      && (forall a :: a in nodes && a != row.addr ==> NodeBuilt(nodes[a], rows + [row]))
      && (row.addr in nodes ==>
            var n := nodes[row.addr];
            && n.Keyed() && !n.slave && !n.replica && n.ranges == RangesOf(rows, row.addr)
            && ReplicasOf(rows + [row], row.addr) == Some(n.SlaveAddrs()))
    }

    /** Covered slots point to their owner's node, the others to where they pointed before. */
    ghost predicate SlotsBuilt(rows: seq<Row>, before: seq<ClusterNode?>)
      requires Sized() && |before| == SLOTS
      reads `nodes, master
    {
      forall s :: 0 <= s < SLOTS ==>
        match Owner(rows, s)
        case Some(a) => a in nodes && master[s] == nodes[a]
        case None => master[s] == before[s]
    }

    /** A new master with the replicas of its row; fails on a malformed replica. */
    method CreateMaster(row: Row) returns (ok: bool, node: ClusterNode)
      requires row.Row?
      ensures fresh(node) && node.addr == row.addr && !node.slave && !node.replica && node.Keyed()
      ensures node.ranges == [] && node.slot == row.range.low
      ensures ok <==> BadReplica !in row.replicas
      ensures ok ==> node.SlaveAddrs() == Named(row.replicas)
    {
      node := new ClusterNode(row.addr, row.range.low, false);
      for j := 0 to |row.replicas|
        invariant node.Keyed() && BadReplica !in row.replicas[..j]
        invariant node.SlaveAddrs() == Named(row.replicas[..j])
        invariant node.ranges == [] && node.slot == row.range.low && !node.slave
      {
        assert row.replicas[..j + 1][..j] == row.replicas[..j];
        if row.replicas[j].BadReplica? {
          ok := false;
          return;
        }
        if row.replicas[j].addr.host == [] {
          continue;
        }
        var slave := new ClusterNode(row.replicas[j].addr, row.range.low, true);
        node.AddSlave(slave);
      }
      assert row.replicas[..|row.replicas|] == row.replicas;
      ok := true;
    }

    /** Every slot of the range now points to the node. */
    method Fill(r: Range, node: ClusterNode)
      requires Sized() && InTable(r)
      modifies master
      ensures forall s :: 0 <= s < SLOTS ==> master[s] == if In(s, r) then node else old(master[s])
    {
      var j := r.low;
      while j <= r.high
        invariant r.low <= j && (j <= r.high + 1 || j == r.low)
        invariant forall s :: 0 <= s < SLOTS ==> master[s] == if r.low <= s < j then node else old(master[s])
        decreases r.high - j
      {
        master[j] := node;
        j := j + 1;
      }
    }

    /** The node of the row's address, created unless it is known. */
    method NodeOfRow(row: Row, ghost rows: seq<Row>) returns (ok: bool, node: ClusterNode)
      requires row.Row? && NodesBuilt(rows)
      modifies `nodes
      ensures row.addr in nodes && nodes == old(nodes)[row.addr := node]
      ensures if row.addr in old(nodes) then node == old(nodes)[row.addr] else fresh(node)
      ensures ok <==> (ReplicasOf(rows, row.addr).None? ==> BadReplica !in row.replicas)
      ensures ok ==> AllButRange(rows, row)
      ensures Keyed()
    {
      RowAdds(rows, row, row.addr);
      AddressesLast(rows, row);
      if row.addr in nodes {
        ok, node := true, nodes[row.addr];
      } else {
        ok, node := CreateMaster(row);
        nodes := nodes[row.addr := node];
      }
      forall a | a in nodes && a != row.addr ensures nodes[a].addr == a && NodeBuilt(nodes[a], rows + [row]) {
        RowAdds(rows, row, a);
      }
    }

    /** The row's range goes to the end of its node's list. */
    method AppendRange(node: ClusterNode, row: Row, ghost rows: seq<Row>)
      requires row.Row? && AllButRange(rows, row) && row.addr in nodes && nodes[row.addr] == node
      modifies node`ranges
      ensures NodesBuilt(rows + [row])
    {
      hide RangesOf, ReplicasOf;
      RowAdds(rows, row, row.addr);
      node.ranges := node.ranges + [row.range];
      assert forall a :: a in nodes && a != row.addr ==> nodes[a] != node;
    }

    /** One row of the reply: cluster_map_slots' loop body. */
    method MapRow(row: Row, ghost rows: seq<Row>, ghost before: seq<ClusterNode?>) returns (m: Mapping)
      requires Sized() && |before| == SLOTS
      requires NodesBuilt(rows) && SlotsBuilt(rows, before)
      modifies `nodes, master, nodes.Values
      ensures forall a :: a in nodes ==> nodes[a] in old(nodes.Values) || fresh(nodes[a])
      ensures m.Refused? <==> !(row.Row? && (ReplicasOf(rows, row.addr).None? ==> BadReplica !in row.replicas))
      ensures m.OutOfTable? <==> !m.Refused? && !InTable(row.range)
      ensures m.Mapped? ==> NodesBuilt(rows + [row]) && SlotsBuilt(rows + [row], before)
      ensures !m.Mapped? ==> master[..] == old(master[..])
      ensures Keyed() && forall a :: a in old(nodes) ==> a in nodes && nodes[a] == old(nodes)[a]
    {
      hide RangesOf, ReplicasOf, Owner, Named, NodesBuilt, AllButRange;
      BuiltIsKeyed(rows);
      if row.BadRow? {
        return Refused;
      }
      var ok, node := NodeOfRow(row, rows);
      if !ok {
        return Refused;
      }
      if !InTable(row.range) {
        return OutOfTable;
      }
      assert SlotsBuilt(rows, before);
      Fill(row.range, node);
      AppendRange(node, row, rows);
      OwnerLast(rows, row);
      m := Mapped;
    }

    /** cluster_map_slots. All nodes are new afterwards. */
    method MapSlots(rows: seq<Row>) returns (m: Mapping)
      requires Sized()
      modifies `nodes, master
      ensures Keyed() && forall a :: a in nodes ==> fresh(nodes[a])
      ensures OnlyKnown(old(master[..]))
      ensures m.OutOfTable? <==> Wild(rows)
      ensures m.Mapped? <==> !Wild(rows) && Acceptable(rows)
      ensures m.Mapped? ==> NodesBuilt(rows) && SlotsBuilt(rows, old(master[..]))
      ensures m.Mapped? ==> (Valid() <==> !Strands(rows, old(master[..])))
    {
      hide NodesBuilt, Wild, Acceptable, Valid, Strands;
      ghost var before := master[..];
      nodes := map[];
      NothingMapped(before);
      for i := 0 to |rows|
        invariant Keyed() && forall a :: a in nodes ==> fresh(nodes[a])
        invariant !Wild(rows[..i]) && Acceptable(rows[..i])
        invariant NodesBuilt(rows[..i]) && SlotsBuilt(rows[..i], before)
      {
        BuiltIsKnown(rows[..i], before);
        m := MapRow(rows[i], rows[..i], before);
        RowDecides(rows, i);
        if !m.Mapped? {
          return;
        }
        assert rows[..i + 1] == rows[..i] + [rows[i]];
      }
      assert rows[..|rows|] == rows;
      BuiltIsKnown(rows, before);
      ValidUnlessStranded(rows, before);
      m := Mapped;
    }

    /** A slot is empty, or points to a known node or to where it did before. */
    ghost predicate OnlyKnown(before: seq<ClusterNode?>)
      requires Sized() && |before| == SLOTS
      reads `nodes, master
    {
      forall s :: 0 <= s < SLOTS && master[s] != null ==> master[s] in nodes.Values || master[s] == before[s]
    }

    lemma BuiltIsKnown(rows: seq<Row>, before: seq<ClusterNode?>)
      requires Sized() && |before| == SLOTS && SlotsBuilt(rows, before)
      ensures OnlyKnown(before)
    {
    }

    lemma NothingMapped(before: seq<ClusterNode?>)
      requires Sized() && nodes == map[] && master[..] == before
      ensures NodesBuilt([]) && SlotsBuilt([], before) && !Wild([]) && Acceptable([])
    {
    }

    /** Rows that cover every slot in use leave a valid table. Any other slot keeps a node that is
        no longer known: its address is not, or it is that of a new node. */
    lemma ValidUnlessStranded(rows: seq<Row>, before: seq<ClusterNode?>)
      requires Sized() && Keyed() && |before| == SLOTS && SlotsBuilt(rows, before)
      requires forall s :: 0 <= s < SLOTS && before[s] != null ==> before[s] !in nodes.Values
      ensures Valid() <==> !Strands(rows, before)
    {
      hide Owner, NodesBuilt, IsMaster;
      if !Strands(rows, before) {
        forall s | 0 <= s < SLOTS ensures Tracked(s) {
          assert Owner(rows, s).None? ==> before[s] == null;
        }
      } else {
        var s :| 0 <= s < SLOTS && Owner(rows, s).None? && before[s] != null;
        assert master[s] == before[s] && !Tracked(s);
      }
    }

    /** What asking the seeds leaves behind: the first acceptable reply is mapped, and a slot it
        does not cover keeps what it had, which a malformed reply before has erased. Without an
        acceptable reply, malformed replies empty every slot. */
    ghost predicate Remapped(answers: seq<SeedAnswer>, nodesBefore: map<Addr, ClusterNode>, before: seq<ClusterNode?>)
      requires Sized() && |before| == SLOTS
      reads `nodes, nodes.Values, master
    {
      if FirstMapping(answers).Some? then
        && NodesBuilt(FirstMapping(answers).value)
        && SlotsBuilt(FirstMapping(answers).value, if MalformedFirst(answers) then EmptyTable() else before)
      else if AnySlots(answers) then !HasNode()
      else nodes == nodesBefore && master[..] == before
    }

    ghost predicate HasNode()
      reads master
    {
      exists s :: 0 <= s < master.Length && master[s] != null
    }

    /** cluster_map_keyspace: ask the seeds in turn until one reply maps. The table is valid
        afterwards unless the first slot map is acceptable and strands a slot, or none arrived and
        it was not valid before. */
    method MapKeyspace(answers: seq<SeedAnswer>) returns (m: Mapping)
      requires Sized() && Keyed()
      modifies `nodes, master
      ensures Keyed() && forall a :: a in nodes ==> fresh(nodes[a]) || nodes[a] in old(nodes.Values)
      ensures OnlyKnown(old(master[..]))
      ensures m.OutOfTable? <==> WildAnswers(answers)
      ensures m.Mapped? ==> FirstMapping(answers).Some?
      ensures m.Refused? ==> FirstMapping(answers).None?
      ensures !m.OutOfTable? ==> Remapped(answers, old(nodes), old(master[..]))
      ensures !m.OutOfTable? ==> (Valid() <==> RemapKeepsValid(answers, old(master[..]), old(Valid())))
    {
      hide Valid, Wild, Acceptable, NodesBuilt, Strands, SlotsBuilt;
      ghost var before := master[..];
      ValidMeans();
      var i := 0;
      while i < |answers|
        invariant i <= |answers| && FirstMapping(answers) == FirstMapping(answers[i..])
        invariant AnySlots(answers) <==> AnySlots(answers[..i]) || AnySlots(answers[i..])
        invariant MalformedFirst(answers) <==> AnySlots(answers[..i]) || MalformedFirst(answers[i..])
        invariant WildAnswers(answers) <==> WildAnswers(answers[i..])
        invariant Keyed() && forall a :: a in nodes ==> fresh(nodes[a]) || nodes[a] in old(nodes.Values)
        invariant OnlyKnown(before)
        invariant if AnySlots(answers[..i]) then !HasNode() else nodes == old(nodes) && master[..] == before
      {
        AnySlotsSplit(answers, i);
        assert answers[i..][0] == answers[i] && answers[i..][1..] == answers[i + 1..];
        if answers[i].Slots? {
          ghost var was := master[..];
          m := MapSlots(answers[i].rows);
          if !m.Refused? {
            assert AnySlots(answers[..i]) ==> was == EmptyTable();
            NothingStranded(answers[i].rows);
            return;
          }
          forall s | 0 <= s < master.Length {
            master[s] := null;
          }
        }
        i := i + 1;
      }
      assert answers[..i] == answers;
      ValidAfterRefusal(old(nodes), before, AnySlots(answers), old(Valid()));
      m := Refused;
    }

    lemma ValidMeans()
      requires Sized() && Keyed()
      ensures Valid() <==> forall s :: 0 <= s < SLOTS ==> IsTracked(nodes, master[..][s])
      ensures OnlyKnown(master[..])
    {
      assert forall s :: 0 <= s < SLOTS ==> master[..][s] == master[s];
      if forall s :: 0 <= s < SLOTS ==> IsTracked(nodes, master[..][s]) {
        forall s | 0 <= s < SLOTS ensures Tracked(s) {
          assert IsTracked(nodes, master[..][s]);
        }
      }
      if Valid() {
        forall s | 0 <= s < SLOTS ensures IsTracked(nodes, master[..][s]) {
          assert Tracked(s);
        }
      }
    }

    lemma ValidAfterRefusal(nodesBefore: map<Addr, ClusterNode>, before: seq<ClusterNode?>, emptied: bool, wasValid: bool)
      requires Sized() && Keyed() && |before| == SLOTS
      requires if emptied then !HasNode() else nodes == nodesBefore && master[..] == before
      requires wasValid <==> forall s :: 0 <= s < SLOTS ==> IsTracked(nodesBefore, before[s])
      ensures Valid() <==> emptied || wasValid
    {
      ValidMeans();
      if emptied {
        assert forall s :: 0 <= s < SLOTS ==> master[..][s] == null;
      }
    }

    // -------------------------------------------------------------- MOVED

    /** Is the address one of the node's replicas? */
    method IsReplicaOf(node: ClusterNode, addr: Addr) returns (found: bool)
      ensures found <==> exists k :: k in node.slaves && node.slaves[k].addr == addr
    {
      var keys := node.slaves.Keys;
      while keys != {}
        invariant keys <= node.slaves.Keys
        invariant forall k :: k in node.slaves && k !in keys ==> node.slaves[k].addr != addr
        decreases |keys|
      {
        var k :| k in keys;
        if node.slaves[k].addr == addr {
          return true;
        }
        keys := keys - {k};
      }
      return false;
    }

    /** A failover: the redirection names a replica of the slot's owner that is not a known node. */
    ghost predicate Failover(slot: int, addr: Addr)
      requires 0 <= slot < master.Length
      reads `nodes, master, master[slot]
    {
      && master[slot] != null && master[slot].addr != addr && addr !in nodes
      && exists k :: k in master[slot].slaves && master[slot].slaves[k].addr == addr
    }

    /** MOVED names an unknown address for the slot of a node without replicas. The table of replicas
        is only allocated with the first one, and the search for a failover walks it unguarded. */
    ghost predicate Bare(slot: int, addr: Addr)
      requires 0 <= slot < master.Length
      reads `nodes, master, (if master[slot] == null then {} else {master[slot] as ClusterNode})`slaves
    {
      master[slot] != null && master[slot].addr != addr && addr !in nodes && master[slot].slaves == map[]
    }

    lemma NotBare(s: int, a: Addr)
      requires 0 <= s < master.Length && Address(s) == Some(a)
      ensures !Bare(s, a)
    {
    }

    /** Following the redirection dereferences no null pointer and writes nothing outside the table. */
    ghost predicate Follows(slot: int, addr: Addr, answers: seq<SeedAnswer>)
      requires 0 <= slot < master.Length
      reads `nodes, master, master[slot]
    {
      !Bare(slot, addr) && (Failover(slot, addr) ==> !WildAnswers(answers))
    }

    /** A reply that covers every slot leaves a valid table that agrees with the reply. */
    lemma CoveredIsValid(answers: seq<SeedAnswer>, nodesBefore: map<Addr, ClusterNode>, before: seq<ClusterNode?>)
      requires Sized() && Keyed() && |before| == SLOTS && Remapped(answers, nodesBefore, before)
      requires FirstMapping(answers).Some? && CoversAll(FirstMapping(answers).value)
      ensures Valid() && Covering()
      ensures forall s :: 0 <= s < SLOTS ==> Address(s) == Owner(FirstMapping(answers).value, s)
    {
      hide Owner, FirstMapping, NodesBuilt;
      var rows := FirstMapping(answers).value;
      forall s | 0 <= s < SLOTS ensures Tracked(s) && master[s] != null && Address(s) == Owner(rows, s) {
        assert Owner(rows, s).Some?;
      }
    }

    /** The node of an address, created if it is unknown, and remembered only on request. */
    method NodeFor(slot: int, addr: Addr, remember: bool) returns (node: ClusterNode)
      requires Keyed()
      modifies `nodes
      ensures Keyed() && node.addr == addr && IsMaster(node)
      ensures if addr in old(nodes) then node == old(nodes)[addr] else fresh(node)
      ensures nodes == if addr !in old(nodes) && remember then old(nodes)[addr := node] else old(nodes)
    {
      if addr in nodes {
        node := nodes[addr];
      } else {
        node := new ClusterNode(addr, slot, false);
        if remember {
          nodes := nodes[addr := node];
        }
      }
    }

    /** The slot points to the address's node. A new node is only remembered when the slot had one
        before. */
    method Repoint(slot: int, addr: Addr)
      requires Sized() && Keyed() && 0 <= slot < SLOTS
      modifies `nodes, master, nodes.Values`slot, nodes.Values`slave
      ensures Keyed() && master[slot] != null && master[slot].addr == addr && IsMaster(master[slot])
      ensures master[..] == old(master[..])[slot := master[slot]]
      ensures if addr in old(nodes) then master[slot] == old(nodes)[addr] else fresh(master[slot])
      ensures nodes == if addr !in old(nodes) && old(master[slot]) != null
                       then old(nodes)[addr := master[slot]] else old(nodes)
    {
      hide IsMaster;
      ghost var before := master[..];
      var node := NodeFor(slot, addr, master[slot] != null);
      master[slot] := node;
      assert master[..] == before[slot := node];
      node.slot := slot;
      node.slave := false;
    }

    /** What pointing a slot elsewhere does to a valid table. */
    lemma ValidAfterRepoint(nodesBefore: map<Addr, ClusterNode>, before: seq<ClusterNode?>, slot: int, addr: Addr)
      requires Sized() && Keyed() && |before| == SLOTS && 0 <= slot < SLOTS
      requires forall s :: 0 <= s < SLOTS ==> IsTracked(nodesBefore, before[s])
      requires master[slot] != null && master[slot].addr == addr && master[..] == before[slot := master[slot]]
      requires addr in nodesBefore ==> master[slot] == nodesBefore[addr]
      requires nodes == if addr !in nodesBefore && before[slot] != null then nodesBefore[addr := master[slot]] else nodesBefore
      ensures Valid() <==> before[slot] != null || addr in nodesBefore
    {
      hide Valid;
      ValidMeans();
      assert IsTracked(nodes, master[..][slot]) <==> before[slot] != null || addr in nodesBefore;
      forall s | 0 <= s < SLOTS && s != slot ensures IsTracked(nodes, master[..][s]) {
        assert master[..][s] == before[s] && IsTracked(nodesBefore, before[s]);
      }
    }

    lemma RepointedIsSound(before: seq<ClusterNode?>, slot: int)
      requires Sized() && Keyed() && |before| == SLOTS && 0 <= slot < SLOTS
      requires master[..] == before[slot := master[slot]] && master[slot] != null && IsMaster(master[slot])
      requires forall s :: 0 <= s < SLOTS && before[s] != null ==> IsMaster(before[s])
      ensures Sound() && forall s :: 0 <= s < SLOTS && s != slot ==> master[s] == before[s]
    {
      forall s | 0 <= s < SLOTS && s != slot ensures master[s] == before[s] {
        assert master[..][s] == before[s];
      }
    }

    /** Repoint, and what it does to the table as a whole. */
    method PointTo(slot: int, addr: Addr)
      requires Sound() && 0 <= slot < SLOTS
      modifies `nodes, master, nodes.Values`slot, nodes.Values`slave
      ensures Sound() && forall a :: a in nodes ==> fresh(nodes[a]) || nodes[a] in old(nodes.Values)
      ensures Address(slot) == Some(addr) && (forall s :: 0 <= s < SLOTS && s != slot ==> master[s] == old(master[s]))
      ensures forall a :: a in old(nodes) ==> a in nodes && nodes[a] == old(nodes)[a]
      ensures forall s, a :: 0 <= s < SLOTS && s != slot && Bare(s, a) ==> old(Bare(s, a))
      ensures old(Valid()) ==> (Valid() <==> old(master[slot] != null || addr in nodes))
    {
      hide Valid;
      ghost var nodesBefore, before, wasValid := nodes, master[..], Valid();
      ValidMeans();
      Repoint(slot, addr);
      if wasValid {
        ValidAfterRepoint(nodesBefore, before, slot, addr);
      }
      RepointedIsSound(before, slot);
    }

    /** Following the redirection keeps a valid table valid: a failover remap must not strand a
        slot, and without a failover the slot was in use or the address is known. */
    ghost predicate KeepsValid(slot: int, addr: Addr, answers: seq<SeedAnswer>)
      requires Sized() && 0 <= slot < SLOTS
      reads `nodes, nodes.Values, master, master[slot]
    {
      if Failover(slot, addr) then RemapKeepsValid(answers, master[..], true)
      else master[slot] != null || addr in nodes
    }

    /** cluster_update_slot. Where it is defined, it changes one slot, which ends at the redirected
        address, or remaps after a failover. Whether a valid table stays valid is decided exactly by
        KeepsValid. A null table of replicas is met before anything has changed. */
    method UpdateSlot(slot: int, addr: Addr, answers: seq<SeedAnswer>) returns (ok: bool)
      requires Sound() && 0 <= slot < SLOTS
      modifies `nodes, master, nodes.Values`slot, nodes.Values`slave
      ensures Sound() && forall a :: a in nodes ==> fresh(nodes[a]) || nodes[a] in old(nodes.Values)
      ensures ok <==> old(Follows(slot, addr, answers))
      ensures ok && !old(Failover(slot, addr)) ==>
                && Address(slot) == Some(addr)
                && (forall s :: 0 <= s < SLOTS && s != slot ==> master[s] == old(master[s]))
                && (forall a :: a in old(nodes) ==> a in nodes && nodes[a] == old(nodes)[a])
                && (forall s, a :: 0 <= s < SLOTS && s != slot && Bare(s, a) ==> old(Bare(s, a)))
      ensures ok && old(Failover(slot, addr)) ==> Remapped(answers, old(nodes), old(master[..]))
      ensures ok && old(Valid()) ==> (Valid() <==> old(KeepsValid(slot, addr, answers)))
      ensures old(Bare(slot, addr)) ==>
                && nodes == old(nodes) && master[..] == old(master[..]) && Valid() == old(Valid())
                && (forall s, a :: 0 <= s < SLOTS ==> (Bare(s, a) <==> old(Bare(s, a))))
    {
      hide Valid, FirstMapping, NodesBuilt, Remapped, RemapKeepsValid, WildAnswers;
      ok := true;
      if master[slot] != null {
        if master[slot].addr == addr {
          return;
        }
        if addr !in nodes {
          if master[slot].slaves == map[] {
            return false;
          }
          var failover := IsReplicaOf(master[slot], addr);
          if failover {
            var m := MapKeyspace(answers);
            return !m.OutOfTable?;
          }
        }
      }
      PointTo(slot, addr);
    }
  }

  /** A serves every slot, with these replicas. */
  function OneMaster(a: Addr, replicas: seq<Replica>): seq<Row> {
    [Row(Range(0, SLOTS - 1), a, replicas)]
  }

  method ServedByOne(a: Addr, replicas: seq<Replica>) returns (t: Table)
    requires a.host != [] && BadReplica !in replicas
    ensures fresh(t) && fresh(t.master) && t.Sound() && t.Valid() && forall x :: x in t.nodes ==> fresh(t.nodes[x])
    ensures t.nodes.Keys == {a} && forall s :: 0 <= s < SLOTS ==> t.master[s] == t.nodes[a]
    ensures t.nodes[a].addr == a && t.nodes[a].Keyed() && t.nodes[a].SlaveAddrs() == Named(replicas)
  {
    hide Table.NodesBuilt, Table.SlotsBuilt, Table.Valid, Strands, Owner, ReplicasOf, Acceptable, Wild;
    ServingRows(a, replicas);
    t := new Table();
    var before := EmptyTable();
    assert t.master[..] == before;
    var m := t.MapSlots(OneMaster(a, replicas));
    ServingTable(t, a, replicas, before);
  }

  lemma ServingTable(t: Table, a: Addr, replicas: seq<Replica>, before: seq<ClusterNode?>)
    requires t.Sized() && |before| == SLOTS && a.host != [] && BadReplica !in replicas
    requires t.Keyed() && t.NodesBuilt(OneMaster(a, replicas)) && t.SlotsBuilt(OneMaster(a, replicas), before)
    ensures t.nodes.Keys == {a} && (forall s :: 0 <= s < SLOTS ==> t.master[s] == t.nodes[a])
    ensures t.nodes[a].addr == a && t.nodes[a].Keyed() && t.nodes[a].SlaveAddrs() == Named(replicas)
    ensures !Strands(OneMaster(a, replicas), before)
  {
    hide Owner, ReplicasOf;
    ServingRows(a, replicas);
  }

  /** A slot map that lacks slots strands one: B takes over from A, slot 0 is moved to B, and the
      seeds only know about slot 0. */
  method IncompleteMapStrands() returns (t: Table, ghost wasValid: bool)
    ensures t.Sized() && wasValid && !t.Valid()
    ensures t.master[1] != null && t.master[1].addr !in t.nodes
  {
    hide Table.Valid, IsTracked, Table.Failover, Table.Bare, Owner, ReplicasOf, Acceptable, Wild, WildAnswers, FirstMapping;
    var a, b := Addr([65], 7000), Addr([66], 7000);
    var partial := [Row(Range(0, 0), b, [])];
    t := ServedByOne(a, [Replica(b)]);
    assert Named([Replica(b)]) == [b];
    TakesOver(t, a, b);
    wasValid := t.Valid();
    PartialRows(b, t.master[..]);
    ghost var before := t.master[..];
    assert before[1] == t.nodes[a];
    var ok := t.UpdateSlot(0, b, [Slots(partial)]);
    assert t.SlotsBuilt(partial, before);
  }

  lemma TakesOver(t: Table, a: Addr, b: Addr)
    requires t.Sized() && a != b && b.host != [] && t.nodes.Keys == {a} && t.master[0] == t.nodes[a]
    requires t.nodes[a].addr == a && t.nodes[a].Keyed() && t.nodes[a].SlaveAddrs() == [b]
    ensures t.Failover(0, b) && !t.Bare(0, b)
  {
    assert t.master[0].slaves[1].addr == t.master[0].SlaveAddrs()[0];
  }

  /** A node joins a cluster without replicas, and slot 0 is moved to it: undefined. */
  method NewMasterUndefined() returns (t: Table, ok: bool)
    ensures t.Sized() && t.Valid() && t.Covering() && !ok
  {
    hide Table.Valid, Table.Failover, Owner, ReplicasOf, Acceptable, Wild;
    var a, b := Addr([65], 7000), Addr([66], 7000);
    t := ServedByOne(a, []);
    BareMaster(t.nodes[a]);
    assert t.Bare(0, b);
    ghost var before := t.master[..];
    assert forall s :: 0 <= s < SLOTS ==> before[s] != null;
    ok := t.UpdateSlot(0, b, []);
    assert forall s :: 0 <= s < SLOTS ==> t.master[..][s] == before[s];
  }

  lemma BareMaster(n: ClusterNode)
    requires n.Keyed() && n.SlaveAddrs() == []
    ensures n.slaves == map[]
  {
  }

  lemma OneRow(r: Row)
    requires r.Row?
    ensures Acceptable([r]) <==> BadReplica !in r.replicas
    ensures Wild([r]) <==> Acceptable([r]) && !InTable(r.range)
    ensures forall s: int :: Owner([r], s) == if In(s, r.range) then Some(r.addr) else None
    ensures forall x :: ReplicasOf([r], x) == if x == r.addr then Some(Named(r.replicas)) else None
  {
    assert [r][..0] == [];
  }

  lemma ServingRows(a: Addr, replicas: seq<Replica>)
    requires BadReplica !in replicas
    ensures var rows := OneMaster(a, replicas);
            && Acceptable(rows) && !Wild(rows)
            && (forall s :: 0 <= s < SLOTS ==> Owner(rows, s) == Some(a))
            && ReplicasOf(rows, a) == Some(Named(replicas)) && forall x :: x != a ==> ReplicasOf(rows, x).None?
  {
    OneRow(Row(Range(0, SLOTS - 1), a, replicas));
  }

  lemma PartialRows(b: Addr, before: seq<ClusterNode?>)
    requires |before| == SLOTS && before[1] != null
    ensures var rows := [Row(Range(0, 0), b, [])];
            && !MalformedFirst([Slots(rows)]) && !WildAnswers([Slots(rows)]) && FirstMapping([Slots(rows)]) == Some(rows)
            && Owner(rows, 1).None? && Strands(rows, before) && forall x :: x != b ==> ReplicasOf(rows, x).None?
  {
    OneRow(Row(Range(0, 0), b, []));
  }

  lemma AnySlotsSplit(answers: seq<SeedAnswer>, i: nat)
    requires i < |answers|
    ensures AnySlots(answers[..i + 1]) <==> AnySlots(answers[..i]) || answers[i].Slots?
    ensures AnySlots(answers) <==> AnySlots(answers[..i + 1]) || AnySlots(answers[i + 1..])
  {
    if AnySlots(answers[..i]) {
      var k :| 0 <= k < i && answers[..i][k].Slots?;
      assert answers[..i + 1][k].Slots?;
    }
    if answers[i].Slots? {
      assert answers[..i + 1][i].Slots?;
    }
    if AnySlots(answers) {
      var k :| 0 <= k < |answers| && answers[k].Slots?;
      if k <= i {
        assert answers[..i + 1][k].Slots?;
      } else {
        assert answers[i + 1..][k - i - 1].Slots?;
      }
    }
    if AnySlots(answers[i + 1..]) {
      var k :| 0 <= k < |answers| - i - 1 && answers[i + 1..][k].Slots?;
      assert answers[k + i + 1].Slots?;
    }
    if AnySlots(answers[..i + 1]) {
      var k :| 0 <= k < i + 1 && answers[..i + 1][k].Slots?;
      assert answers[k].Slots?;
      assert k < i ==> answers[..i][k].Slots?;
    }
  }

  lemma OwnerLast(rows: seq<Row>, row: Row)
    requires row.Row?
    ensures forall s: int :: Owner(rows + [row], s) == if In(s, row.range) then Some(row.addr) else Owner(rows, s)
  {
    assert (rows + [row])[..|rows|] == rows;
  }

  lemma AddressesLast(rows: seq<Row>, row: Row)
    requires row.Row?
    ensures forall a :: ReplicasOf(rows + [row], a).Some? <==> a == row.addr || ReplicasOf(rows, a).Some?
  {
    assert (rows + [row])[..|rows|] == rows;
  }

  lemma RowAdds(rows: seq<Row>, row: Row, a: Addr)
    requires row.Row?
    ensures RangesOf(rows + [row], a) == if row.addr == a then RangesOf(rows, a) + [row.range] else RangesOf(rows, a)
    ensures ReplicasOf(rows + [row], a)
            == if row.addr == a && ReplicasOf(rows, a).None? then Some(Named(row.replicas)) else ReplicasOf(rows, a)
    ensures ReplicasOf(rows, a).None? ==> RangesOf(rows, a) == []
  {
    assert (rows + [row])[..|rows|] == rows;
    NoReplicasNoRanges(rows, a);
  }

  lemma {:induction false} NoReplicasNoRanges(rows: seq<Row>, a: Addr)
    ensures ReplicasOf(rows, a).None? ==> RangesOf(rows, a) == []
  {
    if rows != [] {
      NoReplicasNoRanges(rows[..|rows| - 1], a);
    }
  }

  /** Whether mapping goes on after row i, fails, or leaves the table. */
  lemma RowDecides(rows: seq<Row>, i: nat)
    requires i < |rows| && !Wild(rows[..i]) && Acceptable(rows[..i])
    ensures Acceptable(rows[..i + 1]) <==>
              rows[i].Row? && (ReplicasOf(rows[..i], rows[i].addr).None? ==> BadReplica !in rows[i].replicas)
    ensures !Acceptable(rows[..i + 1]) ==> !Acceptable(rows) && !Wild(rows)
    ensures Acceptable(rows[..i + 1]) && !InTable(rows[i].range) ==> Wild(rows)
    ensures Acceptable(rows[..i + 1]) && InTable(rows[i].range) ==> !Wild(rows[..i + 1])
  {
    AcceptablePrefix(rows, i);
    assert rows[..i + 1][..i] == rows[..i];
    WildPrefix(rows, i + 1);
  }

  lemma {:induction false} WildPrefix(rows: seq<Row>, k: nat)
    requires k <= |rows|
    ensures Wild(rows[..k]) ==> Wild(rows)
    ensures !Wild(rows[..k]) && !Acceptable(rows[..k]) ==> !Wild(rows) && !Acceptable(rows)
  {
    if k == |rows| {
      assert rows[..k] == rows;
    } else {
      var n := |rows| - 1;
      WildPrefix(rows[..n], k);
      assert rows[..n][..k] == rows[..k];
    }
  }

  /** A row that fails makes the whole reply fail. */
  lemma {:induction false} AcceptablePrefix(rows: seq<Row>, i: nat)
    requires i < |rows|
    ensures Acceptable(rows[..i + 1]) <==>
              Acceptable(rows[..i]) && rows[i].Row?
              && (ReplicasOf(rows[..i], rows[i].addr).None? ==> BadReplica !in rows[i].replicas)
    ensures Acceptable(rows) ==> Acceptable(rows[..i + 1])
    decreases |rows|
  {
    assert rows[..i + 1][..i] == rows[..i];
    if i + 1 < |rows| {
      var n := |rows| - 1;
      if Acceptable(rows) {
        AcceptablePrefix(rows[..n], i);
        assert rows[..n][..i + 1] == rows[..i + 1];
      }
    } else {
      assert rows[..i + 1] == rows;
    }
  }
}
