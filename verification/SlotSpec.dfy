/**
 What CLUSTER SLOTS says and what the slot cache stores, as values: which address owns a slot,
 which ranges and which replicas belong to an address.
 */
module SlotSpec {
  import opened Bytes
  import opened Shuffle

  const SLOTS: nat := 16384

  datatype Addr = Addr(host: bytes, port: nat)

  datatype Range = Range(low: int, high: int)

  /** A replica entry; BadReplica fails the reply's validation. */
  datatype Replica = BadReplica | Replica(addr: Addr)

  /** A row of the reply; BadRow fails the reply's validation. */
  datatype Row = BadRow | Row(range: Range, addr: Addr, replicas: seq<Replica>)

  /** One entry of the slot cache. */
  datatype CachedMaster = CachedMaster(host: Addr, slots: seq<Range>, slaves: seq<Addr>)

  predicate In(s: int, r: Range) {
    r.low <= s <= r.high
  }

  /** Filling the range stays within the slot table. */
  predicate InTable(r: Range) {
    r.low <= r.high ==> 0 <= r.low && r.high < SLOTS
  }

  // ---------------------------------------------------------------- CLUSTER SLOTS

  /** A replica list that passes validation, without the replicas that have no host. */
  function Named(rs: seq<Replica>): seq<Addr> {
    if rs == [] then []
    else
      var front := Named(rs[..|rs| - 1]);
      var r := rs[|rs| - 1];
      if r.BadReplica? || r.addr.host == [] then front else front + [r.addr]
  }

  /** The address in the last row that covers the slot. */
  function Owner(rows: seq<Row>, s: int): Option<Addr> {
    if rows == [] then None
    else
      var r := rows[|rows| - 1];
      if r.Row? && In(s, r.range) then Some(r.addr) else Owner(rows[..|rows| - 1], s)
  }

  /** The rows of an address, as ranges. */
  function RangesOf(rows: seq<Row>, a: Addr): seq<Range> {
    if rows == [] then []
    else
      var front := RangesOf(rows[..|rows| - 1], a);
      var r := rows[|rows| - 1];
      if r.Row? && r.addr == a then front + [r.range] else front
  }

  /** The replicas in the first row of an address. */
  function ReplicasOf(rows: seq<Row>, a: Addr): Option<seq<Addr>> {
    if rows == [] then None
    else
      var front := ReplicasOf(rows[..|rows| - 1], a);
      var r := rows[|rows| - 1];
      if front.None? && r.Row? && r.addr == a then Some(Named(r.replicas)) else front
  }

  /** The reply passes validation. Replicas are only looked at in an address's first row. */
  predicate Acceptable(rows: seq<Row>) {
    rows == [] ||
    (var r := rows[|rows| - 1];
     && Acceptable(rows[..|rows| - 1]) && r.Row?
     && (ReplicasOf(rows[..|rows| - 1], r.addr).None? ==> BadReplica !in r.replicas))
  }

  /** Mapping the rows writes outside the slot table, before any row fails. */
  predicate Wild(rows: seq<Row>) {
    rows != [] &&
    (var n := |rows| - 1;
     Wild(rows[..n]) || (Acceptable(rows) && !InTable(rows[n].range)))
  }

  /** What a seed says when asked for the slots. */
  datatype SeedAnswer = Unreachable | NoSlots | Slots(rows: seq<Row>)

  /** The first acceptable reply among the seeds' answers. */
  function FirstMapping(answers: seq<SeedAnswer>): Option<seq<Row>> {
    if answers == [] then None
    else if answers[0].Slots? && Acceptable(answers[0].rows) then Some(answers[0].rows)
    else FirstMapping(answers[1..])
  }

  /** Mapping the answers writes outside the slot table. */
  predicate WildAnswers(answers: seq<SeedAnswer>) {
    answers != [] &&
    if answers[0].Slots? then Wild(answers[0].rows) || (!Acceptable(answers[0].rows) && WildAnswers(answers[1..]))
    else WildAnswers(answers[1..])
  }

  /** The first slot map among the answers is malformed, which empties every slot. */
  predicate MalformedFirst(answers: seq<SeedAnswer>) {
    answers != [] && if answers[0].Slots? then !Acceptable(answers[0].rows) else MalformedFirst(answers[1..])
  }

  predicate AnySlots(answers: seq<SeedAnswer>) {
    exists i :: 0 <= i < |answers| && answers[i].Slots?
  }

  predicate CoversAll(rows: seq<Row>) {
    forall s :: 0 <= s < SLOTS ==> Owner(rows, s).Some?
  }

  // ---------------------------------------------------------------- the cache

  predicate Covers(ranges: seq<Range>, s: int) {
    exists i :: 0 <= i < |ranges| && In(s, ranges[i])
  }

  /** The host of the last entry, in the order of loading, that covers the slot. */
  function CachedOwner(order: seq<CachedMaster>, s: int): Option<Addr> {
    if order == [] then None
    else if Covers(order[|order| - 1].slots, s) then Some(order[|order| - 1].host)
    else CachedOwner(order[..|order| - 1], s)
  }

  /** The cache holds one entry for each address of the reply, with its ranges and replicas. */
  ghost predicate Caches(cache: seq<CachedMaster>, rows: seq<Row>) {
    && (forall i :: 0 <= i < |cache| ==> IsEntry(cache[i], rows))
    && (forall i, j :: 0 <= i < j < |cache| ==> cache[i].host != cache[j].host)
    && (forall a :: ReplicasOf(rows, a).Some? ==> HasHost(cache, a))
  }

  predicate IsEntry(m: CachedMaster, rows: seq<Row>) {
    ReplicasOf(rows, m.host) == Some(m.slaves) && m.slots == RangesOf(rows, m.host)
  }

  predicate HasHost(cache: seq<CachedMaster>, a: Addr) {
    exists i :: 0 <= i < |cache| && cache[i].host == a
  }

  // ---------------------------------------------------------------- the round trip, on values

  /** No slot is given to two addresses. */
  predicate Unambiguous(rows: seq<Row>, s: int) {
    forall i, j :: 0 <= i < j < |rows| && rows[i].Row? && rows[j].Row? && In(s, rows[i].range) && In(s, rows[j].range)
      ==> rows[i].addr == rows[j].addr
  }

  predicate RowCovers(rows: seq<Row>, a: Addr, s: int) {
    exists i :: 0 <= i < |rows| && rows[i].Row? && rows[i].addr == a && In(s, rows[i].range)
  }

  lemma RowCoversLast(rows: seq<Row>, a: Addr, s: int)
    requires rows != []
    ensures var n := |rows| - 1;
            RowCovers(rows, a, s) <==> RowCovers(rows[..n], a, s) || (rows[n].Row? && rows[n].addr == a && In(s, rows[n].range))
  {
    var n := |rows| - 1;
    if RowCovers(rows[..n], a, s) {
      var i :| 0 <= i < n && rows[..n][i].Row? && rows[..n][i].addr == a && In(s, rows[..n][i].range);
      assert rows[i] == rows[..n][i];
    }
    if RowCovers(rows, a, s) {
      var i :| 0 <= i < |rows| && rows[i].Row? && rows[i].addr == a && In(s, rows[i].range);
      if i < n {
        assert rows[..n][i] == rows[i];
      }
    }
  }

  lemma {:induction false} RangesCover(rows: seq<Row>, a: Addr, s: int)
    ensures Covers(RangesOf(rows, a), s) <==> RowCovers(rows, a, s)
  {
    if rows != [] {
      var n := |rows| - 1;
      var front, r := rows[..n], rows[n];
      RangesCover(front, a, s);
      RowCoversLast(rows, a, s);
      if r.Row? && r.addr == a {
        CoversLast(RangesOf(front, a), r.range, s);
      }
    }
  }

  lemma CoversLast(ranges: seq<Range>, r: Range, s: int)
    ensures Covers(ranges + [r], s) <==> Covers(ranges, s) || In(s, r)
  {
    if Covers(ranges, s) {
      var i :| 0 <= i < |ranges| && In(s, ranges[i]);
      assert (ranges + [r])[i] == ranges[i];
    }
    if In(s, r) {
      assert (ranges + [r])[|ranges|] == r;
    }
    if Covers(ranges + [r], s) && !In(s, r) {
      var i :| 0 <= i < |ranges| + 1 && In(s, (ranges + [r])[i]);
      assert i < |ranges| && ranges[i] == (ranges + [r])[i];
    }
  }

  lemma {:induction false} OwnerCovers(rows: seq<Row>, s: int)
    ensures Owner(rows, s).Some? ==> RowCovers(rows, Owner(rows, s).value, s)
    ensures Owner(rows, s).None? ==> forall a :: !RowCovers(rows, a, s)
  {
    if rows != [] {
      var n := |rows| - 1;
      var front, r := rows[..n], rows[n];
      OwnerCovers(front, s);
      forall a ensures RowCovers(rows, a, s) <==> RowCovers(front, a, s) || (r.Row? && r.addr == a && In(s, r.range)) {
        RowCoversLast(rows, a, s);
      }
    }
  }

  lemma {:induction false} CachedOwnerIs(order: seq<CachedMaster>, s: int)
    ensures CachedOwner(order, s).Some? ==> EntryCovers(order, CachedOwner(order, s).value, s)
    ensures CachedOwner(order, s).None? ==> forall a :: !EntryCovers(order, a, s)
  {
    if order != [] {
      var n := |order| - 1;
      CachedOwnerIs(order[..n], s);
      forall a | EntryCovers(order, a, s) && !Covers(order[n].slots, s) ensures EntryCovers(order[..n], a, s) {
        var i :| 0 <= i < |order| && order[i].host == a && Covers(order[i].slots, s);
        assert order[..n][i] == order[i];
      }
      forall a | EntryCovers(order[..n], a, s) ensures EntryCovers(order, a, s) {
        var i :| 0 <= i < n && order[..n][i].host == a && Covers(order[..n][i].slots, s);
        assert order[i] == order[..n][i];
      }
    }
  }

  predicate EntryCovers(order: seq<CachedMaster>, a: Addr, s: int) {
    exists i :: 0 <= i < |order| && order[i].host == a && Covers(order[i].slots, s)
  }

  /** An entry of the cache, in any order of loading, covers what the rows of its host cover. */
  lemma EntriesCoverRows(cache: seq<CachedMaster>, order: seq<CachedMaster>, rows: seq<Row>, a: Addr, s: int)
    requires Caches(cache, rows) && Permutation(order, cache)
    ensures EntryCovers(order, a, s) <==> RowCovers(rows, a, s)
  {
    RangesCover(rows, a, s);
    if EntryCovers(order, a, s) {
      var i :| 0 <= i < |order| && order[i].host == a && Covers(order[i].slots, s);
      assert order[i] in multiset(cache);
      var k :| 0 <= k < |cache| && cache[k] == order[i];
      assert IsEntry(cache[k], rows);
    }
    if RowCovers(rows, a, s) {
      RowHasReplicas(rows, a, s);
      assert HasHost(cache, a);
      var k :| 0 <= k < |cache| && cache[k].host == a;
      assert IsEntry(cache[k], rows);
      assert cache[k] in multiset(order);
      var i :| 0 <= i < |order| && order[i] == cache[k];
    }
  }

  lemma {:induction false} RowHasReplicas(rows: seq<Row>, a: Addr, s: int)
    requires RowCovers(rows, a, s)
    ensures ReplicasOf(rows, a).Some?
  {
    var n := |rows| - 1;
    if !(rows[n].Row? && rows[n].addr == a) {
      var i :| 0 <= i < |rows| && rows[i].Row? && rows[i].addr == a && In(s, rows[i].range);
      assert rows[..n][i] == rows[i];
      RowHasReplicas(rows[..n], a, s);
    }
  }

  /** Loading the cache gives a slot the owner it had, in any order of loading, when the rows
      give it to one address only. */
  lemma SlotRoundTrip(rows: seq<Row>, cache: seq<CachedMaster>, order: seq<CachedMaster>, s: int)
    requires Caches(cache, rows) && Permutation(order, cache) && Unambiguous(rows, s)
    ensures CachedOwner(order, s) == Owner(rows, s)
  {
    OwnerCovers(rows, s);
    CachedOwnerIs(order, s);
    if CachedOwner(order, s).Some? {
      EntriesCoverRows(cache, order, rows, CachedOwner(order, s).value, s);
    }
    if Owner(rows, s).Some? {
      EntriesCoverRows(cache, order, rows, Owner(rows, s).value, s);
    }
  }

  /** ... and only then: for a slot that the rows give to two addresses, some order of loading
      gives it to an address that is not its owner. */
  lemma AmbiguousSlotMoves(rows: seq<Row>, cache: seq<CachedMaster>, s: int) returns (order: seq<CachedMaster>)
    requires Caches(cache, rows) && !Unambiguous(rows, s)
    ensures Permutation(order, cache) && CachedOwner(order, s) != Owner(rows, s)
  {
    hide Owner, CachedOwner, Covers, Caches, Permutation;
    var i, j :| 0 <= i < j < |rows| && rows[i].Row? && rows[j].Row? && In(s, rows[i].range)
                && In(s, rows[j].range) && rows[i].addr != rows[j].addr;
    var a := if Owner(rows, s) == Some(rows[i].addr) then rows[j].addr else rows[i].addr;
    assert RowCovers(rows, a, s);
    EntriesCoverRows(cache, cache, rows, a, s);
    var k :| 0 <= k < |cache| && cache[k].host == a && Covers(cache[k].slots, s);
    order := cache[..k] + cache[k + 1..] + [cache[k]];
    LoadedLast(cache, k);
    LastLoadedWins(cache[..k] + cache[k + 1..], cache[k], s);
  }

  lemma LoadedLast(cache: seq<CachedMaster>, k: nat)
    requires k < |cache|
    ensures Permutation(cache[..k] + cache[k + 1..] + [cache[k]], cache)
  {
    assert cache == cache[..k] + [cache[k]] + cache[k + 1..];
  }

  lemma LastLoadedWins(front: seq<CachedMaster>, m: CachedMaster, s: int)
    requires Covers(m.slots, s)
    ensures CachedOwner(front + [m], s) == Some(m.host)
  {
  }
}
