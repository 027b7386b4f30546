/** A RedisArray with a previous ring: reads fall back to the old ring and move what they find. */
module Migration {
  import opened Bytes

  /** What a server stores; the values are opaque. */
  type Store = map<bytes, bytes>

  type Locator = bytes -> nat

  datatype Reply = False | List(size: nat) | Long(value: int) | Text(text: bytes)

  /** A read command, as a function of what its server stores under the key. */
  datatype Command = Command(read: Option<bytes> -> Reply, isType: bool)

  /** RA_CALL_FAILED. */
  predicate CallFailed(c: Command, r: Reply) {
    r.False? || r == List(0) || (r == Long(0) && c.isType)
  }

  /** The new ring, and the old one if there is one. */
  datatype Rings = Rings(current: Locator, previous: Option<Locator>)

  predicate Fits(rings: Rings, stores: seq<Store>, key: bytes) {
    rings.current(key) < |stores| && (rings.previous.Some? ==> rings.previous.value(key) < |stores|)
  }

  function Get(s: Store, key: bytes): Option<bytes> {
    if key in s then Some(s[key]) else None
  }

  /** The logical value of a key: the new ring's if present, otherwise the old ring's. */
  function Logical(rings: Rings, stores: seq<Store>, key: bytes): Option<bytes>
    requires Fits(rings, stores, key)
  {
    var s := stores[rings.current(key)];
    if key in s || rings.previous.None? then Get(s, key) else Get(stores[rings.previous.value(key)], key)
  }

  /** ra_move_key, as one step: write to the target, then delete from the source. */
  function Moved(stores: seq<Store>, key: bytes, from: nat, to: nat): (after: seq<Store>)
    requires from < |stores| && to < |stores|
    ensures |after| == |stores|
  {
    if key !in stores[from] then stores
    else
      var written := stores[to := stores[to][key := stores[from][key]]];
      written[from := written[from] - {key}]
  }

  /** What a read does to the stores. */
  function AfterRead(rings: Rings, autoRehash: bool, stores: seq<Store>, c: Command, key: bytes): (after: seq<Store>)
    requires Fits(rings, stores, key)
    ensures |after| == |stores|
  {
    var n := rings.current(key);
    if rings.previous.None? || !CallFailed(c, c.read(Get(stores[n], key))) then stores
    else
      var o := rings.previous.value(key);
      if autoRehash && !CallFailed(c, c.read(Get(stores[o], key))) then Moved(stores, key, o, n) else stores
  }

  class RedisArray {
    const rings: Rings
    const autoRehash: bool
    const stores: array<Store>

    ghost predicate Valid() {
      AllFit(rings, stores.Length)
    }

    constructor (rings: Rings, autoRehash: bool, count: nat)
      requires AllFit(rings, count)
      ensures this.rings == rings && this.autoRehash == autoRehash && Valid() && fresh(stores)
      ensures stores[..] == seq(count, i => map[])
    {
      this.rings, this.autoRehash := rings, autoRehash;
      stores := new Store[count](i => map[]);
    }

    method MoveKey(key: bytes, from: nat, to: nat)
      requires from < stores.Length && to < stores.Length
      modifies stores
      ensures stores[..] == Moved(old(stores[..]), key, from, to)
    {
      ghost var before := stores[..];
      if key in stores[from] {
        stores[to] := stores[to][key := stores[from][key]];
        assert stores[..] == before[to := before[to][key := before[from][key]]];
        stores[from] := stores[from] - {key};
      }
    }

    /** ra_forward_call for a read command: on the old ring there is a target to move to. */
    method ForwardCall(onPrevious: bool, c: Command, key: bytes, target: Option<nat>) returns (r: Reply)
      requires Valid() && (onPrevious ==> rings.previous.Some?) && (onPrevious <==> target.Some?)
      requires target.Some? ==> target.value < stores.Length
      modifies stores
      ensures Valid() && Fits(rings, old(stores[..]), key)
      ensures if onPrevious
              then
                var o := rings.previous.value(key);
                && r == c.read(Get(old(stores[o]), key))
                && stores[..] == if autoRehash && !CallFailed(c, r) then Moved(old(stores[..]), key, o, target.value)
                                 else old(stores[..])
              else
                && stores[..] == AfterRead(rings, autoRehash, old(stores[..]), c, key)
                && r == ReadReply(rings, old(stores[..]), c, key)
      decreases !onPrevious
    {
      assert Fits(rings, stores[..], key);
      var inst := if onPrevious then rings.previous.value(key) else rings.current(key);
      r := c.read(Get(stores[inst], key));
      if !onPrevious && rings.previous.Some? && CallFailed(c, r) {
        r := ForwardCall(true, c, key, if target.Some? then target else Some(inst));
      }
      if autoRehash && target.Some? && !CallFailed(c, r) {
        MoveKey(key, inst, target.value);
      }
    }

    /** ra_forward_call for an overwriting SET: a write goes to the new ring only. */
    method Set(key: bytes, value: bytes)
      requires Valid()
      modifies stores
      ensures Valid() && Fits(rings, old(stores[..]), key)
      ensures stores[..] == AfterSet(rings, old(stores[..]), key, value)
    {
      assert Fits(rings, stores[..], key);
      var inst := rings.current(key);
      ghost var before := stores[..];
      stores[inst] := stores[inst][key := value];
      assert stores[..] == before[inst := before[inst][key := value]];
    }
  }

  function ReadReply(rings: Rings, stores: seq<Store>, c: Command, key: bytes): Reply
    requires Fits(rings, stores, key)
  {
    var r := c.read(Get(stores[rings.current(key)], key));
    if rings.previous.Some? && CallFailed(c, r) then c.read(Get(stores[rings.previous.value(key)], key)) else r
  }

  function AfterSet(rings: Rings, stores: seq<Store>, key: bytes, value: bytes): (after: seq<Store>)
    requires Fits(rings, stores, key)
    ensures |after| == |stores|
  {
    stores[rings.current(key) := stores[rings.current(key)][key := value]]
  }

  // ---------------------------------------------------------------- the logical map

  /** The command fails exactly on absent keys: GET, or HGETALL and LRANGE on keys of their type. */
  ghost predicate TellsPresence(c: Command) {
    CallFailed(c, c.read(None)) && forall v :: !CallFailed(c, c.read(Some(v)))
  }

  ghost predicate Constant(c: Command) {
    forall v :: c.read(Some(v)) == c.read(None)
  }

  /** A read returns the logical value, changes no logical value, and leaves a found key on the
      new ring. */
  lemma ReadKeepsLogical(rings: Rings, autoRehash: bool, stores: seq<Store>, c: Command, key: bytes, other: bytes)
    requires TellsPresence(c) || Constant(c)
    requires Fits(rings, stores, key) && Fits(rings, stores, other)
    ensures ReadReply(rings, stores, c, key) == c.read(Logical(rings, stores, key))
    ensures Logical(rings, AfterRead(rings, autoRehash, stores, c, key), other) == Logical(rings, stores, other)
    ensures TellsPresence(c) && autoRehash && Logical(rings, stores, key).Some? ==>
              key in AfterRead(rings, autoRehash, stores, c, key)[rings.current(key)]
  {
    assert forall s: Store :: Get(s, key).Some? ==> c.read(Get(s, key)) == c.read(Some(Get(s, key).value));
  }

  lemma SetUpdatesLogical(rings: Rings, stores: seq<Store>, key: bytes, value: bytes, other: bytes)
    requires Fits(rings, stores, key) && Fits(rings, stores, other)
    ensures Logical(rings, AfterSet(rings, stores, key, value), other)
            == if other == key then Some(value) else Logical(rings, stores, other)
  {
  }

  /** For any other command, some stores give a wrong answer. */
  lemma WrongAnswer(rings: Rings, c: Command, key: bytes, count: nat) returns (stores: seq<Store>)
    requires !TellsPresence(c) && !Constant(c)
    requires rings.previous.Some? && rings.current(key) < count && rings.previous.value(key) < count
    requires rings.current(key) != rings.previous.value(key)
    ensures |stores| == count && ReadReply(rings, stores, c, key) != c.read(Logical(rings, stores, key))
  {
    var n, o := rings.current(key), rings.previous.value(key);
    var empty: seq<Store> := seq(count, i => map[]);
    var v :| c.read(Some(v)) != c.read(None);
    if !CallFailed(c, c.read(None)) {
      // an EXISTS: absent on the new ring reads as a success
      stores := empty[o := map[key := v]];
    } else {
      // an HEXISTS: present on the new ring may read as a failure
      var w :| CallFailed(c, c.read(Some(w)));
      stores := empty[n := map[key := w]];
      if c.read(Some(w)) == c.read(None) {
        stores := stores[o := map[key := v]];
      }
    }
  }

  /** The commands that are safe to read through two rings are those that fail exactly on absent
      keys, and those that always say the same. */
  lemma SafeCommands(rings: Rings, c: Command, key: bytes, count: nat)
    requires rings.previous.Some? && rings.current(key) < count && rings.previous.value(key) < count
    requires rings.current(key) != rings.previous.value(key)
    ensures (forall stores: seq<Store> :: |stores| == count ==> ReadReply(rings, stores, c, key) == c.read(Logical(rings, stores, key)))
            <==> TellsPresence(c) || Constant(c)
  {
    if TellsPresence(c) || Constant(c) {
      forall stores: seq<Store> | |stores| == count
        ensures ReadReply(rings, stores, c, key) == c.read(Logical(rings, stores, key))
      {
        ReadKeepsLogical(rings, false, stores, c, key, key);
      }
    } else {
      var stores := WrongAnswer(rings, c, key, count);
    }
  }

  // ---------------------------------------------------------------- whole runs

  datatype Op = Read(command: Command, key: bytes) | Write(key: bytes, value: bytes)

  function Step(rings: Rings, autoRehash: bool, stores: seq<Store>, op: Op): (after: seq<Store>)
    requires Fits(rings, stores, op.key)
    ensures |after| == |stores|
  {
    match op
    case Read(c, key) => AfterRead(rings, autoRehash, stores, c, key)
    case Write(key, value) => AfterSet(rings, stores, key, value)
  }

  ghost predicate AllFit(rings: Rings, count: nat) {
    forall key :: rings.current(key) < count && (rings.previous.Some? ==> rings.previous.value(key) < count)
  }

  function Run(rings: Rings, autoRehash: bool, stores: seq<Store>, ops: seq<Op>): (after: seq<Store>)
    requires forall i :: 0 <= i < |ops| ==> Fits(rings, stores, ops[i].key)
    ensures |after| == |stores|
  {
    if ops == [] then stores
    else
      assert Fits(rings, stores, ops[|ops| - 1].key);
      Step(rings, autoRehash, Run(rings, autoRehash, stores, ops[..|ops| - 1]), ops[|ops| - 1])
  }

  /** The last value written to the key, or the one it had. */
  function LastWritten(initial: Option<bytes>, ops: seq<Op>, key: bytes): Option<bytes> {
    if ops == [] then initial
    else
      var op := ops[|ops| - 1];
      if op.Write? && op.key == key then Some(op.value) else LastWritten(initial, ops[..|ops| - 1], key)
  }

  /** Over any run of safe reads and overwriting writes, two rings behave as one map: each key has
      its initial logical value until it is written, and then the last value written. */
  lemma {:induction false} RunKeepsMap(rings: Rings, autoRehash: bool, stores: seq<Store>, ops: seq<Op>, key: bytes)
    requires AllFit(rings, |stores|)
    requires forall i :: 0 <= i < |ops| && ops[i].Read? ==> TellsPresence(ops[i].command) || Constant(ops[i].command)
    ensures Logical(rings, Run(rings, autoRehash, stores, ops), key) == LastWritten(Logical(rings, stores, key), ops, key)
  {
    if ops != [] {
      var n := |ops| - 1;
      var op := ops[n];
      RunKeepsMap(rings, autoRehash, stores, ops[..n], key);
      var before := Run(rings, autoRehash, stores, ops[..n]);
      match op
      case Read(c, k) => ReadKeepsLogical(rings, autoRehash, before, c, k, key);
      case Write(k, v) => SetUpdatesLogical(rings, before, k, v, key);
    }
  }

  // ---------------------------------------------------------------- deletions

  /** DEL, like every write, goes to the new ring only. */
  function AfterDel(rings: Rings, stores: seq<Store>, key: bytes): (after: seq<Store>)
    requires Fits(rings, stores, key)
    ensures |after| == |stores|
  {
    stores[rings.current(key) := stores[rings.current(key)] - {key}]
  }

  /** A deleted key is gone exactly if its node on the old ring is the same or does not have it. */
  lemma DelRemoves(rings: Rings, stores: seq<Store>, key: bytes)
    requires Fits(rings, stores, key)
    ensures Logical(rings, AfterDel(rings, stores, key), key) == None
            <==> rings.previous.None? || rings.previous.value(key) == rings.current(key) || key !in stores[rings.previous.value(key)]
  {
  }
}
