/** Commands with several keys on an array of servers: each key goes to its node, and the nodes'
    answers are put back in the order of the keys. */
module Scatter {
  import opened Bytes

  /** A key as PHP passes it; other types are refused. */
  datatype Key = Str(text: bytes) | Num(value: int) | Other

  /** What is hashed to find the node of a key. */
  function Lookup(k: Key): Option<bytes> {
    match k
    case Str(s) => Some(s)
    case Num(i) => Some(DecimalInt(i))
    case Other => None
  }

  /** A distributor gives a position below the number of nodes, or none. */
  type Distributor = bytes -> Option<nat>

  predicate Within(locate: Distributor, count: nat, keys: seq<bytes>) {
    forall i :: 0 <= i < |keys| && locate(keys[i]).Some? ==> locate(keys[i]).value < count
  }

  // ---------------------------------------------------------------- who gets what

  /** The items whose position is n, in order. */
  function Pick<T>(items: seq<T>, pos: seq<nat>, n: nat): (picked: seq<T>)
    requires |items| == |pos|
    ensures |picked| == Rank(pos, n)
  {
    if items == [] then []
    else
      var last := |items| - 1;
      var front := Pick(items[..last], pos[..last], n);
      if pos[last] == n then front + [items[last]] else front
  }

  /** How many positions are n. */
  function Rank(pos: seq<nat>, n: nat): nat {
    if pos == [] then 0
    else Rank(pos[..|pos| - 1], n) + if pos[|pos| - 1] == n then 1 else 0
  }

  /** The calls to the nodes below n: a node without items is not called. */
  function Scattered<T>(items: seq<T>, pos: seq<nat>, n: nat): seq<(nat, seq<T>)>
    requires |items| == |pos|
  {
    if n == 0 then []
    else
      Scattered(items, pos, n - 1)
      + if Rank(pos, n - 1) == 0 then [] else [(n - 1, Pick(items, pos, n - 1))]
  }

  function Sent<T>(calls: seq<(nat, seq<T>)>): multiset<T> {
    if calls == [] then multiset{}
    else Sent(calls[..|calls| - 1]) + multiset(calls[|calls| - 1].1)
  }

  /** Everything the nodes below n are sent, in the order of the items. */
  function Below<T>(items: seq<T>, pos: seq<nat>, n: nat): seq<T>
    requires |items| == |pos|
  {
    if items == [] then []
    else
      var last := |items| - 1;
      var front := Below(items[..last], pos[..last], n);
      if pos[last] < n then front + [items[last]] else front
  }

  lemma {:induction false} BelowNext<T>(items: seq<T>, pos: seq<nat>, n: nat)
    requires |items| == |pos|
    ensures multiset(Below(items, pos, n + 1)) == multiset(Below(items, pos, n)) + multiset(Pick(items, pos, n))
  {
    if items != [] {
      var last := |items| - 1;
      BelowNext(items[..last], pos[..last], n);
    }
  }

  lemma {:induction false} BelowAll<T>(items: seq<T>, pos: seq<nat>, n: nat)
    requires |items| == |pos| && forall i :: 0 <= i < |pos| ==> pos[i] < n
    ensures Below(items, pos, n) == items
  {
    if items != [] {
      var last := |items| - 1;
      BelowAll(items[..last], pos[..last], n);
      assert items == items[..last] + [items[last]];
    }
  }

  lemma {:induction false} BelowNone<T>(items: seq<T>, pos: seq<nat>)
    requires |items| == |pos|
    ensures Below(items, pos, 0) == []
  {
    if items != [] {
      BelowNone(items[..|items| - 1], pos[..|items| - 1]);
    }
  }

  lemma SentNext<T>(calls: seq<(nat, seq<T>)>, call: (nat, seq<T>))
    ensures Sent(calls + [call]) == Sent(calls) + multiset(call.1)
  {
    assert (calls + [call])[..|calls|] == calls;
  }

  lemma NoneScattered<T>(items: seq<T>, pos: seq<nat>)
    requires |items| == |pos|
    ensures Sent(Scattered(items, pos, 0)) == multiset(Below(items, pos, 0))
  {
    BelowNone(items, pos);
  }

  lemma NothingYet<T>(items: seq<T>, pos: seq<nat>)
    requires |items| == |pos|
    ensures Scattered(items, pos, 0) == []
  {
  }

  lemma ScatteredNext<T>(items: seq<T>, pos: seq<nat>, n: nat)
    requires |items| == |pos|
    ensures Rank(pos, n) == 0 ==> Pick(items, pos, n) == [] && Scattered(items, pos, n + 1) == Scattered(items, pos, n)
    ensures Rank(pos, n) != 0 ==> Scattered(items, pos, n + 1) == Scattered(items, pos, n) + [(n, Pick(items, pos, n))]
  {
  }

  lemma {:induction false} ScatteredSends<T>(items: seq<T>, pos: seq<nat>, n: nat)
    requires |items| == |pos|
    ensures Sent(Scattered(items, pos, n)) == multiset(Below(items, pos, n))
  {
    hide Sent, Rank, Below, Scattered, Pick;
    if n == 0 {
      NoneScattered(items, pos);
    } else {
      ScatteredNext(items, pos, n - 1);
      ScatteredSends(items, pos, n - 1);
      BelowNext(items, pos, n - 1);
      var picked := Pick(items, pos, n - 1);
      if Rank(pos, n - 1) != 0 {
        SentNext(Scattered(items, pos, n - 1), (n - 1, picked));
      }
    }
  }

  /** Each item is sent exactly once. */
  lemma ScatterConserves<T>(items: seq<T>, pos: seq<nat>, count: nat)
    requires |items| == |pos| && forall i :: 0 <= i < |pos| ==> pos[i] < count
    ensures Sent(Scattered(items, pos, count)) == multiset(items)
  {
    ScatteredSends(items, pos, count);
    BelowAll(items, pos, count);
  }

  /** No node is called twice, and each call carries the node's own items. */
  lemma {:induction false} ScatterRoutes<T>(items: seq<T>, pos: seq<nat>, n: nat)
    requires |items| == |pos|
    ensures forall c :: 0 <= c < |Scattered(items, pos, n)| ==>
              var call := Scattered(items, pos, n)[c]; call.0 < n && call.1 == Pick(items, pos, call.0) && call.1 != []
    ensures forall c, d :: 0 <= c < d < |Scattered(items, pos, n)| ==>
              Scattered(items, pos, n)[c].0 < Scattered(items, pos, n)[d].0
  {
    if n > 0 {
      ScatterRoutes(items, pos, n - 1);
    }
  }

  /** Item i is at index `Rank(pos[..i])` of what its node is sent. */
  lemma {:induction false} PickedAt<T>(items: seq<T>, pos: seq<nat>, i: nat)
    requires |items| == |pos| && i < |items|
    ensures Rank(pos[..i], pos[i]) < Rank(pos, pos[i])
    ensures Pick(items, pos, pos[i])[Rank(pos[..i], pos[i])] == items[i]
    decreases |items|
  {
    var last := |items| - 1;
    if i < last {
      PickedAt(items[..last], pos[..last], i);
      assert pos[..last][..i] == pos[..i];
    }
  }

  // ---------------------------------------------------------------- finding the nodes

  function Located(locate: Distributor, keys: seq<bytes>): Option<seq<nat>> {
    if keys == [] then Some([])
    else
      var last := |keys| - 1;
      match Located(locate, keys[..last])
      case None => None
      case Some(pos) => if locate(keys[last]).None? then None else Some(pos + [locate(keys[last]).value])
  }

  lemma {:induction false} LocatedAt(locate: Distributor, keys: seq<bytes>)
    ensures Located(locate, keys).Some? <==> forall i :: 0 <= i < |keys| ==> locate(keys[i]).Some?
    ensures Located(locate, keys).Some? ==>
              && |Located(locate, keys).value| == |keys|
              && forall i :: 0 <= i < |keys| ==> Some(Located(locate, keys).value[i]) == locate(keys[i])
  {
    if keys != [] {
      LocatedAt(locate, keys[..|keys| - 1]);
    }
  }

  /** The position of each key, and how many keys each node has. */
  method Associate(locate: Distributor, count: nat, keys: seq<bytes>) returns (r: Option<array<nat>>, argcEach: array<nat>)
    requires Within(locate, count, keys)
    ensures r.Some? <==> Located(locate, keys).Some?
    ensures r.Some? ==> Located(locate, keys) == Some(r.value[..]) && r.value.Length == |keys| && argcEach.Length == count
    ensures r.Some? ==> forall n :: 0 <= n < count ==> argcEach[n] == Rank(r.value[..], n)
    ensures r.Some? ==> forall i :: 0 <= i < |keys| ==> r.value[i] < count
  {
    hide Located, Rank;
    var pos := new nat[|keys|](i => 0);
    argcEach := new nat[count](n => 0);
    NoKeys(locate);
    assert keys[..0] == [] && pos[..0] == [];
    for i := 0 to |keys|
      invariant Located(locate, keys[..i]) == Some(pos[..i])
      invariant forall n :: 0 <= n < count ==> argcEach[n] == Rank(pos[..i], n)
      invariant forall j :: 0 <= j < i ==> pos[j] < count
    {
      LocatedNext(locate, keys[..i], keys[i]);
      assert keys[..i + 1] == keys[..i] + [keys[i]];
      var p := locate(keys[i]);
      if p.None? {
        LocatedAt(locate, keys);
        return None, argcEach;
      }
      ghost var before := pos[..i];
      pos[i] := p.value;
      argcEach[p.value] := argcEach[p.value] + 1;
      assert pos[..i + 1] == before + [p.value];
      RankNext(before, p.value);
    }
    assert keys[..|keys|] == keys && pos[..|keys|] == pos[..];
    r := Some(pos);
  }

  lemma NoKeys(locate: Distributor)
    ensures Located(locate, []) == Some([]) && forall n :: Rank([], n) == 0
  {
  }

  lemma LocatedNext(locate: Distributor, keys: seq<bytes>, key: bytes)
    ensures Located(locate, keys + [key])
            == if Located(locate, keys).None? || locate(key).None? then None
               else Some(Located(locate, keys).value + [locate(key).value])
  {
    assert (keys + [key])[..|keys|] == keys;
  }

  lemma RankNext(pos: seq<nat>, p: nat)
    ensures forall n :: Rank(pos + [p], n) == Rank(pos, n) + if n == p then 1 else 0
  {
    assert (pos + [p])[..|pos|] == pos;
  }

  /** The arguments of one node. */
  method CopyArgs<T>(items: seq<T>, pos: array<nat>, n: nat) returns (args: seq<T>)
    requires |items| == pos.Length
    ensures args == Pick(items, pos[..], n)
  {
    args := [];
    for i := 0 to |items|
      invariant args == Pick(items[..i], pos[..i], n)
    {
      assert items[..i + 1][..i] == items[..i] && pos[..i + 1][..i] == pos[..i];
      if pos[i] == n {
        args := args + [items[i]];
      }
    }
    assert items[..|items|] == items && pos[..|items|] == pos[..];
  }

  // ---------------------------------------------------------------- MSET and DEL

  function Keys<V>(pairs: seq<(bytes, V)>): (keys: seq<bytes>)
    ensures |keys| == |pairs|
  {
    seq(|pairs|, i requires 0 <= i < |pairs| => pairs[i].0)
  }

  /** RedisArray::mset. */
  method Mset<V>(locate: Distributor, count: nat, pairs: seq<(bytes, V)>)
    returns (ok: bool, calls: seq<(nat, seq<(bytes, V)>)>)
    requires Within(locate, count, Keys(pairs))
    ensures ok <==> pairs != [] && Located(locate, Keys(pairs)).Some?
    ensures ok ==> |Located(locate, Keys(pairs)).value| == |pairs|
    ensures calls == if ok then Scattered(pairs, Located(locate, Keys(pairs)).value, count) else []
  {
    hide Located, Rank, Pick, Scattered;
    calls := [];
    if pairs == [] {
      return false, [];
    }
    var r, argcEach := Associate(locate, count, Keys(pairs));
    if r.None? {
      return false, [];
    }
    var pos := r.value;
    ghost var positions, counts := pos[..], argcEach[..];
    NothingYet(pairs, positions);
    for n := 0 to count
      invariant pos[..] == positions && argcEach[..] == counts
      invariant calls == Scattered(pairs, positions, n)
    {
      ScatteredNext(pairs, positions, n);
      assert argcEach[n] == counts[n];
      if argcEach[n] == 0 {
        continue;
      }
      var args := CopyArgs(pairs, pos, n);
      calls := calls + [(n, args)];
    }
    ok := true;
  }

  /** The sum of what the calls return. */
  function Total(calls: seq<(nat, seq<bytes>)>, reply: (nat, seq<bytes>) -> int): int {
    if calls == [] then 0
    else Total(calls[..|calls| - 1], reply) + reply(calls[|calls| - 1].0, calls[|calls| - 1].1)
  }

  predicate AllStrings(keys: seq<Key>) {
    forall i :: 0 <= i < |keys| ==> keys[i].Str?
  }

  function Texts(keys: seq<Key>): (texts: seq<bytes>)
    requires AllStrings(keys)
    ensures |texts| == |keys|
  {
    seq(|keys|, i requires 0 <= i < |keys| => keys[i].text)
  }

  /** ra_generic_del: DEL or UNLINK. */
  method GenericDel(locate: Distributor, count: nat, keys: seq<Key>, reply: (nat, seq<bytes>) -> int)
    returns (total: Option<int>, calls: seq<(nat, seq<bytes>)>)
    requires AllStrings(keys) ==> Within(locate, count, Texts(keys))
    ensures total.Some? <==> keys != [] && AllStrings(keys) && Located(locate, Texts(keys)).Some?
    ensures total.Some? ==> |Located(locate, Texts(keys)).value| == |keys|
    ensures total.Some? ==> calls == Scattered(Texts(keys), Located(locate, Texts(keys)).value, count)
    ensures total.Some? ==> total.value == Total(calls, reply)
    ensures total.None? ==> calls == []
  {
    hide Located, Rank, Pick, Scattered, Total;
    calls := [];
    if keys == [] || !AllStrings(keys) {
      return None, [];
    }
    var texts := Texts(keys);
    var r, argcEach := Associate(locate, count, texts);
    if r.None? {
      return None, [];
    }
    var pos, sum := r.value, 0;
    ghost var positions, counts := pos[..], argcEach[..];
    NothingYet(texts, positions);
    NoTotal(reply);
    for n := 0 to count
      invariant pos[..] == positions && argcEach[..] == counts
      invariant calls == Scattered(texts, positions, n) && sum == Total(calls, reply)
    {
      ScatteredNext(texts, positions, n);
      assert argcEach[n] == counts[n];
      if argcEach[n] == 0 {
        continue;
      }
      var args := CopyArgs(texts, pos, n);
      TotalNext(calls, (n, args), reply);
      calls := calls + [(n, args)];
      sum := sum + reply(n, args);
    }
    total := Some(sum);
  }

  lemma NoTotal(reply: (nat, seq<bytes>) -> int)
    ensures Total([], reply) == 0
  {
  }

  lemma TotalNext(calls: seq<(nat, seq<bytes>)>, call: (nat, seq<bytes>), reply: (nat, seq<bytes>) -> int)
    ensures Total(calls + [call], reply) == Total(calls, reply) + reply(call.0, call.1)
  {
    assert (calls + [call])[..|calls|] == calls;
  }

  // ---------------------------------------------------------------- MGET

  predicate AllUsable(keys: seq<Key>) {
    forall i :: 0 <= i < |keys| ==> !keys[i].Other?
  }

  function Lookups(keys: seq<Key>): (texts: seq<bytes>)
    requires AllUsable(keys)
    ensures |texts| == |keys|
  {
    seq(|keys|, i requires 0 <= i < |keys| => Lookup(keys[i]).value)
  }

  /** The value of key i in its node's reply, if that reply is long enough. */
  function Cell<V>(keys: seq<Key>, pos: seq<nat>, reply: (nat, seq<Key>) -> Option<seq<V>>, i: nat): Option<V>
    requires |keys| == |pos| && i < |keys|
  {
    match reply(pos[i], Pick(keys, pos, pos[i]))
    case None => None
    case Some(values) =>
      var j := Rank(pos[..i], pos[i]);
      if j < |values| then Some(values[j]) else None
  }

  /** The values that are there, for the keys below i; those that are not leave no gap. */
  function Gathered<V>(keys: seq<Key>, pos: seq<nat>, reply: (nat, seq<Key>) -> Option<seq<V>>, i: nat): (values: seq<V>)
    requires |keys| == |pos| && i <= |keys|
    ensures |values| <= i
  {
    if i == 0 then []
    else
      var front := Gathered(keys, pos, reply, i - 1);
      match Cell(keys, pos, reply, i - 1)
      case None => front
      case Some(v) => front + [v]
  }

  /** Every node that has keys replies with an array. */
  ghost predicate AllReply<V>(keys: seq<Key>, pos: seq<nat>, reply: (nat, seq<Key>) -> Option<seq<V>>, n: nat)
    requires |keys| == |pos|
  {
    forall m :: 0 <= m < n && Rank(pos, m) > 0 ==> reply(m, Pick(keys, pos, m)).Some?
  }

  /** Key i is node n's, and its value is there. */
  predicate Placed<V>(keys: seq<Key>, pos: seq<nat>, n: nat, reply: (nat, seq<Key>) -> Option<seq<V>>, i: nat)
    requires |keys| == |pos|
  {
    i < |keys| && pos[i] == n && Cell(keys, pos, reply, i).Some?
  }

  /** A node's values go to the indices of its keys. */
  method PlaceValues<V>(keys: seq<Key>, pos: array<nat>, n: nat, reply: (nat, seq<Key>) -> Option<seq<V>>, values: seq<V>, before: map<nat, V>)
    returns (tmp: map<nat, V>)
    requires |keys| == pos.Length && reply(n, Pick(keys, pos[..], n)) == Some(values)
    ensures forall i: nat :: i in tmp <==> i in before || Placed(keys, pos[..], n, reply, i)
    ensures forall i: nat :: i in tmp ==>
              if Placed(keys, pos[..], n, reply, i) then Some(tmp[i]) == Cell(keys, pos[..], reply, i)
              else i in before && tmp[i] == before[i]
  {
    assert pos[..0] == [] && Rank([], n) == 0;
    hide Rank, Pick;
    tmp := before;
    var j := 0;
    for i := 0 to |keys|
      invariant j == Rank(pos[..i], n)
      invariant forall k: nat :: k in tmp <==> k in before || (k < i && Placed(keys, pos[..], n, reply, k))
      invariant forall k: nat :: k in tmp ==>
                  if k < i && Placed(keys, pos[..], n, reply, k) then Some(tmp[k]) == Cell(keys, pos[..], reply, k)
                  else k in before && tmp[k] == before[k]
    {
      assert pos[..i + 1] == pos[..i] + [pos[i]] && pos[..][..i] == pos[..i];
      RankNext(pos[..i], pos[i]);
      if pos[i] != n {
        continue;
      }
      j := j + 1;
      if j - 1 < |values| {
        tmp := tmp[i := values[j - 1]];
      }
    }
  }

  /** What the table of values holds once the nodes below n have replied. */
  ghost predicate Filled<V>(keys: seq<Key>, pos: seq<nat>, n: nat, reply: (nat, seq<Key>) -> Option<seq<V>>, tmp: map<nat, V>)
    requires |keys| == |pos|
  {
    && (forall i: nat :: i in tmp <==> i < |keys| && pos[i] < n && Cell(keys, pos, reply, i).Some?)
    && (forall i: nat :: i in tmp ==> Some(tmp[i]) == Cell(keys, pos, reply, i))
  }

  /** The calls to the nodes below n; fails at the first reply that is not an array. */
  method CallEach<V>(keys: seq<Key>, pos: array<nat>, argcEach: array<nat>, reply: (nat, seq<Key>) -> Option<seq<V>>)
    returns (r: Option<map<nat, V>>)
    requires |keys| == pos.Length && forall n :: 0 <= n < argcEach.Length ==> argcEach[n] == Rank(pos[..], n)
    ensures r.Some? <==> AllReply(keys, pos[..], reply, argcEach.Length)
    ensures r.Some? ==> Filled(keys, pos[..], argcEach.Length, reply, r.value)
  {
    hide Rank, Pick;
    var tmp := map[];
    for n := 0 to argcEach.Length
      invariant AllReply(keys, pos[..], reply, n)
      invariant Filled(keys, pos[..], n, reply, tmp)
    {
      if argcEach[n] == 0 {
        NoneAt(pos[..], n);
        continue;
      }
      var args := CopyArgs(keys, pos, n);
      match reply(n, args)
      case None =>
        return None;
      case Some(values) =>
        tmp := PlaceValues(keys, pos, n, reply, values, tmp);
    }
    r := Some(tmp);
  }

  lemma {:induction false} NoneAt(pos: seq<nat>, n: nat)
    requires Rank(pos, n) == 0
    ensures forall i :: 0 <= i < |pos| ==> pos[i] != n
  {
    if pos != [] {
      NoneAt(pos[..|pos| - 1], n);
    }
  }

  /** RedisArray::mget. */
  method Mget<V>(locate: Distributor, count: nat, keys: seq<Key>, reply: (nat, seq<Key>) -> Option<seq<V>>)
    returns (r: Option<seq<V>>)
    requires AllUsable(keys) ==> Within(locate, count, Lookups(keys))
    ensures r.Some? ==> keys != [] && AllUsable(keys) && Located(locate, Lookups(keys)).Some?
    ensures keys != [] && AllUsable(keys) && Located(locate, Lookups(keys)).Some? ==>
              var pos := Located(locate, Lookups(keys)).value;
              && |pos| == |keys|
              && (r.Some? <==> AllReply(keys, pos, reply, count))
              && (r.Some? ==> r.value == Gathered(keys, pos, reply, |keys|))
  {
    hide Located, Rank, Pick, AllReply, Cell;
    if keys == [] || !AllUsable(keys) {
      return None;
    }
    var at, argcEach := Associate(locate, count, Lookups(keys));
    if at.None? {
      return None;
    }
    var pos := at.value;
    ghost var positions := pos[..];
    var tmp := CallEach(keys, pos, argcEach, reply);
    if tmp.None? {
      return None;
    }
    var values := [];
    for i := 0 to |keys|
      invariant pos[..] == positions && values == Gathered(keys, positions, reply, i)
    {
      if i in tmp.value {
        values := values + [tmp.value[i]];
      }
    }
    r := Some(values);
  }

  /** If each node answers with one value per key, in order, then the value at index i is that of
      key i on its node; equal keys get equal values. */
  lemma {:induction false} MgetAligned<V>(keys: seq<Key>, pos: seq<nat>, reply: (nat, seq<Key>) -> Option<seq<V>>, value: (nat, Key) -> V, i: nat)
    requires |keys| == |pos| && i <= |keys|
    requires forall n, ks :: reply(n, ks) == Some(seq(|ks|, j requires 0 <= j < |ks| => value(n, ks[j])))
    ensures Gathered(keys, pos, reply, i) == seq(i, j requires 0 <= j < i => value(pos[j], keys[j]))
  {
    if i > 0 {
      MgetAligned(keys, pos, reply, value, i - 1);
      PickedAt(keys, pos, i - 1);
      assert Cell(keys, pos, reply, i - 1) == Some(value(pos[i - 1], keys[i - 1]));
    }
  }

  /** The result has a value for each key exactly if no value is missing; otherwise the values
      after a missing one move up. */
  lemma {:induction false} MgetComplete<V>(keys: seq<Key>, pos: seq<nat>, reply: (nat, seq<Key>) -> Option<seq<V>>, i: nat)
    requires |keys| == |pos| && i <= |keys|
    ensures |Gathered(keys, pos, reply, i)| == i <==> forall j :: 0 <= j < i ==> Cell(keys, pos, reply, j).Some?
  {
    if i > 0 {
      MgetComplete(keys, pos, reply, i - 1);
    }
  }

  /** The last item of a node, if it has any. */
  lemma {:induction false} LastOf(pos: seq<nat>, n: nat) returns (i: nat)
    requires Rank(pos, n) > 0
    ensures i < |pos| && pos[i] == n && Rank(pos[..i], n) == Rank(pos, n) - 1
  {
    var last := |pos| - 1;
    if pos[last] == n {
      i := last;
    } else {
      i := LastOf(pos[..last], n);
      assert pos[..last][..i] == pos[..i];
    }
  }

  ghost predicate LongEnough<V>(keys: seq<Key>, pos: seq<nat>, reply: (nat, seq<Key>) -> Option<seq<V>>, n: nat)
    requires |keys| == |pos|
  {
    Rank(pos, n) > 0 ==> reply(n, Pick(keys, pos, n)).Some? && |reply(n, Pick(keys, pos, n)).value| >= Rank(pos, n)
  }

  /** No value is missing exactly if every node replies with at least as many as it has keys; with
      MgetComplete, this says when the result lines up with the keys. */
  lemma MissingIffShort<V>(keys: seq<Key>, pos: seq<nat>, reply: (nat, seq<Key>) -> Option<seq<V>>)
    requires |keys| == |pos|
    ensures (forall j :: 0 <= j < |keys| ==> Cell(keys, pos, reply, j).Some?) <==> (forall n :: LongEnough(keys, pos, reply, n))
  {
    hide Rank, Pick;
    if forall n :: LongEnough(keys, pos, reply, n) {
      forall j | 0 <= j < |keys| ensures Cell(keys, pos, reply, j).Some? {
        PickedAt(keys, pos, j);
        assert LongEnough(keys, pos, reply, pos[j]);
      }
    }
    if forall j :: 0 <= j < |keys| ==> Cell(keys, pos, reply, j).Some? {
      forall n ensures LongEnough(keys, pos, reply, n) {
        if Rank(pos, n) > 0 {
          var i := LastOf(pos, n);
          assert Cell(keys, pos, reply, i).Some?;
        }
      }
    }
  }
}
