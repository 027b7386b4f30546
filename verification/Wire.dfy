/** What passes between a cluster client and the servers: answers, the servers as an environment,
    and the record of a run. */
module Wire {
  import opened Bytes
  import opened Redirect
  import opened SlotSpec
  import opened SlotTable

  const ERR: byte := 45    // '-'
  const LINE: byte := 43   // '+'

  const MOVED: bytes := [77, 79, 86, 69, 68, 32]
  const ASK: bytes := [65, 83, 75, 32]
  const CLUSTERDOWN: bytes := [67, 76, 85, 83, 84, 69, 82, 68, 79, 87, 78]

  /** A reply's first byte and the rest of its first line; the line may be cut off. */
  datatype Answer = Lost | Answer(kind: byte, line: Option<bytes>)

  predicate StartsWith(s: bytes, p: bytes) {
    |p| <= |s| && s[..|p|] == p
  }

  predicate IsMoved(a: Answer) {
    a.Answer? && a.kind == ERR && a.line.Some? && StartsWith(a.line.value, MOVED)
  }

  predicate IsAsk(a: Answer) {
    a.Answer? && a.kind == ERR && a.line.Some? && StartsWith(a.line.value, ASK)
  }

  predicate Redirects(a: Answer) {
    IsMoved(a) || IsAsk(a)
  }

  /** cluster_set_err, applied to a line without its line end. */
  predicate IsDown(line: bytes) {
    var n: int := |CText(line)| - 2;
    n >= |CLUSTERDOWN| && line[..|CLUSTERDOWN|] == CLUSTERDOWN
  }

  /** The reply ends the request loop with success. */
  predicate IsFinal(a: Answer) {
    a.Answer? && a.line.Some? && !Redirects(a) && (a.kind == ERR ==> !IsDown(a.line.value))
  }

  /** The slot and address that a redirection names, if it can be parsed. */
  function Target(a: Answer): Option<(nat, Addr)>
    requires Redirects(a)
  {
    ReadRedirection(a.line.value[if IsMoved(a) then |MOVED| else |ASK|..])
  }

  /** The redirection that a node which does not own the slot answers. */
  function MovedTo(slot: nat, a: Addr): Answer {
    Answer(ERR, Some(MOVED + (Decimal(slot) + [SPACE] + NodeKey(a) + CRLF)))
  }

  // ---------------------------------------------------------------- the servers

  /** Arbitrary servers answer anything. Covering servers have acceptable and complete slot maps.
      Dropping ones accept everything, but close each connection after every answer. Stable ones
      are always reachable and in time, each slot has one owner, which answers for it while the
      others redirect to it, and slot maps say so. */
  datatype World = Arbitrary | Covering | Dropping | Stable(owner: seq<Addr>)

  predicate Complete(w: World) {
    w.Covering? || w.Stable?
  }

  predicate WellFormed(w: World) {
    w.Stable? ==> |w.owner| == SLOTS && forall s :: 0 <= s < SLOTS ==> Spelled(w.owner[s])
  }

  predicate Spelled(a: Addr) {
    a.port < 0x1_0000 && NUL !in a.host && |a.host| <= MAX_HOST
  }

  predicate MayAnswer(w: World, slot: nat, node: Addr, a: Answer)
    requires WellFormed(w) && slot < SLOTS
  {
    w.Stable? ==> if w.owner[slot] == node then IsFinal(a) else a == MovedTo(slot, w.owner[slot])
  }

  predicate MayMap(w: World, answers: seq<SeedAnswer>)
    requires WellFormed(w)
  {
    && (Complete(w) ==> !WildAnswers(answers) && FirstMapping(answers).Some? && CoversAll(FirstMapping(answers).value))
    && (w.Stable? ==> forall s :: 0 <= s < SLOTS ==> Owner(FirstMapping(answers).value, s) == Some(w.owner[s]))
  }

  /** A complete slot map: one row for each slot. */
  function OneRowEach(owner: seq<Addr>): (rows: seq<Row>)
    ensures |rows| == |owner|
  {
    if owner == [] then []
    else
      var last := |owner| - 1;
      OneRowEach(owner[..last]) + [Row(Range(last, last), owner[last], [])]
  }

  lemma RowNext(rows: seq<Row>, row: Row)
    requires row.Row? && row.replicas == [] && InTable(row.range)
    ensures Acceptable(rows) ==> Acceptable(rows + [row])
    ensures !Wild(rows) ==> !Wild(rows + [row])
  {
    assert (rows + [row])[..|rows|] == rows;
  }

  lemma NoRows()
    ensures Acceptable([]) && !Wild([])
  {
  }

  lemma {:induction false} OneRowEachMaps(owner: seq<Addr>)
    requires |owner| <= SLOTS
    ensures Acceptable(OneRowEach(owner)) && !Wild(OneRowEach(owner))
    ensures forall s :: 0 <= s < |owner| ==> Owner(OneRowEach(owner), s) == Some(owner[s])
  {
    hide Acceptable, Wild, Owner;
    NoRows();
    if owner != [] {
      var last := |owner| - 1;
      OneRowEachMaps(owner[..last]);
      RowNext(OneRowEach(owner[..last]), Row(Range(last, last), owner[last], []));
      OwnerLast(OneRowEach(owner[..last]), Row(Range(last, last), owner[last], []));
    }
  }

  /** Seeds whose answers the environment allows. */
  method AskSeeds(w: World) returns (answers: seq<SeedAnswer>)
    requires WellFormed(w)
    ensures MayMap(w, answers)
  {
    answers := *;
    if !MayMap(w, answers) {
      var owner := if w.Stable? then w.owner else seq(SLOTS, s => Addr([], 0));
      OneRowEachMaps(owner);
      answers := [Slots(OneRowEach(owner))];
      assert FirstMapping(answers) == Some(OneRowEach(owner));
    }
  }

  // ---------------------------------------------------------------- the record

  datatype Command = Asking | ReadOnly | Multi

  /** Reconnected: a lost connection was replaced before sending, with AUTH if there is a password;
      the server knows nothing of what the old one had acknowledged. */
  datatype Event =
    | Control(node: ClusterNode, command: Command, acked: bool)
    | Payload(node: ClusterNode, toAsked: bool, accepted: bool)
    | Reply(node: ClusterNode, answer: Answer)
    | Reconnected(node: ClusterNode)

  predicate Accepted(e: Event) {
    e.Payload? && e.accepted
  }

  /** The last event on a node's socket. */
  ghost function LastOn(log: seq<Event>, n: ClusterNode): Option<Event> {
    if log == [] then None
    else if log[|log| - 1].node == n then Some(log[|log| - 1])
    else LastOn(log[..|log| - 1], n)
  }

  /** The last event on a node's socket that is not a reconnection. */
  ghost function LastSent(log: seq<Event>, n: ClusterNode): Option<Event> {
    if log == [] then None
    else if log[|log| - 1].node == n && !log[|log| - 1].Reconnected? then Some(log[|log| - 1])
    else LastSent(log[..|log| - 1], n)
  }

  /** The node has acknowledged READONLY. */
  ghost predicate Primed(log: seq<Event>, n: ClusterNode) {
    log != [] && (log[|log| - 1] == Control(n, ReadOnly, true) || Primed(log[..|log| - 1], n))
  }

  /** The node has acknowledged READONLY on the connection it has. */
  ghost predicate StillPrimed(log: seq<Event>, n: ClusterNode) {
    log != [] && log[|log| - 1] != Reconnected(n)
    && (log[|log| - 1] == Control(n, ReadOnly, true) || StillPrimed(log[..|log| - 1], n))
  }

  /** What a payload needs: to the target of an ASK, an acknowledged ASKING was the last thing
      sent; to a replica, READONLY was acknowledged before. */
  ghost predicate Prepared(log: seq<Event>, e: Event)
    requires e.Payload?
  {
    && (e.toAsked ==> LastSent(log, e.node) == Some(Control(e.node, Asking, true)))
    && (e.node.replica ==> Primed(log, e.node))
  }

  ghost predicate Orderly(log: seq<Event>) {
    log == [] ||
    (var last := |log| - 1;
     Orderly(log[..last]) && (log[last].Payload? ==> Prepared(log[..last], log[last])))
  }

  lemma Snoc(log: seq<Event>, e: Event)
    ensures forall n :: LastOn(log + [e], n) == if e.node == n then Some(e) else LastOn(log, n)
    ensures forall n :: LastSent(log + [e], n) == if e.node == n && !e.Reconnected? then Some(e) else LastSent(log, n)
    ensures forall n :: Primed(log + [e], n) <==> Primed(log, n) || e == Control(n, ReadOnly, true)
    ensures forall n :: StillPrimed(log + [e], n) <==>
              e != Reconnected(n) && (StillPrimed(log, n) || e == Control(n, ReadOnly, true))
    ensures Orderly(log + [e]) <==> Orderly(log) && (e.Payload? ==> Prepared(log, e))
  {
    assert (log + [e])[..|log|] == log;
  }

  // ---------------------------------------------------------------- what the record means

  lemma {:induction false} OrderlyAt(log: seq<Event>, i: nat)
    requires Orderly(log) && i < |log| && log[i].Payload?
    ensures Prepared(log[..i], log[i])
    decreases |log|
  {
    var last := |log| - 1;
    if i < last {
      OrderlyAt(log[..last], i);
      assert log[..last][..i] == log[..i];
    }
  }

  lemma {:induction false} LastSentAt(log: seq<Event>, n: ClusterNode) returns (j: nat)
    requires LastSent(log, n).Some?
    ensures j < |log| && log[j] == LastSent(log, n).value
    ensures log[j].node == n && !log[j].Reconnected?
    ensures forall k :: j < k < |log| && log[k].node == n ==> log[k].Reconnected?
  {
    var last := |log| - 1;
    if log[last].node == n && !log[last].Reconnected? {
      j := last;
    } else {
      j := LastSentAt(log[..last], n);
    }
  }

  /** Of an event after which the socket only saw reconnections: it is the last if there are none. */
  lemma {:induction false} LastUnlessReconnected(log: seq<Event>, n: ClusterNode, j: nat)
    requires j < |log| && log[j].node == n && !log[j].Reconnected?
    requires forall k :: j < k < |log| && log[k].node == n ==> log[k].Reconnected?
    ensures LastOn(log, n) == Some(log[j]) <==> forall k :: j < k < |log| ==> log[k] != Reconnected(n)
  {
    var last := |log| - 1;
    if j < last && log[last].node != n {
      LastUnlessReconnected(log[..last], n, j);
      assert forall k :: j < k < last ==> log[..last][k] == log[k];
    }
  }

  /** A payload to the target of an ASK comes after an acknowledged ASKING, and only reconnections
      lie between them on its socket. The server knows of the ASKING, as its last word on this
      connection, if and only if there are none. */
  lemma {:induction false} AskedFirst(log: seq<Event>, i: nat) returns (j: nat)
    requires Orderly(log) && i < |log| && log[i].Payload? && log[i].toAsked
    ensures j < i && log[j] == Control(log[i].node, Asking, true)
    ensures forall k :: j < k < i && log[k].node == log[i].node ==> log[k].Reconnected?
    ensures LastOn(log[..i], log[i].node) == Some(Control(log[i].node, Asking, true))
            <==> forall k :: j < k < i ==> log[k] != Reconnected(log[i].node)
  {
    OrderlyAt(log, i);
    j := LastSentAt(log[..i], log[i].node);
    LastUnlessReconnected(log[..i], log[i].node, j);
  }

  lemma {:induction false} PrimedAt(log: seq<Event>, n: ClusterNode) returns (j: nat)
    requires Primed(log, n)
    ensures j < |log| && log[j] == Control(n, ReadOnly, true)
    ensures StillPrimed(log, n) <==> forall k :: j < k < |log| ==> log[k] != Reconnected(n)
  {
    var last := |log| - 1;
    if log[last] == Control(n, ReadOnly, true) {
      j := last;
    } else {
      j := PrimedAt(log[..last], n);
    }
  }

  /** A payload to a replica comes after an acknowledged READONLY. The server knows of it on this
      connection if and only if no reconnection lies between. */
  lemma {:induction false} ReadonlyFirst(log: seq<Event>, i: nat) returns (j: nat)
    requires Orderly(log) && i < |log| && log[i].Payload? && log[i].node.replica
    ensures j < i && log[j] == Control(log[i].node, ReadOnly, true)
    ensures StillPrimed(log[..i], log[i].node) <==> forall k :: j < k < i ==> log[k] != Reconnected(log[i].node)
  {
    OrderlyAt(log, i);
    j := PrimedAt(log[..i], log[i].node);
  }

  lemma MovedToReads(slot: nat, a: Addr)
    requires slot < 0x1_0000 && Spelled(a)
    ensures IsMoved(MovedTo(slot, a)) && !IsFinal(MovedTo(slot, a))
    ensures Target(MovedTo(slot, a)) == Some((slot, a))
  {
    hide ReadRedirection, NodeKey, Decimal;
    var rest := Decimal(slot) + [SPACE] + NodeKey(a) + CRLF;
    assert (MOVED + rest)[..6] == MOVED && (MOVED + rest)[6..] == rest;
    ReadRedirectionInverse(slot, a);
  }
}
