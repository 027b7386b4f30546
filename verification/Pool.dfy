/** The pool of persistent connections that share one pool key. */
module Pool {

  datatype Status = Disconnected | Connected

  /** The result of the liveness check. EchoLost: the ECHO challenge cannot be written because the
      connection is gone and no retry replaces it, or the reply cannot be read. Either has already
      disconnected the socket and uncounted its stream; it needs the echo check to be on. */
  datatype Liveness = Alive | Dead | EchoLost

  class RedisSock {
    const persistent: bool
    var stream: nat                  // 0 for none
    var atomic: bool
    var status: Status

    constructor (persistent: bool)
      ensures this.persistent == persistent && stream == 0 && atomic && status == Disconnected
    {
      this.persistent, stream, atomic, status := persistent, 0, true, Disconnected;
    }
  }

  /** Which socket holds which stream. */
  type Held = map<RedisSock, nat>

  /** Every stream was opened before, and is either idle, once, or held by one socket. */
  ghost predicate Consistent(idle: seq<nat>, held: Held, streams: nat) {
    && (forall s :: s in held ==> 0 < held[s] <= streams && held[s] !in idle)
    && (forall s, t :: s in held && t in held && s != t ==> held[s] != held[t])
    && (forall i :: 0 <= i < |idle| ==> 0 < idle[i] <= streams)
    && (forall i, j :: 0 <= i < j < |idle| ==> idle[i] != idle[j])
  }

  lemma Released(idle: seq<nat>, held: Held, streams: nat, s: RedisSock)
    requires Consistent(idle, held, streams) && s in held
    ensures Consistent(idle, held - {s}, streams) && Consistent([held[s]] + idle, held - {s}, streams)
    ensures |held - {s}| == |held| - 1
  {
    assert (held - {s}).Keys == held.Keys - {s};
  }

  lemma Taken(idle: seq<nat>, held: Held, streams: nat, s: RedisSock)
    requires Consistent(idle, held, streams) && s !in held && idle != []
    ensures Consistent(idle[..|idle| - 1], held[s := idle[|idle| - 1]], streams)
    ensures idle[|idle| - 1] > 0 && |held[s := idle[|idle| - 1]]| == |held| + 1
  {
    var last := |idle| - 1;
    assert held[s := idle[last]].Keys == held.Keys + {s};
    assert forall i :: 0 <= i < last ==> idle[i] != idle[last];
  }

  lemma Opened(idle: seq<nat>, held: Held, streams: nat, s: RedisSock)
    requires Consistent(idle, held, streams) && s !in held
    ensures Consistent(idle, held[s := streams + 1], streams + 1) && Consistent(idle, held, streams + 1)
    ensures |held[s := streams + 1]| == |held| + 1
  {
    assert held[s := streams + 1].Keys == held.Keys + {s};
  }

  lemma NotHeld(held: Held, s: RedisSock)
    ensures s !in held ==> held - {s} == held
    ensures s !in held - {s}
  {
  }

  lemma PutAside(held: Held, s: RedisSock, stream: nat)
    requires s !in held
    ensures held[s := stream] - {s} == held && held - {s} == held
  {
  }

  class ConnectionPool {
    const enabled: bool
    const limit: int
    var nbActive: int
    var idle: seq<nat>
    var streams: nat                 // streams are numbered as they are opened
    ghost var held: Held

    constructor (enabled: bool, limit: int)
      ensures this.enabled == enabled && this.limit == limit && Valid() && Lost() == 0 && held == map[]
    {
      this.enabled, this.limit := enabled, limit;
      nbActive, idle, streams, held := 0, [], 0, map[];
    }

    predicate Pooled(s: RedisSock) {
      enabled && s.persistent
    }

    ghost predicate Valid()
      reads this, held.Keys`stream
    {
      Consistent(idle, held, streams) && Tied(held) && (limit > 0 ==> nbActive <= limit)
    }

    ghost predicate Tied(held: Held)
      reads held.Keys`stream
    {
      forall s :: s in held ==> Pooled(s) && s.stream == held[s]
    }

    /** How many streams the count has lost track of. */
    ghost function Lost(): int
      reads this
    {
      |idle| + |held| - nbActive
    }

    /** The pool knows about the stream of each pooled socket. */
    ghost predicate Manages(s: RedisSock)
      reads `held, s`stream
    {
      s in held <==> Pooled(s) && s.stream != 0
    }

    /** A pooled socket gives its stream up: closed if forced or in a transaction, else back to
        the front of the idle list. */
    method Release(s: RedisSock, close: bool)
      requires Valid() && Manages(s) && Pooled(s) && s.stream != 0
      modifies `nbActive, `idle, `held, s`stream
      ensures Valid() && Lost() == old(Lost()) && held == old(held) - {s} && s.stream == 0
      ensures idle == if close then old(idle) else [old(s.stream)] + old(idle)
      ensures nbActive == old(nbActive) - if close then 1 else 0
    {
      hide Consistent;
      Released(idle, held, streams, s);
      assert Tied(held - {s});
      held := held - {s};
      if close {
        nbActive := nbActive - 1;
      } else {
        idle := [s.stream] + idle;
      }
      s.stream := 0;
    }

    lemma NotManaged(s: RedisSock)
      requires Manages(s)
      ensures s in held <==> Pooled(s) && s.stream != 0
      ensures s !in held ==> held - {s} == held
      ensures s !in held - {s}
    {
      NotHeld(held, s);
    }

    lemma Unmanaged(s: RedisSock)
      requires s !in held && s.stream == 0
      ensures Manages(s)
    {
    }

    /** redis_sock_disconnect, in reset mode or not. */
    method Disconnect(s: RedisSock, force: bool, reset: bool)
      requires Valid() && Manages(s)
      modifies `nbActive, `idle, `held, s`stream, s`atomic, s`status
      ensures Valid() && Manages(s) && Lost() == old(Lost()) && held == old(held) - {s}
      ensures s.stream == 0 && s.status == Disconnected && (s.atomic <==> old(s.atomic) || reset)
      ensures idle == if Pooled(s) && old(s.stream) != 0 && !force && old(s.atomic)
                      then [old(s.stream)] + old(idle) else old(idle)
      ensures nbActive == old(nbActive) - if Pooled(s) && old(s.stream) != 0 && (force || !old(s.atomic)) then 1 else 0
    {
      hide Consistent, Tied, Valid, Manages, Lost;
      NotManaged(s);
      if s.stream != 0 {
        if Pooled(s) {
          Release(s, force || !s.atomic);
        } else {
          s.stream := 0;
        }
      }
      if reset {
        s.atomic := true;
      }
      s.status := Disconnected;
      Unmanaged(s);
    }

    /** The last idle stream goes to the socket. */
    method TakeTail(s: RedisSock)
      requires Valid() && Manages(s) && Pooled(s) && s.stream == 0 && idle != []
      modifies `idle, `held, s`stream
      ensures Valid() && Lost() == old(Lost()) && s.stream == old(idle)[|old(idle)| - 1] != 0
      ensures held == old(held)[s := s.stream] && idle == old(idle)[..|old(idle)| - 1]
    {
      hide Consistent;
      Taken(idle, held, streams, s);
      s.stream := idle[|idle| - 1];
      held := held[s := s.stream];
      idle := idle[..|idle| - 1];
    }

    /** A stream that failed the check is closed and no longer counted, by a lost ECHO twice. */
    method DropDead(s: RedisSock, echoLost: bool)
      requires Valid() && Manages(s) && Pooled(s) && s.stream != 0
      modifies `nbActive, `idle, `held, s`stream, s`atomic, s`status
      ensures Valid() && Lost() == old(Lost()) + if echoLost then 1 else 0
      ensures held == old(held) - {s} && idle == old(idle) && s.stream == 0 && s.status == Disconnected
    {
      hide Consistent, Tied;
      if echoLost {
        Disconnect(s, true, true);
        nbActive := nbActive - 1;
      } else {
        Release(s, true);
        s.status := Disconnected;
      }
    }

    /** Take the last idle stream, if there is one, and check it. */
    method TakeIdle(s: RedisSock, live: Liveness) returns (ok: bool)
      requires Valid() && Manages(s) && Pooled(s) && s.stream == 0
      modifies `nbActive, `idle, `held, s`stream, s`atomic, s`status
      ensures Valid() && Manages(s)
      ensures ok <==> old(idle) != [] && live.Alive?
      ensures held == if ok then old(held)[s := s.stream] else old(held)
      ensures if ok then s.stream == old(idle)[|old(idle)| - 1] != 0 && s.status == Connected else s.stream == 0
      ensures idle == if old(idle) == [] then [] else old(idle)[..|old(idle)| - 1]
      ensures Lost() == old(Lost()) + if old(idle) != [] && live.EchoLost? then 1 else 0
    {
      hide Consistent, Tied;
      ok := false;
      if |idle| > 0 {
        ghost var before := held;
        TakeTail(s);
        PutAside(before, s, s.stream);
        if live.Alive? {
          s.status := Connected;
          ok := true;
        } else {
          DropDead(s, live.EchoLost?);
        }
      }
    }

    /** redis_sock_connect; `created` says whether a new stream could be opened. */
    method Connect(s: RedisSock, live: Liveness, created: bool) returns (ok: bool)
      requires Valid() && Manages(s)
      modifies this, s
      ensures Valid() && Manages(s)
      ensures held - {s} == old(held) - {s} && (ok <==> s.stream != 0)
      ensures ok ==> s.status == Connected
      ensures !ok && created ==> Pooled(s) && limit > 0 && nbActive >= limit
      ensures Lost() == old(Lost()) + if Loses(old(s.stream) != 0 && old(s.atomic), Pooled(s), old(idle), live) then 1 else 0
    {
      hide Consistent, Tied;
      NotHeld(held, s);
      if s.stream != 0 {
        Disconnect(s, false, true);
      }
      ghost var before := held;
      if Pooled(s) {
        ok := TakeIdle(s, live);
        PutAside(before, s, s.stream);
        if ok {
          return;
        }
        if limit > 0 && nbActive >= limit {
          return false;
        }
      }
      if !created {
        return false;
      }
      OpenNew(s);
      PutAside(before, s, s.stream);
      ok := true;
    }

    /** A new stream, counted if it is pooled. */
    method OpenNew(s: RedisSock)
      requires Valid() && Manages(s) && s.stream == 0 && (Pooled(s) && limit > 0 ==> nbActive < limit)
      modifies this, s
      ensures Valid() && Manages(s) && s.stream == streams == old(streams) + 1 && s.status == Connected
      ensures held == if Pooled(s) then old(held)[s := s.stream] else old(held)
      ensures idle == old(idle) && nbActive == old(nbActive) + if Pooled(s) then 1 else 0
      ensures Lost() == old(Lost())
    {
      hide Consistent;
      Opened(idle, held, streams, s);
      streams := streams + 1;
      s.stream := streams;
      s.status := Connected;
      if Pooled(s) {
        nbActive := nbActive + 1;
        held := held[s := streams];
      }
    }
  }

  /** The one case in which the count loses a stream: the ECHO of an idle stream, or the reply to
      it, is lost. A connected socket in atomic mode first gives its own stream back. */
  predicate Loses(givesBack: bool, pooled: bool, idle: seq<nat>, live: Liveness) {
    pooled && (idle != [] || givesBack) && live.EchoLost?
  }

  datatype Action =
    | Connecting(sock: nat, live: Liveness, created: bool)
    | Disconnecting(sock: nat, force: bool, reset: bool)
    | Mode(sock: nat, atomic: bool)

  /** Any run without a lost ECHO or ECHO reply, such as with the echo check off, conserves streams: the
      count is the number of idle streams plus the number of held ones, and stays within the
      limit. */
  method Run(p: ConnectionPool, socks: seq<RedisSock>, actions: seq<Action>)
    requires p.Valid() && p.Lost() == 0 && forall i :: 0 <= i < |socks| ==> p.Manages(socks[i])
    requires forall i :: 0 <= i < |actions| ==> actions[i].sock < |socks|
    requires forall i :: 0 <= i < |actions| && actions[i].Connecting? ==> !actions[i].live.EchoLost?
    modifies p, socks
    ensures p.Valid() && p.nbActive == |p.idle| + |p.held|
    ensures forall i :: 0 <= i < |socks| ==> p.Manages(socks[i])
  {
    hide Consistent;
    for k := 0 to |actions|
      invariant p.Valid() && p.Lost() == 0 && forall i :: 0 <= i < |socks| ==> p.Manages(socks[i])
    {
      var s := socks[actions[k].sock];
      ghost var before := p.held;
      match actions[k] {
        case Connecting(_, live, created) =>
          var ok := p.Connect(s, live, created);
        case Disconnecting(_, force, reset) =>
          p.Disconnect(s, force, reset);
        case Mode(_, atomic) =>
          s.atomic := atomic;
      }
      forall i | 0 <= i < |socks| ensures p.Manages(socks[i]) {
        if socks[i] != s {
          assert socks[i] in p.held <==> socks[i] in p.held - {s};
          assert socks[i] in before <==> socks[i] in before - {s};
        }
      }
    }
  }
}
