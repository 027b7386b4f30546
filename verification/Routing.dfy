/** The request loop of a cluster connection: where a command is written, and how the answers
    MOVED, ASK and CLUSTERDOWN steer it. */
module Routing {
  import opened Bytes
  import opened Redirect
  import opened Shuffle
  import opened SlotSpec
  import opened SlotTable
  import opened Wire

  datatype Failover = NoFailover | OnError | Distribute | DistributeSlaves

  datatype Mode = Atomic | InMulti

  datatype Redir = NoRedir | Moved | Ask

  /** Undefined: a null or foreign entry of the slot table is dereferenced. */
  datatype Written = Written | Unwritten | UndefinedWrite

  /** What cluster_check_response returns. */
  datatype Checked = Broken | Usual | Redirected

  datatype Outcome = Sent | Failed | Undefined | StillRunning

  /** One table update: what the seeds answered, whether KeepsValid held, and whether the table was
      valid afterwards. */
  datatype Repair = Repair(answers: seq<SeedAnswer>, harmless: bool, valid: bool)

  /** How a round of the request loop ends: with a return, by leaving the loop, or with a
      redirection to follow. */
  datatype RoundResult = Stop(outcome: Outcome) | Leave(broken: bool) | Again

  /** With stable servers: is a slot wrong, is it blocked, and which slots are wrong or blocked. */
  datatype Standpoint = Standpoint(wrong: bool, blocked: bool, wrongs: set<int>, stuck: set<int>)

  class Cluster {
    const world: World
    const table: Table
    const failover: Failover
    var readonly: bool
    var mode: Mode
    var waits: bool                            // a time limit is set
    var cmdSlot: int
    var cmdSock: ClusterNode?
    var redirType: Redir
    var redirSlot: nat
    var redirAddr: Addr
    var redirections: nat
    var clusterdown: bool
    var readonlySocks: set<ClusterNode>        // sockets that acknowledged READONLY
    var multiSocks: set<ClusterNode>           // sockets in MULTI mode
    ghost var log: seq<Event>
    ghost var repairs: seq<Repair>

    /** cluster_create. */
    constructor (world: World, failover: Failover, waits: bool)
      ensures this.world == world && this.failover == failover && this.waits == waits
      ensures fresh(table) && fresh(table.master) && table.Sized() && table.nodes == map[]
      ensures forall s :: 0 <= s < SLOTS ==> table.master[s] == null
      ensures mode == Atomic && redirType == NoRedir && redirections == 0 && cmdSock == null
      ensures log == [] && repairs == [] && Recorded()
    {
      this.world, this.failover, this.waits := world, failover, waits;
      table := new Table();
      readonly, mode, clusterdown := false, Atomic, false;
      cmdSlot, cmdSock := 0, null;
      redirType, redirSlot, redirAddr, redirections := NoRedir, 0, Addr([], 0), 0;
      readonlySocks, multiSocks, log, repairs := {}, {}, [], [];
    }

    /** The socket that an ASKING must precede. */
    ghost predicate IsAsked(n: ClusterNode)
      reads `redirType, `cmdSock
    {
      redirType.Ask? && n == cmdSock
    }

    /** The record is orderly, and the sockets flagged as readonly have acknowledged READONLY. */
    ghost predicate Recorded()
      reads `log, `readonlySocks
    {
      Orderly(log) && forall n :: n in readonlySocks ==> Primed(log, n)
    }

    ghost predicate ReadyFor(n: ClusterNode)
      reads `redirType, `cmdSock, `log
    {
      && (IsAsked(n) ==> LastSent(log, n) == Some(Control(n, Asking, true)))
      && (n.replica ==> Primed(log, n))
    }

    // -------------------------------------------------------------- single sends

    /** A new event in the record. */
    ghost method Note(e: Event)
      requires Recorded() && (e.Payload? ==> Prepared(log, e))
      modifies `log
      ensures log == old(log) + [e] && Recorded()
    {
      Snoc(log, e);
      log := log + [e];
    }

    /** The check before every send: a lost connection is replaced, except in MULTI mode. */
    method CheckLink(n: ClusterNode) returns (ghost link: seq<Event>)
      requires Recorded()
      modifies `log
      ensures log == old(log) + link && Recorded() && (link == [] || link == [Reconnected(n)])
      ensures LastSent(log, n) == LastSent(old(log), n) && (Primed(old(log), n) ==> Primed(log, n))
      ensures world.Stable? || n in multiSocks ==> link == []
      ensures world.Dropping? && n !in multiSocks ==> link == [Reconnected(n)]
    {
      link := [];
      var lost: bool := *;
      if world.Dropping? || (lost && !world.Stable?) {
        if n !in multiSocks {
          Snoc(log, Reconnected(n));
          Note(Reconnected(n));
          link := [Reconnected(n)];
        }
      }
    }

    /** CLUSTER_SEND_PAYLOAD. */
    method SendPayload(n: ClusterNode) returns (ok: bool, ghost sent: seq<Event>)
      requires Recorded() && ReadyFor(n)
      modifies `log
      ensures log == old(log) + sent && Recorded()
      ensures Directly(sent, n, IsAsked(n), ok)
      ensures world.Stable? ==> ok && |sent| == 1
      ensures world.Dropping? && n !in multiSocks ==> ok && |sent| == 2
    {
      hide Orderly, LastSent, Primed;
      sent := CheckLink(n);
      ok := *;
      ok := ok || world.Stable? || world.Dropping?;
      Note(Payload(n, IsAsked(n), ok));
      sent := sent + [Payload(n, IsAsked(n), ok)];
    }

    /** cluster_send_direct: a control command and its acknowledgement. */
    method SendDirect(n: ClusterNode, command: Command) returns (ok: bool, ghost sent: seq<Event>)
      requires Recorded()
      modifies `log
      ensures log == old(log) + sent && Recorded()
      ensures sent == [Control(n, command, ok)] || sent == [Reconnected(n), Control(n, command, ok)]
      ensures LastSent(log, n) == Some(Control(n, command, ok)) && (ok && command.ReadOnly? ==> Primed(log, n))
      ensures world.Stable? ==> ok && |sent| == 1
      ensures world.Dropping? && n !in multiSocks ==> ok && |sent| == 2
    {
      hide Orderly, LastSent, Primed;
      sent := CheckLink(n);
      ok := *;
      ok := ok || world.Stable? || world.Dropping?;
      Snoc(log, Control(n, command, ok));
      Note(Control(n, command, ok));
      sent := sent + [Control(n, command, ok)];
    }

    /** cluster_send_readonly. The flag outlives the connection. */
    method SendReadonly(n: ClusterNode) returns (ok: bool, ghost sent: seq<Event>)
      requires Recorded()
      modifies `log, `readonlySocks
      ensures log == old(log) + sent && Recorded() && (ok ==> Primed(log, n))
      ensures ReadonlySent(sent, n, n in old(readonlySocks), ok)
      ensures readonlySocks == old(readonlySocks) + if ok then {n} else {}
    {
      hide Orderly, LastSent, Primed;
      if n in readonlySocks {
        assert readonlySocks + {n} == readonlySocks;
        return true, [];
      }
      ok, sent := SendDirect(n, ReadOnly);
      readonlySocks := if ok then readonlySocks + {n} else readonlySocks - {n};
    }

    // -------------------------------------------------------------- replicas

    /** A replica of the random order: it must have acknowledged READONLY, now or earlier. */
    method TryReplica(n: ClusterNode) returns (ok: bool, ghost sent: seq<Event>)
      requires Recorded() && n.replica && !IsAsked(n)
      modifies `log, `readonlySocks
      ensures log == old(log) + sent && Recorded() && AllOn(sent, n) && AtMostOnce(sent)
      ensures if ok then Delivered(sent, n) else NoneAccepted(sent) && Tried(sent, n)
      ensures ok && n !in old(readonlySocks) ==> Control(n, ReadOnly, true) in sent
      ensures n in old(readonlySocks) && n !in multiSocks && world.Dropping? ==> sent == [Reconnected(n), Payload(n, false, true)]
    {
      hide Recorded, Orderly, LastSent, Primed, AllOn, AtMostOnce, Delivered, NoneAccepted, Tried, ReadonlySent, Directly;
      ghost var asked, more, flagged := [], [], n in readonlySocks;
      ok, asked := SendReadonly(n);
      if !ok {
        OneRefused(asked, n, flagged);
        return false, asked;
      }
      ok, more := SendPayload(n);
      OnePayload(asked, more, n, flagged, ok);
      sent := asked + more;
    }

    /** One node of the random order. */
    method TryNode(n: ClusterNode, isMaster: bool) returns (ok: bool, ghost sent: seq<Event>)
      requires Recorded() && isMaster == !n.replica
      requires if isMaster then ReadyFor(n) else !IsAsked(n)
      modifies `log, `readonlySocks, `cmdSock
      ensures log == old(log) + sent && Recorded() && AllOn(sent, n) && AtMostOnce(sent)
      ensures if ok then cmdSock == n && Delivered(sent, n)
              else cmdSock == old(cmdSock) && NoneAccepted(sent) && Tried(sent, n)
      ensures n.replica && ok && n !in old(readonlySocks) ==> Control(n, ReadOnly, true) in sent
    {
      hide Recorded, Orderly, LastSent, Primed, AllOn, AtMostOnce, Delivered, NoneAccepted, Tried, Directly;
      if isMaster {
        ok, sent := SendPayload(n);
        OneSent(sent, n, IsAsked(n), ok);
      } else {
        ok, sent := TryReplica(n);
      }
      if ok {
        cmdSock := n;
      }
    }

    /** One step of cluster_dist_write's loop. */
    method TryIndex(m: ClusterNode, nomaster: bool, k: nat, ghost order: seq<nat>, ghost i: nat, ghost before: seq<Event>)
      returns (ok: bool, ghost sent: seq<Event>)
      requires table.IsMaster(m) && Lists(m, order) && i < |order| && k == order[i]
      requires Recorded() && cmdSock != null && !cmdSock.replica
      requires !nomaster && 0 !in order[..i] ==> ReadyFor(m)
      requires Progress(m, nomaster, order, i, before)
      modifies `log, `readonlySocks, `cmdSock
      ensures log == old(log) + sent && Recorded()
      ensures if ok then DistSent(m, nomaster, before + sent) && Delivered(before + sent, cmdSock)
              else cmdSock == old(cmdSock) && Progress(m, nomaster, order, i + 1, before + sent)
      ensures !ok && !nomaster && 0 !in order[..i + 1] ==> ReadyFor(m)
    {
      hide Recorded, Orderly, LastSent, Primed, Tried, Delivered, NoneAccepted, AllOn, AtMostOnce, DistSent, Progress;
      assert order[..i + 1] == order[..i] + [order[i]];
      if nomaster && k == 0 {
        ProgressSkips(m, nomaster, order, i, before);
        assert before + [] == before;
        return false, [];
      }
      var n := if k == 0 then m else m.slaves[k];
      assert k == 0 ==> 0 !in order[..i];
      ok, sent := TryNode(n, k == 0);
      if ok {
        DistDelivers(m, nomaster, order, i, before, sent, n);
      } else {
        if k != 0 {
          OthersKeep(old(log), sent, n, m);
        }
        ProgressStep(m, nomaster, order, i, before, sent);
      }
    }

    /** The master and its replicas, in a random order. */
    method Shuffled(m: ClusterNode) returns (at: array<nat>)
      requires m.Keyed()
      ensures fresh(at) && Lists(m, at[..])
    {
      var count := 1 + |m.slaves|;
      SlavesCount(m);
      at := new nat[count](i => i);
      assert at[..] == Upto(count);
      FisherYates(at);
      EachOnce(at[..], count);
    }

    /** cluster_dist_write. Each eligible node is tried at most once; success makes the one node
        that accepted the command socket, failure means that every eligible node refused. */
    method DistWrite(nomaster: bool) returns (ok: bool, ghost sent: seq<Event>)
      requires 0 <= cmdSlot < table.master.Length && table.master[cmdSlot] != null
      requires table.IsMaster(table.master[cmdSlot])
      requires Recorded() && cmdSock != null && !cmdSock.replica
      requires !nomaster ==> ReadyFor(table.master[cmdSlot])
      modifies `log, `readonlySocks, `cmdSock
      ensures log == old(log) + sent && Recorded()
      ensures DistSent(table.master[cmdSlot], nomaster, sent)
      ensures if ok then Delivered(sent, cmdSock)
              else cmdSock == old(cmdSock) && AllRefused(table.master[cmdSlot], nomaster, sent)
    {
      hide Recorded, Orderly, LastSent, Primed, Delivered, DistSent, Progress, AllRefused, Lists;
      var m := table.master[cmdSlot];
      var at := Shuffled(m);
      ghost var order, before := at[..], log;
      sent := [];
      NoProgress(m, nomaster, order);
      for i := 0 to at.Length
        invariant at[..] == order && Recorded()
        invariant log == before + sent
        invariant cmdSock == old(cmdSock)
        invariant Progress(m, nomaster, order, i, sent)
        invariant !nomaster && 0 !in order[..i] ==> ReadyFor(m)
      {
        ghost var more;
        assert at[i] == order[i];
        ok, more := TryIndex(m, nomaster, at[i], order, i, sent);
        sent := sent + more;
        if ok {
          return;
        }
      }
      ProgressEnds(m, nomaster, order, sent);
      ok := false;
    }

    // -------------------------------------------------------------- writing a command

    /** The strategy for a command: only read commands may go to replicas. */
    function Strategy(): Failover
      reads `readonly
    {
      if readonly then failover else NoFailover
    }

    /** The fallback of cluster_sock_write: every known master except the one that failed. */
    method Fallback() returns (ok: bool, ghost sent: seq<Event>)
      requires cmdSock != null && Recorded() && table.Keyed()
      modifies `log, `cmdSock, `cmdSlot
      ensures log == old(log) + sent && Recorded()
      ensures if ok then Delivered(sent, cmdSock) && cmdSock in table.nodes.Values && cmdSlot == cmdSock.slot
              else cmdSock == old(cmdSock) && cmdSlot == old(cmdSlot) && NoneAccepted(sent)
      ensures !ok ==> forall a :: a in table.nodes && !table.nodes[a].slave && table.nodes[a] != cmdSock
                                  ==> Tried(sent, table.nodes[a])
      ensures Spares(sent, old(cmdSock))
    {
      hide Recorded, Orderly, LastSent, Primed, Delivered, NoneAccepted, Tried, Spares;
      sent := [];
      ghost var before := log;
      NothingSent();
      var todo := table.nodes.Keys;
      while todo != {}
        invariant todo <= table.nodes.Keys
        invariant log == before + sent && Recorded() && NoneAccepted(sent)
        invariant cmdSock == old(cmdSock) && cmdSlot == old(cmdSlot) && Spares(sent, cmdSock)
        invariant forall a :: a in table.nodes && a !in todo && !table.nodes[a].slave && table.nodes[a] != cmdSock
                              ==> Tried(sent, table.nodes[a])
      {
        var a :| a in todo;
        todo := todo - {a};
        var n := table.nodes[a];
        if n == cmdSock || n.slave {
          continue;
        }
        ghost var was, more := sent, [];
        ok, more := SendPayload(n);
        OthersSpared(was, more, n, ok, cmdSock);
        sent := was + more;
        if ok {
          DeliversLast(was, more, n, false);
          cmdSlot, cmdSock := n.slot, n;
          return;
        }
        RefusesLast(was, more, n, false);
      }
      ok := false;
    }

    /** Every node of the command's slot that the strategy allows refused. */
    ghost predicate SlotRefused(sent: seq<Event>)
      reads table.master, `cmdSlot, `readonly
      reads set s | 0 <= s < table.master.Length && table.master[s] != null :: table.master[s]
    {
      && 0 <= cmdSlot < table.master.Length && table.master[cmdSlot] != null && table.master[cmdSlot].Keyed()
      && AllRefused(table.master[cmdSlot], Strategy().DistributeSlaves?, sent)
    }

    /** The slot's nodes share the reads, and the socket is not the slot's own: the target of an ASK,
        say, or the node of another slot. */
    ghost predicate Bypasses()
      reads `readonly, `cmdSlot, `cmdSock, table.master
    {
      && (Strategy().Distribute? || Strategy().DistributeSlaves?)
      && 0 <= cmdSlot < table.master.Length && table.master[cmdSlot] != cmdSock
    }

    /** The strategy's attempts, once ASKING is out of the way. */
    method WriteByStrategy() returns (w: Written, ghost sent: seq<Event>)
      requires cmdSock != null && !cmdSock.replica && table.Sound() && Recorded()
      requires ReadyFor(cmdSock)
      modifies `log, `readonlySocks, `cmdSock
      ensures log == old(log) + sent && Recorded() && table.Sound()
      ensures if w.Written? then Delivered(sent, cmdSock) else cmdSock == old(cmdSock) && NoneAccepted(sent)
      ensures Strategy().NoFailover? ==> cmdSock == old(cmdSock) && !w.UndefinedWrite? && Directly(sent, cmdSock, redirType.Ask?, w.Written?)
      ensures Strategy().NoFailover? && world.Stable? ==> w.Written? && |sent| == 1
      ensures Strategy().NoFailover? && world.Dropping? && cmdSock !in multiSocks ==> w.Written? && |sent| == 2
      ensures w.UndefinedWrite? ==> !Strategy().NoFailover? && !(0 <= cmdSlot < SLOTS && table.master[cmdSlot] != null)
      ensures Strategy().OnError? ==> StartsDirectly(sent, old(cmdSock))
      ensures w.Unwritten? && (Strategy().Distribute? || Strategy().DistributeSlaves?) ==> SlotRefused(sent)
      ensures old(Bypasses()) ==> Spares(sent, old(cmdSock))
    {
      hide Recorded, ReadyFor, Orderly, LastSent, Primed, Delivered, NoneAccepted, DistSent, AllRefused, Spares;
      hide Directly, StartsDirectly, Table.Sound, SlotRefused, Bypasses;
      var s := Strategy();
      BypassesMeans();
      if s.Distribute? || s.DistributeSlaves? {
        w, sent := WriteToSlot(s.DistributeSlaves?);
        return;
      }
      ghost var first, more, n := [], [], cmdSock;
      w, first := WriteToSocket();
      sent := first;
      if w.Unwritten? && s.OnError? {
        w, more := WriteToSlot(true);
        NoneThen(first, more, cmdSock);
        StartsStill(first, more, n);
        sent := first + more;
        assert more == [] ==> sent == first;
      }
    }

    lemma BypassesMeans()
      ensures Bypasses() ==> !Strategy().NoFailover? && !Strategy().OnError? && 0 <= cmdSlot < table.master.Length
                             && table.master[cmdSlot] != cmdSock
    {
    }

    /** The payload to the command socket. */
    method WriteToSocket() returns (w: Written, ghost sent: seq<Event>)
      requires cmdSock != null && Recorded() && ReadyFor(cmdSock)
      modifies `log
      ensures log == old(log) + sent && Recorded() && !w.UndefinedWrite?
      ensures if w.Written? then Delivered(sent, cmdSock) else NoneAccepted(sent)
      ensures Directly(sent, cmdSock, redirType.Ask?, w.Written?) && StartsDirectly(sent, cmdSock)
      ensures world.Stable? ==> w.Written? && |sent| == 1
      ensures world.Dropping? && cmdSock !in multiSocks ==> w.Written? && |sent| == 2
    {
      hide Recorded, Orderly, LastSent, Primed, Delivered, NoneAccepted;
      var ok;
      ok, sent := SendPayload(cmdSock);
      OneSent(sent, cmdSock, redirType.Ask?, ok);
      w := if ok then Written else Unwritten;
    }

    /** cluster_dist_write, if the command's slot has a node. */
    method WriteToSlot(nomaster: bool) returns (w: Written, ghost sent: seq<Event>)
      requires cmdSock != null && !cmdSock.replica && table.Sound() && Recorded()
      requires !nomaster ==> ReadyFor(cmdSock)
      modifies `log, `readonlySocks, `cmdSock
      ensures log == old(log) + sent && Recorded()
      ensures if w.Written? then Delivered(sent, cmdSock) else cmdSock == old(cmdSock) && NoneAccepted(sent)
      ensures w.UndefinedWrite? <==> !(0 <= cmdSlot < SLOTS && table.master[cmdSlot] != null)
      ensures w.UndefinedWrite? ==> sent == []
      ensures w.Unwritten? && nomaster == Strategy().DistributeSlaves? ==> SlotRefused(sent)
      ensures w.UndefinedWrite? || table.master[cmdSlot] != old(cmdSock) ==> Spares(sent, old(cmdSock))
    {
      hide Recorded, Orderly, LastSent, Primed, Delivered, NoneAccepted, DistSent, AllRefused, Spares;
      sent := [];
      NothingSent();
      if !(0 <= cmdSlot < SLOTS && table.master[cmdSlot] != null) {
        return UndefinedWrite, sent;
      }
      var ok;
      table.SoundAt(cmdSlot);
      if !nomaster {
        MasterIsReady(table.master[cmdSlot]);
      }
      ghost var asked := cmdSock;
      ok, sent := DistWrite(nomaster);
      if asked != table.master[cmdSlot] {
        DistSpares(table.master[cmdSlot], nomaster, sent, asked);
      }
      RefusedAccepts(table.master[cmdSlot], nomaster, sent);
      w := if ok then Written else Unwritten;
    }

    /** A master needs no READONLY, and ASKING only if it is the command socket. */
    lemma MasterIsReady(m: ClusterNode)
      requires cmdSock != null && ReadyFor(cmdSock) && !m.replica
      ensures ReadyFor(m)
    {
    }

    /** The strategy's attempts, and the fallback unless the slot's own nodes are required. */
    method WriteAnywhere(direct: bool) returns (w: Written, ghost sent: seq<Event>)
      requires cmdSock != null && !cmdSock.replica && table.Sound() && Recorded() && ReadyFor(cmdSock)
      modifies `log, `readonlySocks, `cmdSock, `cmdSlot
      ensures log == old(log) + sent && Recorded()
      ensures if w.Written? then Delivered(sent, cmdSock)
              else cmdSock == old(cmdSock) && cmdSlot == old(cmdSlot) && NoneAccepted(sent)
      ensures Strategy().NoFailover? && (world.Stable? || (world.Dropping? && old(cmdSock) !in multiSocks)) ==>
                w.Written? && cmdSock == old(cmdSock) && Directly(sent, cmdSock, redirType.Ask?, true)
                && |sent| == if world.Stable? then 1 else 2
      ensures w.UndefinedWrite? ==> !Strategy().NoFailover? && !(0 <= cmdSlot < SLOTS && table.master[cmdSlot] != null)
      ensures direct ==> cmdSlot == old(cmdSlot)
      ensures w.Unwritten? && !direct ==>
                forall a :: a in table.nodes && !table.nodes[a].slave && table.nodes[a] != old(cmdSock)
                            ==> Tried(sent, table.nodes[a])
      ensures old(Bypasses()) ==> Spares(sent, old(cmdSock))
    {
      hide Recorded, Orderly, LastSent, Primed, Delivered, NoneAccepted, Tried, AllRefused, SlotRefused, Spares, Bypasses;
      ghost var asked, bypasses := cmdSock, Bypasses();
      w, sent := WriteByStrategy();
      if w.Unwritten? && !direct {
        ghost var first, more := sent, [];
        var ok;
        ok, more := Fallback();
        NoneThen(first, more, cmdSock);
        TriedLater(first, more);
        if bypasses {
          SparesBoth(first, more, asked);
        }
        sent := first + more;
        w := if ok then Written else Unwritten;
      }
    }

    /** cluster_sock_write. */
    method SockWrite(direct: bool) returns (w: Written, ghost sent: seq<Event>)
      requires cmdSock != null && !cmdSock.replica && table.Sound() && Recorded()
      modifies `log, `readonlySocks, `cmdSock, `cmdSlot
      ensures log == old(log) + sent && Recorded()
      ensures if w.Written? then Delivered(sent, cmdSock)
              else cmdSock == old(cmdSock) && cmdSlot == old(cmdSlot) && NoneAccepted(sent)
      ensures redirType.Ask? ==> AsksFirst(sent, old(cmdSock), true) || (AsksFirst(sent, old(cmdSock), false) && w.Unwritten?)
      ensures Strategy().NoFailover? && world.Stable? ==>
                w.Written? && cmdSock == old(cmdSock) && sent == Direct(old(cmdSock), redirType.Ask?)
      ensures Strategy().NoFailover? && world.Dropping? && redirType.Ask? && old(cmdSock) !in multiSocks ==>
                w.Written? && cmdSock == old(cmdSock) && sent == DroppedDirect(old(cmdSock))
      ensures w.UndefinedWrite? ==> !Strategy().NoFailover? && !(0 <= cmdSlot < SLOTS && table.master[cmdSlot] != null)
      ensures direct ==> cmdSlot == old(cmdSlot)
      ensures w.Unwritten? && !direct && !(redirType.Ask? && AsksFirst(sent, old(cmdSock), false)) ==>
                forall a :: a in table.nodes && !table.nodes[a].slave && table.nodes[a] != old(cmdSock)
                            ==> Tried(sent, table.nodes[a])
      // with reads distributed, the target of an ASK gets the ASKING and not the payload
      ensures old(Bypasses()) ==> Spares(sent, old(cmdSock))
    {
      hide Recorded, Orderly, LastSent, Primed, Delivered, NoneAccepted, Tried, Spares, Bypasses;
      if !redirType.Ask? {
        w, sent := WriteAnywhere(direct);
        return;
      }
      var n := cmdSock;
      var ok;
      ghost var asked, more;
      ok, asked := SendDirect(n, Asking);
      OneControl(asked, n, Asking, ok);
      ControlSpares(asked, n, Asking, ok, n);
      if !ok {
        return Unwritten, asked;
      }
      ghost var bypasses := Bypasses();
      w, more := WriteAnywhere(direct);
      if bypasses {
        SparesBoth(asked, more, n);
      }
      NoneThen(asked, more, cmdSock);
      TriedLater(asked, more);
      sent := asked + more;
    }

    // -------------------------------------------------------------- answers

    /** What the servers answer to a command for the slot. */
    method Receive(slot: nat) returns (answer: Answer)
      requires WellFormed(world) && slot < SLOTS && cmdSock != null
      ensures MayAnswer(world, slot, cmdSock.addr, answer)
    {
      answer := *;
      if world.Stable? && world.owner[slot] != cmdSock.addr {
        answer := MovedTo(slot, world.owner[slot]);
      } else if world.Stable? && !IsFinal(answer) {
        answer := Answer(LINE, Some(CRLF));
      }
    }

    /** cluster_set_redirection: the counter goes up before the payload is parsed. */
    method SetRedirection(answer: Answer) returns (ok: bool)
      requires Redirects(answer)
      modifies `redirections, `redirType, `redirSlot, `redirAddr
      ensures redirections == old(redirections) + if IsMoved(answer) then 1 else 0
      ensures ok <==> Target(answer).Some?
      ensures if ok then redirType == (if IsMoved(answer) then Moved else Ask) && Target(answer) == Some((redirSlot, redirAddr))
              else redirType == old(redirType) && redirSlot == old(redirSlot) && redirAddr == old(redirAddr)
    {
      if IsMoved(answer) {
        redirections := redirections + 1;
      }
      match Target(answer)
      case None =>
        ok := false;
      case Some(target) =>
        redirType := if IsMoved(answer) then Moved else Ask;
        redirSlot, redirAddr := target.0, target.1;
        ok := true;
    }

    /** cluster_check_response. */
    method CheckResponse(slot: nat) returns (resp: Checked, ghost answer: Answer)
      requires WellFormed(world) && slot < SLOTS && cmdSock != null && Recorded()
      modifies `log, `clusterdown, `redirections, `redirType, `redirSlot, `redirAddr
      ensures log == old(log) + [Reply(cmdSock, answer)] && Recorded()
      ensures MayAnswer(world, slot, cmdSock.addr, answer)
      ensures redirections == old(redirections) + if IsMoved(answer) then 1 else 0
      ensures resp.Redirected? <==> Redirects(answer) && Target(answer).Some?
      ensures if resp.Redirected?
              then redirType == (if IsMoved(answer) then Moved else Ask) && Target(answer) == Some((redirSlot, redirAddr))
              else redirType == old(redirType) && redirSlot == old(redirSlot) && redirAddr == old(redirAddr)
      ensures resp.Usual? <==> answer.Answer? && answer.line.Some? && !Redirects(answer)
      ensures clusterdown <==> resp.Usual? && !IsFinal(answer)
    {
      hide Target, MayAnswer, IsDown;
      clusterdown := false;
      var a := Receive(slot);
      answer := a;
      Note(Reply(cmdSock, answer));
      if a.Lost? || a.line.None? {
        resp := Broken;
      } else if Redirects(a) {
        var ok := SetRedirection(a);
        resp := if ok then Redirected else Broken;
      } else {
        clusterdown := a.kind == ERR && IsDown(a.line.value);
        resp := Usual;
      }
    }

    /** cluster_get_asking_node: a node for the redirected address, which is not remembered. */
    method GetAskingNode() returns (n: ClusterNode)
      requires table.Keyed()
      ensures n.addr == redirAddr && !n.replica
      ensures if redirAddr in table.nodes then n == table.nodes[redirAddr] else fresh(n)
    {
      if redirAddr in table.nodes {
        n := table.nodes[redirAddr];
      } else {
        n := new ClusterNode(redirAddr, redirSlot, false);
      }
    }

    // -------------------------------------------------------------- repairing the table

    /** The slots that point to a node other than their owner. */
    ghost function Wrong(): set<int>
      requires WellFormed(world) && world.Stable? && table.Sized()
      reads table.master
    {
      set s | 0 <= s < SLOTS && IsWrong(s)
    }

    ghost predicate IsWrong(s: int)
      requires WellFormed(world) && world.Stable? && table.Sized() && 0 <= s < SLOTS
      reads table.master
    {
      table.master[s] != null && table.master[s].addr != world.owner[s]
    }

    /** The slot's owner is unknown and its node has no replicas: following the owner's MOVED would
        dereference a null pointer. */
    ghost predicate Blocked(s: int)
      requires WellFormed(world) && world.Stable? && table.Sized() && 0 <= s < SLOTS
      reads table`nodes, table.master, (set s | 0 <= s < table.master.Length && table.master[s] != null :: table.master[s])`slaves
    {
      table.Bare(s, world.owner[s])
    }

    ghost function Stuck(): set<int>
      requires WellFormed(world) && world.Stable? && table.Sized()
      reads table`nodes, table.master, (set s | 0 <= s < table.master.Length && table.master[s] != null :: table.master[s])`slaves
    {
      set s | 0 <= s < SLOTS && Blocked(s)
    }

    /** A MOVED that has no defined effect: its slot is outside the table, or the table of replicas
        that it needs is null. */
    ghost predicate Unfollowable()
      requires table.Sized()
      reads `redirSlot, `redirAddr, table`nodes, table.master, (set s | 0 <= s < table.master.Length && table.master[s] != null :: table.master[s])`slaves
    {
      redirSlot >= SLOTS || table.Bare(redirSlot, redirAddr)
    }

    lemma BlockedIsWrong(s: nat)
      requires WellFormed(world) && world.Stable? && table.Sized() && s < SLOTS
      ensures Blocked(s) ==> IsWrong(s)
      ensures Blocked(s) <==> s in Stuck()
      ensures table.master[s] != null ==> (IsWrong(s) <==> table.master[s].addr != world.owner[s])
      ensures redirSlot == s && redirAddr == world.owner[s] ==> (Unfollowable() <==> Blocked(s))
    {
    }

    lemma CoveringHas(s: nat)
      requires table.Sized() && s < SLOTS
      ensures table.Covering() ==> table.master[s] != null
    {
    }

    lemma WrongMeans(s: nat)
      requires WellFormed(world) && world.Stable? && table.Sized() && s < SLOTS
      ensures s in Wrong() <==> IsWrong(s)
      ensures IsWrong(s) ==> table.Address(s) != Some(world.owner[s])
    {
    }

    /** The repairs since the first `from` ones, begun with a valid table or not: each that met a
        valid table left a valid one if and only if it was harmless. */
    ghost predicate Chronicle(from: nat, wasValid: bool)
      reads `repairs, table`nodes, table.nodes.Values, table.master
    {
      from <= |repairs| && History(repairs[from..], wasValid, table.Valid())
    }

    /** cluster_update_slot, entered in the history. */
    method UpdateSlot(answers: seq<SeedAnswer>) returns (ok: bool)
      requires table.Sound() && redirSlot < SLOTS
      modifies `repairs, table`nodes, table.master, table.nodes.Values`slot, table.nodes.Values`slave
      ensures table.Sound()
      ensures forall a :: a in table.nodes ==> fresh(table.nodes[a]) || table.nodes[a] in old(table.nodes.Values)
      ensures ok <==> old(table.Follows(redirSlot, redirAddr, answers))
      ensures ok && !old(table.Failover(redirSlot, redirAddr)) ==>
                && table.Address(redirSlot) == Some(redirAddr)
                && (forall s :: 0 <= s < SLOTS && s != redirSlot ==> table.master[s] == old(table.master[s]))
                && (forall s, a :: 0 <= s < SLOTS && s != redirSlot && table.Bare(s, a) ==> old(table.Bare(s, a)))
      ensures ok && old(table.Failover(redirSlot, redirAddr)) ==>
                table.Remapped(answers, old(table.nodes), old(table.master[..]))
      ensures repairs == old(repairs)
                         + if !ok then []
                           else [Repair(answers, old(table.KeepsValid(redirSlot, redirAddr, answers)), table.Valid())]
      ensures ok ==> Chronicle(|old(repairs)|, old(table.Valid()))
      ensures old(table.Bare(redirSlot, redirAddr)) ==>
                && TableKept(old(table.nodes), old(table.master[..])) && table.Valid() == old(table.Valid())
                && (forall s, a :: 0 <= s < SLOTS ==> (table.Bare(s, a) <==> old(table.Bare(s, a))))
    {
      hide Table.Valid, Table.KeepsValid, WildAnswers, Table.Remapped, Table.Failover, Table.Follows, Table.Bare, History;
      ghost var n0, wasValid, keeps := |repairs|, table.Valid(), table.KeepsValid(redirSlot, redirAddr, answers);
      ok := table.UpdateSlot(redirSlot, redirAddr, answers);
      if ok {
        repairs := repairs + [Repair(answers, keeps, table.Valid())];
        assert repairs[n0..] == [Repair(answers, keeps, table.Valid())];
        OneRepair(answers, keeps, wasValid, table.Valid());
      }
    }

    /** cluster_update_slot after a MOVED, with the seeds at hand. Without a failover it changes one
        slot; a valid table stays valid if and only if KeepsValid says so. With complete slot maps it
        is undefined exactly for an unknown address and a node without replicas. */
    method FollowMoved() returns (ok: bool)
      requires WellFormed(world) && table.Sound() && redirSlot < SLOTS
      modifies `repairs, table`nodes, table.master, table.nodes.Values`slot, table.nodes.Values`slave
      ensures table.Sound()
      ensures forall a :: a in table.nodes ==> fresh(table.nodes[a]) || table.nodes[a] in old(table.nodes.Values)
      ensures ok && !old(table.Failover(redirSlot, redirAddr)) ==>
                && table.Address(redirSlot) == Some(redirAddr)
                && (forall s :: 0 <= s < SLOTS && s != redirSlot ==> table.master[s] == old(table.master[s]))
      ensures old(repairs) <= repairs && (!ok ==> repairs == old(repairs))
      ensures ok ==> |repairs| == |old(repairs)| + 1 && MayMap(world, repairs[|old(repairs)|].answers)
      ensures ok ==> var r := repairs[|old(repairs)|];
                     && r.harmless == old(table.KeepsValid(redirSlot, redirAddr, r.answers))
                     && r.valid == table.Valid()
      ensures ok ==> Chronicle(|old(repairs)|, old(table.Valid()))
      ensures old(table.Bare(redirSlot, redirAddr)) ==>
                !ok && TableKept(old(table.nodes), old(table.master[..])) && table.Bare(redirSlot, redirAddr)
      ensures Complete(world) ==> (ok <==> !old(table.Bare(redirSlot, redirAddr)))
      ensures Complete(world) && old(table.Valid() && table.Covering()) ==> table.Valid() && table.Covering()
      ensures world.Stable? && old(IsWrong(redirSlot)) && redirAddr == world.owner[redirSlot] ==> Stuck() <= old(Stuck())
      ensures world.Stable? && old(IsWrong(redirSlot) && !Blocked(redirSlot)) && redirAddr == world.owner[redirSlot] ==>
                table.Address(redirSlot) == Some(redirAddr) && Mended(old(Wrong()), Wrong(), 1)
    {
      hide MayMap, CoversAll, Table.Valid, Table.KeepsValid, WildAnswers, Table.Remapped, Mended, History, Chronicle, Owner;
      hide Table.Bare, Table.Failover;
      var answers := AskSeeds(world);
      ghost var failover := table.Failover(redirSlot, redirAddr);
      ghost var nodes, master, n0 := table.nodes, table.master[..], |repairs|;
      MapsWell(answers);
      CoveringIsHarmless(answers);
      ok := UpdateSlot(answers);
      if ok && Complete(world) {
        if old(table.Valid()) {
          ChronicleMeans(n0);
        }
        if failover {
          table.CoveredIsValid(answers, nodes, master);
        }
      }
      if world.Stable? && old(IsWrong(redirSlot)) && redirAddr == world.owner[redirSlot] {
        StuckShrinks(redirSlot, ok && failover, old(Stuck()), old(Blocked(redirSlot)));
        if ok {
          WrongShrinks(redirSlot, failover, old(Wrong()));
        }
      }
    }

    lemma WrongShrinks(slot: nat, failover: bool, wrongs: set<int>)
      requires WellFormed(world) && world.Stable? && table.Sized() && slot < SLOTS
      requires slot in wrongs && table.Address(slot) == Some(world.owner[slot])
      requires if failover then forall s :: 0 <= s < SLOTS ==> table.Address(s) == Some(world.owner[s])
               else forall s :: 0 <= s < SLOTS && s != slot && IsWrong(s) ==> s in wrongs
      ensures Mended(wrongs, Wrong(), 1)
    {
      hide Mended, IsWrong;
      forall s | 0 <= s < SLOTS && IsWrong(s) ensures s != slot && s in wrongs {
        WrongMeans(s);
      }
      Shrinks(wrongs, Wrong(), slot);
    }

    /** A slot has been pointed to its owner, or all of them after a failover. */
    lemma StuckShrinks(slot: nat, failover: bool, stuck: set<int>, blocked: bool)
      requires WellFormed(world) && world.Stable? && table.Sized() && slot < SLOTS
      requires blocked ==> slot in stuck
      requires blocked || table.Address(slot) == Some(world.owner[slot])
      requires if failover then forall s :: 0 <= s < SLOTS ==> table.Address(s) == Some(world.owner[s])
               else forall s :: 0 <= s < SLOTS && s != slot && Blocked(s) ==> s in stuck
      ensures Stuck() <= stuck
    {
      hide Table.Bare;
      forall s | 0 <= s < SLOTS && Blocked(s) ensures s in stuck {
        if table.Address(s) == Some(world.owner[s]) {
          table.NotBare(s, world.owner[s]);
        }
      }
    }

    /** One repair of a valid table: it was harmless exactly if the table is valid now. */
    lemma ChronicleMeans(from: nat)
      requires |repairs| == from + 1 && Chronicle(from, true)
      ensures table.Valid() <==> repairs[from].harmless
    {
      assert ValidBefore(repairs[from..], true, 0);
    }

    lemma CoveringIsHarmless(answers: seq<SeedAnswer>)
      requires table.Sized() && redirSlot < SLOTS
      ensures table.Covering() && !table.Failover(redirSlot, redirAddr) ==> table.KeepsValid(redirSlot, redirAddr, answers)
    {
    }

    /** Complete servers map every slot, and stable ones map it to its owner. */
    lemma MapsWell(answers: seq<SeedAnswer>)
      requires WellFormed(world) && MayMap(world, answers)
      ensures Complete(world) ==> !WildAnswers(answers) && FirstMapping(answers).Some? && CoversAll(FirstMapping(answers).value)
      ensures world.Stable? ==> forall s :: 0 <= s < SLOTS ==> Owner(FirstMapping(answers).value, s) == Some(world.owner[s])
    {
    }

    // -------------------------------------------------------------- the request loop

    /** Stable servers, and commands that only go to masters, outside a transaction. */
    ghost predicate Steady()
      reads `mode
    {
      world.Stable? && failover.NoFailover? && mode.Atomic?
    }

    /** The state that a whole run is judged by. */
    ghost function Now(): View
      requires table.Sized()
      reads `redirections, `repairs, table`nodes, table.nodes.Values, table.master
    {
      View(table.nodes, table.master[..], redirections, table.Valid(), table.Covering(), repairs)
    }

    lemma NowMeans()
      requires table.Sized()
      ensures Now().valid == table.Valid() && Now().covering == table.Covering() && Now().master == table.master[..]
      ensures Now().redirections == redirections && Now().repairs == repairs && Now().nodes == table.nodes
    {
    }

    ghost predicate TableKept(nodes: map<Addr, ClusterNode>, master: seq<ClusterNode?>)
      reads table`nodes, table.master
    {
      table.nodes == nodes && table.master[..] == master
    }

    /** Nothing happened to the table. */
    lemma NothingRepaired(wasValid: bool)
      requires wasValid == table.Valid()
      ensures Chronicle(|repairs|, wasValid)
    {
      NoRepair(wasValid);
    }

    /** A redirection has been taken in: the table follows MOVED, and ASK only moves the socket. */
    method Redirect(slot: nat) returns (r: RoundResult)
      requires WellFormed(world) && table.Sound() && slot < SLOTS && !redirType.NoRedir?
      modifies `cmdSock, `repairs, table`nodes, table.master, table.nodes.Values`slot, table.nodes.Values`slave
      ensures table.Sound()
      ensures forall a :: a in table.nodes ==> fresh(table.nodes[a]) || table.nodes[a] in old(table.nodes.Values)
      ensures redirType.Ask? ==> TableKept(old(table.nodes), old(table.master[..]))
      ensures r.Again? || (r == Stop(Undefined) && redirType.Moved?)
      ensures r.Again? ==> cmdSock != null && !cmdSock.replica
      ensures r.Again? ==> if redirType.Ask? then cmdSock.addr == redirAddr else cmdSock == table.master[slot]
      ensures old(repairs) <= repairs && (r.Again? ==> Chronicle(|old(repairs)|, old(table.Valid())))
      ensures Complete(world) && old(table.Valid() && table.Covering()) ==>
                table.Valid() && table.Covering() && (r.Again? || Unfollowable())
      ensures world.Stable? && redirType.Moved? && redirSlot == slot && old(IsWrong(slot)) && redirAddr == world.owner[slot] ==>
                && Stuck() <= old(Stuck())
                && if old(Blocked(slot)) then r == Stop(Undefined) && Blocked(slot)
                   else r.Again? && !IsWrong(slot) && Mended(old(Wrong()), Wrong(), 1)
    {
      hide Table.Valid, History, Mended, Table.KeepsValid, MayMap, Table.Bare, Table.Failover, Stuck, Wrong;
      if redirType.Ask? {
        NothingRepaired(table.Valid());
        cmdSock := GetAskingNode();
        return Again;
      }
      if redirSlot >= SLOTS {
        return Stop(Undefined);
      }
      var ok := FollowMoved();
      if !ok || table.master[slot] == null {
        return Stop(Undefined);
      }
      cmdSock := table.master[slot];
      table.SoundAt(slot);
      r := Again;
    }

    /** The write of one round: MULTI if it is due, then the command. */
    method RoundWrite(slot: nat) returns (w: Written, ghost sent: seq<Event>)
      requires slot < SLOTS && cmdSock != null && table.Sound() && Recorded()
      requires !cmdSock.replica
      requires mode.InMulti? ==> table.master[slot] != null
      modifies `log, `readonlySocks, `multiSocks, `cmdSock, `cmdSlot
      ensures log == old(log) + sent && Recorded() && NoReply(sent) && cmdSock != null
      ensures w.Written? ==> Delivered(sent, cmdSock)
      ensures w.UndefinedWrite? ==> !Strategy().NoFailover?
      ensures Steady() ==>
                w.Written? && cmdSock == old(cmdSock) && sent == Direct(old(cmdSock), redirType.Ask?)
    {
      hide Recorded, Orderly, LastSent, Primed, Delivered, NoneAccepted, NoReply, Tried;
      ghost var multi, more := [], [];
      NothingSent();
      if mode.InMulti? && cmdSock !in multiSocks {
        var ok;
        ok, multi := SendDirect(table.master[slot], Multi);
        OneControl(multi, table.master[slot], Multi, ok);
        if !ok {
          return Unwritten, multi;
        }
        multiSocks := multiSocks + {cmdSock};
      }
      w, more := SockWrite(false);
      assert multi == [] ==> multi + more == more;
      NoneThen(multi, more, cmdSock);
      sent := multi + more;
      DeliveredHasNoReply(sent, cmdSock);
    }

    /** The answer to what was written, as the end of the record. */
    method TakeAnswer(slot: nat, ghost written: seq<Event>) returns (resp: Checked, ghost sent: seq<Event>)
      requires WellFormed(world) && slot < SLOTS && cmdSock != null && Recorded() && NoReply(written)
      modifies `log, `clusterdown, `redirections, `redirType, `redirSlot, `redirAddr
      ensures |sent| == |written| + 1 && sent[..|written|] == written && log == old(log) + sent[|written|..]
      ensures Recorded() && RepliesLast(sent) && Attempts(sent) == Attempts(written)
      ensures redirections == old(redirections) + if MovedLast(sent) then 1 else 0
      ensures resp.Redirected? ==> !redirType.NoRedir? && !clusterdown && (MovedLast(sent) <==> redirType.Moved?)
      ensures resp.Usual? ==> EndsUsually(sent, cmdSock) && (clusterdown <==> !IsFinal(sent[|sent| - 1].answer))
      ensures world.Stable? ==>
                && |world.owner| == SLOTS
                && if world.owner[slot] == cmdSock.addr
                   then resp.Usual? && !clusterdown && !MovedLast(sent)
                   else resp.Redirected? && MovedLast(sent) && redirSlot == slot && redirAddr == world.owner[slot]
    {
      hide Recorded, Orderly, LastSent, Primed, NoReply, Target, IsFinal, Attempts, RepliesLast;
      hide MovedLast, EndsUsually, MayAnswer, WellFormed, IsMoved, Redirects;
      ghost var answer;
      resp, answer := CheckResponse(slot);
      sent := written + [Reply(cmdSock, answer)];
      ReplyLast(written, Reply(cmdSock, answer));
      StableAnswers(slot, cmdSock.addr, answer);
    }

    /** Write the command and look at the answer. */
    method Exchange(slot: nat) returns (w: Written, resp: Checked, ghost sent: seq<Event>)
      requires WellFormed(world) && slot < SLOTS && cmdSock != null && table.Sound() && Recorded()
      requires !cmdSock.replica
      requires mode.InMulti? ==> table.master[slot] != null
      modifies `log, `readonlySocks, `multiSocks, `cmdSock, `cmdSlot, `clusterdown
      modifies `redirections, `redirType, `redirSlot, `redirAddr
      ensures log == old(log) + sent && Recorded() && cmdSock != null
      ensures RepliesLast(sent) && redirections == old(redirections) + if MovedLast(sent) then 1 else 0
      ensures w.UndefinedWrite? ==> !Strategy().NoFailover?
      ensures !w.Written? ==> !MovedLast(sent)
      ensures w.Written? && resp.Redirected? ==>
                !redirType.NoRedir? && !clusterdown && (MovedLast(sent) <==> redirType.Moved?)
      ensures w.Written? && resp.Usual? ==>
                EndsUsually(sent, cmdSock) && (clusterdown <==> !IsFinal(sent[|sent| - 1].answer))
      ensures Steady() ==>
                && w.Written? && cmdSock == old(cmdSock) && Attempts(sent) == 1 && |world.owner| == SLOTS
                && if world.owner[slot] == cmdSock.addr
                   then resp.Usual? && !clusterdown && !MovedLast(sent)
                   else resp.Redirected? && MovedLast(sent) && redirSlot == slot && redirAddr == world.owner[slot]
    {
      hide Recorded, Orderly, LastSent, Primed, Delivered, NoReply, IsFinal, Direct, Attempts, RepliesLast;
      hide MovedLast, EndsUsually, WellFormed, Table.Sound;
      w, sent := RoundWrite(slot);
      NoRepliesYet(sent);
      resp := Broken;
      if !w.Written? {
        return;
      }
      if Steady() {
        DirectOnce(cmdSock, redirType.Ask?);
      }
      ghost var written, before := sent, log;
      resp, sent := TakeAnswer(slot, written);
      assert sent == written + sent[|written|..];
    }

    /** One round of cluster_send_command's loop, up to its time limit. */
    method Round(slot: nat) returns (r: RoundResult, ghost sent: seq<Event>)
      requires WellFormed(world) && slot < SLOTS && cmdSock != null && table.Sound() && Recorded()
      requires !cmdSock.replica
      requires mode.InMulti? ==> table.master[slot] != null
      modifies `log, `readonlySocks, `multiSocks, `cmdSock, `cmdSlot, `clusterdown, `repairs
      modifies `redirections, `redirType, `redirSlot, `redirAddr
      modifies table`nodes, table.master, table.nodes.Values`slot, table.nodes.Values`slave
      ensures log == old(log) + sent && Recorded() && table.Sound() && RepliesLast(sent)
      ensures forall a :: a in table.nodes ==> fresh(table.nodes[a]) || table.nodes[a] in old(table.nodes.Values)
      ensures Accounts(old(Now()), Now(), if MovedLast(sent) then 1 else 0, mode.InMulti?, Complete(world), r != Stop(Undefined))
      ensures r == Leave(false) ==>
                EndsUsually(sent, cmdSock) && (clusterdown <==> !IsFinal(sent[|sent| - 1].answer))
      ensures r.Again? ==> mode.Atomic? && cmdSock != null && !cmdSock.replica && !clusterdown
      ensures r != Stop(Sent)
      ensures Complete(world) && old(table.Valid() && table.Covering()) && Strategy().NoFailover? && r == Stop(Undefined) ==>
                Unfollowable()
      ensures Steady() && old(cmdSock == table.master[slot]) ==>
                Stuck() <= old(Stuck()) && (r == Stop(Undefined) <==> old(Blocked(slot))) && (old(Blocked(slot)) ==> Blocked(slot))
      ensures Steady() && old(cmdSock == table.master[slot] && !Blocked(slot)) ==>
                && table.master[slot] != null && cmdSock == table.master[slot] && !IsWrong(slot) && Attempts(sent) == 1
                && RoundWell(old(IsWrong(slot)), MovedLast(sent), r, clusterdown, old(Wrong()), Wrong())
    {
      hide Recorded, Orderly, LastSent, Primed, Target, RepliesLast, EndsUsually, MovedLast, IsFinal, Attempts;
      hide Table.Valid, Table.Covering, Table.Sound, Chronicle, Mended, Accounts, RoundWell, Wrong, Now;
      hide Stuck, Blocked, Unfollowable, IsWrong, Redirects;
      table.SoundAt(slot);
      NowMeans();
      if Steady() {
        BlockedIsWrong(slot);
      }
      ghost var start := Now();
      var w, resp;
      w, resp, sent := Exchange(slot);
      ghost var moves := if MovedLast(sent) then 1 else 0;
      CounterMoved(start, moves);
      r := Conclude(slot, w, resp, start, moves);
    }

    /** What a round does with the outcome of its exchange. */
    method Conclude(slot: nat, w: Written, resp: Checked, ghost start: View, ghost moves: nat) returns (r: RoundResult)
      requires WellFormed(world) && table.Sound() && slot < SLOTS && table.Sized() && moves <= 1
      requires start == Now().(redirections := start.redirections) && redirections == start.redirections + moves
      requires Accounts(start, Now(), moves, mode.InMulti?, Complete(world), true)
      requires Accounts(start, Now(), moves, mode.InMulti?, Complete(world), false)
      requires w.UndefinedWrite? ==> !Strategy().NoFailover?
      requires w.Written? && resp.Redirected? ==> !redirType.NoRedir? && (moves == 1 <==> redirType.Moved?)
      requires Steady() && cmdSock == table.master[slot] ==>
                 && w.Written? && cmdSock != null
                 && if IsWrong(slot) then resp.Redirected? && moves == 1 && redirSlot == slot && redirAddr == world.owner[slot]
                    else resp.Usual? && !clusterdown && moves == 0
      modifies `cmdSock, `repairs, table`nodes, table.master, table.nodes.Values`slot, table.nodes.Values`slave
      ensures table.Sound()
      ensures forall a :: a in table.nodes ==> fresh(table.nodes[a]) || table.nodes[a] in old(table.nodes.Values)
      ensures Accounts(start, Now(), moves, mode.InMulti?, Complete(world), r != Stop(Undefined))
      ensures r == Leave(false) ==> w.Written? && resp.Usual? && cmdSock == old(cmdSock)
      ensures r.Again? ==> w.Written? && resp.Redirected? && mode.Atomic? && cmdSock != null && !cmdSock.replica
      ensures r != Stop(Sent)
      ensures Complete(world) && old(table.Valid() && table.Covering()) && Strategy().NoFailover? && r == Stop(Undefined) ==>
                Unfollowable()
      ensures Steady() && old(cmdSock == table.master[slot]) ==>
                Stuck() <= old(Stuck()) && (r == Stop(Undefined) <==> old(Blocked(slot))) && (old(Blocked(slot)) ==> Blocked(slot))
      ensures Steady() && old(cmdSock == table.master[slot] && !Blocked(slot)) ==>
                && table.master[slot] != null && cmdSock == table.master[slot] && !IsWrong(slot)
                && RoundWell(old(IsWrong(slot)), moves == 1, r, clusterdown, old(Wrong()), Wrong())
    {
      hide Table.Valid, Table.Covering, Table.Sound, Mended, Accounts, RoundWell, Wrong, Now, Complete;
      hide Stuck, Blocked, Unfollowable, IsWrong;
      if Steady() {
        BlockedIsWrong(slot);
        RoundStays(Wrong());
      }
      if !w.Written? {
        return Stop(if w.Unwritten? then Failed else Undefined);
      }
      if !resp.Redirected? {
        return Leave(resp.Broken?);
      }
      if mode.InMulti? {
        return Stop(Failed);
      }
      ghost var wrong := if Steady() then Wrong() else {};
      r := Follow(slot, start, moves);
      if Steady() {
        RoundMends(clusterdown, wrong, Wrong());
      }
    }

    /** The redirection that ends a round. */
    method Follow(slot: nat, ghost start: View, ghost moves: nat) returns (r: RoundResult)
      requires WellFormed(world) && table.Sound() && slot < SLOTS && !redirType.NoRedir? && mode.Atomic?
      requires start == Now().(redirections := start.redirections) && redirections == start.redirections + moves
      requires moves == 0 ==> redirType.Ask?
      modifies `cmdSock, `repairs, table`nodes, table.master, table.nodes.Values`slot, table.nodes.Values`slave
      ensures table.Sound()
      ensures forall a :: a in table.nodes ==> fresh(table.nodes[a]) || table.nodes[a] in old(table.nodes.Values)
      ensures Accounts(start, Now(), moves, false, Complete(world), r.Again?)
      ensures r.Again? || r == Stop(Undefined)
      ensures r.Again? ==> cmdSock != null && !cmdSock.replica
      ensures Complete(world) && old(table.Valid() && table.Covering()) && r == Stop(Undefined) ==> Unfollowable()
      ensures world.Stable? && redirType.Moved? && redirSlot == slot && old(IsWrong(slot)) && redirAddr == world.owner[slot] ==>
                && Stuck() <= old(Stuck())
                && if old(Blocked(slot)) then r == Stop(Undefined) && Blocked(slot)
                   else r.Again? && cmdSock == table.master[slot] && !IsWrong(slot) && Mended(old(Wrong()), Wrong(), 1)
    {
      hide Table.Valid, Table.Covering, Table.Sound, Chronicle, Mended, Accounts, Wrong, Now, Stuck, Blocked, Unfollowable;
      table.SoundAt(slot);
      NowMeans();
      r := Redirect(slot);
      Chronicled(start, moves, r.Again?);
    }

    /** Only the counter has changed since. */
    lemma CounterMoved(start: View, moves: nat)
      requires table.Sized() && redirections == start.redirections + moves && repairs == start.repairs
      requires table.nodes == start.nodes && table.master[..] == start.master
      requires table.Valid() == start.valid && table.Covering() == start.covering
      ensures Accounts(start, Now(), moves, mode.InMulti?, Complete(world), true)
      ensures Accounts(start, Now(), moves, mode.InMulti?, Complete(world), false)
      ensures start == Now().(redirections := start.redirections)
    {
      hide Table.Valid, Table.Covering, Accounts;
      AccountsMoved(start, Now(), moves, mode.InMulti?, Complete(world), true);
      AccountsMoved(start, Now(), moves, mode.InMulti?, Complete(world), false);
    }

    /** The table may have changed too. */
    lemma Chronicled(start: View, moves: nat, defined: bool)
      requires table.Sized() && mode.Atomic? && start.repairs <= repairs && redirections == start.redirections + moves
      requires moves == 0 ==> table.nodes == start.nodes && table.master[..] == start.master
      requires defined ==> Chronicle(|start.repairs|, start.valid)
      requires Complete(world) && start.valid && start.covering ==> table.Valid() && table.Covering()
      ensures Accounts(start, Now(), moves, mode.InMulti?, Complete(world), defined)
    {
      hide Table.Valid, Table.Covering, Accounts, History;
      AccountsRepaired(start, Now(), moves, Complete(world), defined);
    }

    /** The request loop of cluster_send_command, with a bound on the number of rounds. */
    method Loop(slot: nat, rounds: nat) returns (r: RoundResult, timedout: bool, ghost sent: seq<Event>)
      requires WellFormed(world) && slot < SLOTS && table.Sound() && Recorded()
      requires table.master[slot] != null && cmdSock == table.master[slot]
      modifies `log, `readonlySocks, `multiSocks, `cmdSock, `cmdSlot, `clusterdown, `repairs
      modifies `redirections, `redirType, `redirSlot, `redirAddr
      modifies table`nodes, table.master, table.nodes.Values`slot, table.nodes.Values`slave
      ensures log == old(log) + sent && Recorded() && table.Sound()
      ensures forall a :: a in table.nodes ==> fresh(table.nodes[a]) || table.nodes[a] in old(table.nodes.Values)
      ensures Accounts(old(Now()), Now(), Moves(sent), mode.InMulti?, Complete(world), r != Stop(Undefined))
      ensures r != Stop(Sent) && (r == Leave(false) ==> EndsUsually(sent, cmdSock))
      ensures mode.InMulti? ==> RepliesLast(sent)
      ensures Complete(world) && old(table.Valid() && table.Covering()) && Strategy().NoFailover? && r == Stop(Undefined) ==>
                Unfollowable()
      ensures Steady() ==> Stuck() <= old(Stuck()) && (r == Stop(Undefined) <==> rounds > 0 && old(Blocked(slot)))
      ensures Steady() && r == Stop(Undefined) ==> Blocked(slot)
      ensures Steady() && r != Stop(Undefined) ==> Mended(old(Wrong()), Wrong(), Moves(sent))
      ensures Steady() && rounds >= 2 && !old(Blocked(slot)) ==>
                && r == Leave(false) && !timedout && !clusterdown && Attempts(sent) == 1 + Moves(sent)
                && Moves(sent) == (if old(IsWrong(slot)) then 1 else 0)
                && table.master[slot] != null && cmdSock == table.master[slot] && !IsWrong(slot)
    {
      hide Recorded, Orderly, LastSent, Primed, RepliesLast, EndsUsually, Attempts, Moves, Redirects, IsFinal;
      hide Table.Valid, Table.Covering, Wrong, Table.Sound, Mended, Accounts, Now, IsWrong, WellFormed, Complete, Course, Followed;
      hide Stuck, Blocked, Unfollowable;
      sent := [];
      table.SoundAt(slot);
      NowMeans();
      ghost var before, start := log, Now();
      ghost var from := if Steady() then Standing(slot) else Standpoint(false, false, {}, {});
      FollowsNothing(slot);
      if Steady() {
        CourseStarts(slot);
      }
      r, timedout := Again, false;
      var left := rounds;
      while r.Again? && !timedout && left > 0
        invariant 0 <= left <= rounds && table.Sound() && Recorded() && log == before + sent
        invariant forall a :: a in table.nodes ==> fresh(table.nodes[a]) || table.nodes[a] in old(table.nodes.Values)
        invariant Followed(slot, start, sent, r)
        invariant Steady() ==> Course(slot, from, sent, r, timedout, rounds - left)
      {
        left := left - 1;
        ghost var more;
        r, timedout, more := Turn(slot, start, from, sent, rounds - left - 1);
        sent := sent + more;
      }
      FollowedMeans(slot, start, sent, r);
      if Steady() {
        CourseEnds(slot, from, sent, r, timedout, rounds - left);
      }
    }

    /** Where the loop is, whatever the servers do: start is the state it began with, and sent the
        record since. */
    ghost predicate Followed(slot: nat, start: View, sent: seq<Event>, r: RoundResult)
      requires slot < SLOTS && table.Sized()
      reads `mode, `readonly, `cmdSock, `redirSlot, `redirAddr, `redirections, `repairs
      reads table`nodes, table.nodes.Values, table.master, (set s | 0 <= s < table.master.Length && table.master[s] != null :: table.master[s])`slaves
    {
      && Accounts(start, Now(), Moves(sent), mode.InMulti?, Complete(world), r != Stop(Undefined))
      && (mode.InMulti? ==> RepliesLast(sent) && (r.Again? ==> sent == [] && table.master[slot] != null))
      && (Complete(world) && start.valid && start.covering && Strategy().NoFailover? && r == Stop(Undefined) ==>
            Unfollowable())
      && (r.Again? ==> cmdSock != null && !cmdSock.replica)
      && (r == Leave(false) ==> EndsUsually(sent, cmdSock))
      && r != Stop(Sent)
    }

    lemma FollowsNothing(slot: nat)
      requires slot < SLOTS && table.Sized() && table.master[slot] != null && cmdSock == table.master[slot] && !cmdSock.replica
      ensures Followed(slot, Now(), [], Again)
    {
      hide Accounts, Now, Complete;
      NothingCounted();
      AccountsNothing(Now(), mode.InMulti?, Complete(world));
    }

    lemma FollowedMeans(slot: nat, start: View, sent: seq<Event>, r: RoundResult)
      requires slot < SLOTS && table.Sized() && Followed(slot, start, sent, r)
      ensures Accounts(start, Now(), Moves(sent), mode.InMulti?, Complete(world), r != Stop(Undefined))
      ensures mode.InMulti? ==> RepliesLast(sent) && (r.Again? ==> sent == [] && table.master[slot] != null)
      ensures Complete(world) && start.valid && start.covering && Strategy().NoFailover? && r == Stop(Undefined) ==>
                Unfollowable()
      ensures r.Again? ==> cmdSock != null && !cmdSock.replica
      ensures r == Leave(false) ==> EndsUsually(sent, cmdSock)
      ensures r != Stop(Sent)
    {
    }

    /** One turn of the loop. */
    method Turn(slot: nat, ghost start: View, ghost from: Standpoint, ghost sent: seq<Event>, ghost rounds: nat)
      returns (r: RoundResult, timedout: bool, ghost more: seq<Event>)
      requires WellFormed(world) && slot < SLOTS && table.Sound() && Recorded()
      requires Followed(slot, start, sent, Again)
      requires Steady() ==> Course(slot, from, sent, Again, false, rounds)
      modifies `log, `readonlySocks, `multiSocks, `cmdSock, `cmdSlot, `clusterdown, `repairs
      modifies `redirections, `redirType, `redirSlot, `redirAddr
      modifies table`nodes, table.master, table.nodes.Values`slot, table.nodes.Values`slave
      ensures log == old(log) + more && Recorded() && table.Sound()
      ensures forall a :: a in table.nodes ==> fresh(table.nodes[a]) || table.nodes[a] in old(table.nodes.Values)
      ensures Followed(slot, start, sent + more, r)
      ensures Steady() ==> Course(slot, from, sent + more, r, timedout, rounds + 1)
    {
      hide Recorded, Orderly, LastSent, Primed, RepliesLast, EndsUsually, MovedLast, IsFinal, Attempts, Moves, Redirects;
      hide Table.Valid, Table.Covering, Wrong, Table.Sound, WentWell, Mended, Accounts, Now, RoundWell, IsWrong, WellFormed;
      hide Complete, Course, Followed, Stuck, Blocked, Unfollowable;
      table.SoundAt(slot);
      NowMeans();
      FollowedMeans(slot, start, sent, Again);
      ghost var mid, moves, down := Now(), Moves(sent), clusterdown;
      ghost var here := if Steady() then Standing(slot) else Standpoint(false, false, {}, {});
      if Steady() {
        CourseMeans(slot, from, sent, rounds);
      }
      StillComplete(start, mid, moves, mode.InMulti?, Complete(world));
      r, more := Round(slot);
      RoundAdds(sent, more, cmdSock);
      AccountsAdd(start, mid, Now(), moves, if MovedLast(more) then 1 else 0, mode.InMulti?, Complete(world), r != Stop(Undefined));
      StillFollowed(slot, start, sent, more, r);
      timedout := TimedOut();
      if Steady() {
        StaysOnCourse(slot, from, here, sent, more, r, down, rounds);
      }
    }

    lemma StillFollowed(slot: nat, start: View, sent: seq<Event>, more: seq<Event>, r: RoundResult)
      requires slot < SLOTS && table.Sized()
      requires Accounts(start, Now(), Moves(sent + more), mode.InMulti?, Complete(world), r != Stop(Undefined))
      requires mode.InMulti? ==> sent == [] && RepliesLast(more)
      requires Complete(world) && start.valid && start.covering && Strategy().NoFailover? && r == Stop(Undefined) ==>
                 Unfollowable()
      requires r.Again? ==> mode.Atomic? && cmdSock != null && !cmdSock.replica
      requires r == Leave(false) ==> EndsUsually(sent + more, cmdSock)
      requires r != Stop(Sent)
      ensures Followed(slot, start, sent + more, r)
    {
      hide Accounts, Moves, Now, Complete, EndsUsually, RepliesLast;
      assert sent == [] ==> sent + more == more;
    }

    /** How the slot and the table stand with stable servers. */
    ghost function Standing(slot: nat): Standpoint
      requires slot < SLOTS && WellFormed(world) && world.Stable? && table.Sized()
      reads table`nodes, table.master, (set s | 0 <= s < table.master.Length && table.master[s] != null :: table.master[s])`slaves
    {
      Standpoint(IsWrong(slot), Blocked(slot), Wrong(), Stuck())
    }

    /** With stable servers: where the loop is after so many rounds. A blocked slot ends it in the
        first. */
    ghost predicate Course(slot: nat, from: Standpoint, sent: seq<Event>, r: RoundResult, timedout: bool, rounds: nat)
      requires slot < SLOTS && WellFormed(world) && world.Stable? && table.Sized()
      reads table`nodes, table.master, `cmdSock, `clusterdown, (set s | 0 <= s < table.master.Length && table.master[s] != null :: table.master[s])`slaves
    {
      && Stuck() <= from.stuck && Blocked(slot) == from.blocked
      && if from.blocked && rounds > 0 then r == Stop(Undefined)
         else
        && table.master[slot] != null && cmdSock == table.master[slot] && Attempts(sent) == rounds
        && WentWell(from.wrong, IsWrong(slot), Moves(sent), r, timedout, clusterdown, rounds)
        && Mended(from.wrongs, Wrong(), Moves(sent))
    }

    lemma CourseStarts(slot: nat)
      requires slot < SLOTS && WellFormed(world) && world.Stable? && table.Sized()
      requires table.master[slot] != null && cmdSock == table.master[slot]
      ensures Course(slot, Standing(slot), [], Again, false, 0)
    {
      hide Stuck, Blocked, Wrong;
    }

    /** While the loop goes on. */
    lemma CourseMeans(slot: nat, from: Standpoint, sent: seq<Event>, rounds: nat)
      requires slot < SLOTS && WellFormed(world) && world.Stable? && table.Sized()
      requires Course(slot, from, sent, Again, false, rounds)
      ensures table.master[slot] != null && cmdSock == table.master[slot] && Attempts(sent) == rounds
      ensures WentWell(from.wrong, IsWrong(slot), Moves(sent), Again, false, clusterdown, rounds)
      ensures Mended(from.wrongs, Wrong(), Moves(sent)) && Stuck() <= from.stuck && Blocked(slot) == from.blocked
      ensures from.blocked ==> rounds == 0
    {
      hide Stuck, Blocked, Wrong, IsWrong;
    }

    lemma StaysOnCourse(slot: nat, from: Standpoint, here: Standpoint, sent: seq<Event>, more: seq<Event>,
                        r: RoundResult, down: bool, rounds: nat)
      requires slot < SLOTS && WellFormed(world) && world.Stable? && table.Sized()
      requires r == Stop(Undefined) <==> here.blocked
      requires here.blocked == from.blocked
      requires WentWell(from.wrong, here.wrong, Moves(sent), Again, false, down, rounds) && Mended(from.wrongs, here.wrongs, Moves(sent))
      requires Attempts(sent) == rounds && Stuck() <= here.stuck <= from.stuck && (here.blocked ==> Blocked(slot))
      requires !here.blocked ==>
                 && table.master[slot] != null && cmdSock == table.master[slot] && !IsWrong(slot)
                 && Attempts(sent + more) == rounds + 1
                 && Moves(sent + more) == Moves(sent) + (if MovedLast(more) then 1 else 0)
                 && RoundWell(here.wrong, MovedLast(more), r, clusterdown, here.wrongs, Wrong())
      ensures Course(slot, from, sent + more, r, false, rounds + 1)
    {
      hide Attempts, Moves, MovedLast, IsWrong, Wrong, WentWell, Mended, RoundWell, Stuck, Blocked, Unfollowable;
      if !here.blocked {
        BlockedIsWrong(slot);
        StepsWell(from.wrong, here.wrong, Moves(sent), rounds, r, clusterdown, down, MovedLast(more), from.wrongs, here.wrongs, Wrong());
      }
    }

    lemma CourseEnds(slot: nat, from: Standpoint, sent: seq<Event>, r: RoundResult, timedout: bool, rounds: nat)
      requires slot < SLOTS && WellFormed(world) && world.Stable? && table.Sized()
      requires Course(slot, from, sent, r, timedout, rounds)
      ensures !from.blocked && (rounds >= 2 || (rounds > 0 && !r.Again?)) ==>
                && r == Leave(false) && !timedout && !clusterdown && Attempts(sent) == 1 + Moves(sent)
                && Moves(sent) == (if from.wrong then 1 else 0) && !IsWrong(slot)
                && table.master[slot] != null && cmdSock == table.master[slot]
      ensures Stuck() <= from.stuck && (r == Stop(Undefined) <==> rounds > 0 && from.blocked)
      ensures rounds == 0 ==> r.Again? && !timedout
      ensures if r == Stop(Undefined) then Blocked(slot) else !timedout && Mended(from.wrongs, Wrong(), Moves(sent))
    {
      hide Stuck, Blocked, Wrong, IsWrong;
    }

    /** cluster_send_command, with a bound on the number of rounds. */
    method SendCommand(slot: nat, rounds: nat) returns (outcome: Outcome, ghost sent: seq<Event>)
      requires WellFormed(world) && slot < SLOTS && table.Sound() && Recorded()
      modifies `log, `readonlySocks, `multiSocks, `cmdSock, `cmdSlot, `clusterdown, `repairs
      modifies `redirections, `redirType, `redirSlot, `redirAddr
      modifies table`nodes, table.master, table.nodes.Values`slot, table.nodes.Values`slave
      ensures log == old(log) + sent && Recorded() && table.Sound()
      ensures forall a :: a in table.nodes ==> fresh(table.nodes[a]) || table.nodes[a] in old(table.nodes.Values)
      // a success ends with a reply that is no redirection
      ensures outcome.Sent? ==> redirType == NoRedir && EndsUsually(sent, cmdSock) && !clusterdown
      // each MOVED is counted, only MOVED changes the table, and only a harmful one makes it invalid
      ensures Accounts(old(Now()), Now(), Moves(sent), mode.InMulti?, Complete(world), !outcome.Undefined?)
      // in MULTI mode no redirection is followed
      ensures mode.InMulti? ==> RepliesLast(sent)
      // what is undefined
      ensures Complete(world) && old(table.Valid() && table.Covering()) && Strategy().NoFailover? && outcome.Undefined? ==>
                Unfollowable()
      // with stable servers, one attempt or two, unless the slot is blocked
      ensures Steady() ==> Stuck() <= old(Stuck()) && (outcome.Undefined? ==> Blocked(slot))
      ensures Steady() && !outcome.Undefined? ==> Mended(old(Wrong()), Wrong(), Moves(sent))
      ensures Steady() && old(table.master[slot]) != null && rounds >= 2 ==>
                (outcome.Sent? <==> !old(Blocked(slot))) && (outcome.Undefined? <==> old(Blocked(slot)))
      ensures Steady() && old(table.master[slot]) != null && rounds >= 2 && outcome.Sent? ==>
                && Attempts(sent) == 1 + Moves(sent)
                && Moves(sent) == (if old(IsWrong(slot)) then 1 else 0)
                && table.master[slot] != null && cmdSock == table.master[slot] && !IsWrong(slot)
    {
      hide Recorded, Orderly, LastSent, Primed, RepliesLast, EndsUsually, IsFinal, Attempts, Moves, Redirects;
      hide Table.Valid, Table.Covering, Wrong, Mended, Accounts, Table.Sound, Stuck, Unfollowable, Now, Complete;
      sent := [];
      NothingCounted();
      table.SoundAt(slot);
      if table.master[slot] == null {
        AccountsNothing(Now(), mode.InMulti?, Complete(world));
        if Steady() {
          StartsWell(false, clusterdown, Wrong());
        }
        return Failed, sent;
      }
      cmdSlot, cmdSock := slot, table.master[slot];
      var r, timedout;
      r, timedout, sent := Loop(slot, rounds);
      outcome := Finish(r, timedout);
    }

    method TimedOut() returns (timedout: bool)
      ensures world.Stable? || !waits ==> !timedout
    {
      timedout := *;
      timedout := timedout && waits && !world.Stable?;
    }

    /** What follows the request loop. */
    method Finish(r: RoundResult, timedout: bool) returns (outcome: Outcome)
      modifies `redirType
      ensures outcome == if r.Stop? then r.outcome
                         else if r.Again? && !timedout then StillRunning
                         else if clusterdown || timedout || r == Leave(true) then Failed
                         else Sent
      ensures redirType == if outcome.Sent? && !r.Stop? then NoRedir else old(redirType)
    {
      if r.Stop? {
        return r.outcome;
      }
      if r.Again? && !timedout {
        return StillRunning;
      }
      if clusterdown || timedout || r.Again? || r.broken {
        return Failed;
      }
      redirType := NoRedir;
      outcome := Sent;
    }

    /** Where a session is, after the commands for these slots and so many MOVED. */
    ghost predicate Going(start: View, wrongs: set<int>, stuck: set<int>, used: seq<nat>, moves: nat, steady: bool)
      requires WellFormed(world) && table.Sized()
      reads `mode, `redirections, `repairs, table`nodes, table.nodes.Values, table.master, (set s | 0 <= s < table.master.Length && table.master[s] != null :: table.master[s])`slaves
    {
      && Accounts(start, Now(), moves, mode.InMulti?, Complete(world), true)
      && (Steady() ==> Mended(wrongs, Wrong(), moves) && Stuck() <= stuck)
      && (Steady() && steady ==> forall j :: 0 <= j < |used| ==> used[j] !in Wrong())
    }

    lemma GoingMeans(start: View, wrongs: set<int>, stuck: set<int>, used: seq<nat>, moves: nat, steady: bool)
      requires WellFormed(world) && table.Sized() && Going(start, wrongs, stuck, used, moves, steady)
      ensures Accounts(start, Now(), moves, mode.InMulti?, Complete(world), true)
      ensures Steady() ==> Mended(wrongs, Wrong(), moves) && Stuck() <= stuck
      ensures Steady() && steady ==> forall j :: 0 <= j < |used| ==> used[j] !in Wrong()
    {
    }

    lemma StillGoing(start: View, wrongs: set<int>, was: set<int>, stuck: set<int>, used: seq<nat>, slot: nat, m: nat, n: nat, steady: bool)
      requires WellFormed(world) && table.Sized() && slot < SLOTS
      requires Accounts(start, Now(), m + n, mode.InMulti?, Complete(world), true)
      requires Steady() ==> Mended(wrongs, was, m) && Mended(was, Wrong(), n) && Stuck() <= stuck
      requires Steady() && steady ==> !IsWrong(slot) && forall j :: 0 <= j < |used| ==> used[j] !in was
      ensures Going(start, wrongs, stuck, used + [slot], m + n, steady)
    {
      hide Accounts, Now, Wrong, IsWrong, Stuck;
      if Steady() {
        WrongMeans(slot);
      }
    }

    /** One command of a session. */
    method Next(slot: nat, rounds: nat, ghost start: View, ghost wrongs: set<int>, ghost stuck: set<int>, ghost used: seq<nat>, ghost moves: nat, ghost steady: bool)
      returns (outcome: Outcome, ghost more: nat)
      requires WellFormed(world) && table.Sound() && Recorded() && slot < SLOTS
      requires Going(start, wrongs, stuck, used, moves, steady) && steady == (rounds >= 2 && start.valid && start.covering)
      modifies `log, `readonlySocks, `multiSocks, `cmdSock, `cmdSlot, `clusterdown, `repairs
      modifies `redirections, `redirType, `redirSlot, `redirAddr
      modifies table`nodes, table.master, table.nodes.Values`slot, table.nodes.Values`slave
      ensures table.Sound() && Recorded() && old(log) <= log
      ensures forall a :: a in table.nodes ==> fresh(table.nodes[a]) || table.nodes[a] in old(table.nodes.Values)
      ensures if outcome.Undefined?
              then Accounts(start, Now(), moves + more, mode.InMulti?, Complete(world), false) && (Steady() ==> slot in Stuck() && Stuck() <= stuck)
              else Going(start, wrongs, stuck, used + [slot], moves + more, steady)
    {
      hide Recorded, Orderly, LastSent, Primed, Table.Valid, Table.Covering, Table.Sound, Wrong, Attempts, Moves, Accounts;
      hide RepliesLast, EndsUsually, Mended, IsWrong, Going, Now, Stuck, Blocked, Unfollowable;
      table.SoundAt(slot);
      ghost var mid, was := Now(), if Steady() then Wrong() else {};
      GoingMeans(start, wrongs, stuck, used, moves, steady);
      StillComplete(start, mid, moves, mode.InMulti?, Complete(world));
      NowMeans();
      CoveringHas(slot);
      ghost var sent;
      outcome, sent := SendCommand(slot, rounds);
      more := Moves(sent);
      AccountsAdd(start, mid, Now(), moves, more, mode.InMulti?, Complete(world), !outcome.Undefined?);
      if Steady() {
        BlockedIsWrong(slot);
      }
      if !outcome.Undefined? {
        StillGoing(start, wrongs, was, stuck, used, slot, moves, more, steady);
      }
    }

    /** Any sequence of commands, up to an undefined one. Whatever the servers do, the record stays
        orderly, and a valid table is valid after every repair if and only if every repair was
        harmless; complete slot maps keep it valid and complete. With stable servers, all
        redirections together are at most as many as there were wrong slots, no slot becomes wrong or
        blocked, and the run is defined if and only if it leaves no slot it used blocked; then each
        of them is right at the end. */
    method Session(slots: seq<nat>, rounds: nat) returns (done: bool)
      requires WellFormed(world) && table.Sound() && Recorded()
      requires forall i :: 0 <= i < |slots| ==> slots[i] < SLOTS
      modifies `log, `readonlySocks, `multiSocks, `cmdSock, `cmdSlot, `clusterdown, `repairs
      modifies `redirections, `redirType, `redirSlot, `redirAddr
      modifies table`nodes, table.master, table.nodes.Values`slot, table.nodes.Values`slave
      ensures table.Sound() && Recorded() && old(log) <= log && old(repairs) <= repairs
      ensures done && old(table.Valid()) ==>
                var fixes := repairs[|old(repairs)|..];
                && ((forall i :: 0 <= i < |fixes| ==> fixes[i].valid) <==> (forall i :: 0 <= i < |fixes| ==> fixes[i].harmless))
                && ((forall i :: 0 <= i < |fixes| ==> fixes[i].harmless) ==> table.Valid())
      ensures Complete(world) && old(table.Valid() && table.Covering()) ==> table.Valid() && table.Covering()
      ensures Steady() ==> Stuck() <= old(Stuck())
      ensures Steady() && rounds >= 2 && old(table.Valid() && table.Covering()) ==>
                (done <==> forall i :: 0 <= i < |slots| ==> slots[i] !in Stuck())
      ensures Steady() && rounds >= 2 && old(table.Valid() && table.Covering()) ==>
                (forall i :: 0 <= i < |slots| ==> slots[i] !in old(Stuck())) ==> done
      ensures Steady() && done ==>
                redirections >= old(redirections) && Mended(old(Wrong()), Wrong(), redirections - old(redirections))
      ensures Steady() && rounds >= 2 && old(table.Valid() && table.Covering()) && done ==>
                forall i :: 0 <= i < |slots| ==> slots[i] !in Wrong()
    {
      hide Recorded, Orderly, LastSent, Primed, Table.Valid, Table.Covering, Table.Sound, Wrong, Accounts, Going, Now, Stuck, Blocked;
      table.SoundAt(0);
      NowMeans();
      ghost var start, wrongs, moves: nat := Now(), if Steady() then Wrong() else {}, 0;
      ghost var stuck := if Steady() then Stuck() else {};
      ghost var steady := rounds >= 2 && start.valid && start.covering;
      StartsGoing(steady);
      for i := 0 to |slots|
        invariant table.Sound() && Recorded() && old(log) <= log
        invariant forall a :: a in table.nodes ==> fresh(table.nodes[a]) || table.nodes[a] in old(table.nodes.Values)
        invariant Going(start, wrongs, stuck, slots[..i], moves, steady)
      {
        ghost var more;
        var outcome;
        outcome, more := Next(slots[i], rounds, start, wrongs, stuck, slots[..i], moves, steady);
        moves := moves + more;
        if outcome.Undefined? {
          NowMeans();
          AccountsMean(start, Now(), moves, mode.InMulti?, Complete(world), false);
          return false;
        }
        assert slots[..i + 1] == slots[..i] + [slots[i]];
      }
      assert slots[..|slots|] == slots;
      NowMeans();
      GoingMeans(start, wrongs, stuck, slots, moves, steady);
      AccountsMean(start, Now(), moves, mode.InMulti?, Complete(world), true);
      if Steady() {
        RightIsFree();
      }
      done := true;
    }

    lemma RightIsFree()
      requires WellFormed(world) && world.Stable? && table.Sized()
      ensures Stuck() <= Wrong()
    {
    }

    lemma StartsGoing(steady: bool)
      requires WellFormed(world) && table.Sized()
      ensures Going(Now(), if Steady() then Wrong() else {}, if Steady() then Stuck() else {}, [], 0, steady)
    {
      hide Accounts, Now, Wrong, Stuck;
      AccountsNothing(Now(), mode.InMulti?, Complete(world));
    }

    /** What stable servers answer, in terms of redirections. */
    lemma StableAnswers(slot: nat, node: Addr, answer: Answer)
      requires WellFormed(world) && slot < SLOTS && MayAnswer(world, slot, node, answer)
      ensures world.Stable? ==> |world.owner| == SLOTS
      ensures world.Stable? ==>
                if world.owner[slot] == node then IsFinal(answer) && answer.Answer? && answer.line.Some? && !Redirects(answer) && !IsMoved(answer)
                else IsMoved(answer) && Redirects(answer) && Target(answer) == Some((slot, world.owner[slot]))
    {
      if world.Stable? && world.owner[slot] != node {
        MovedToReads(slot, world.owner[slot]);
      }
    }
  }

  // ---------------------------------------------------------------- what a write leaves in the record

  /** Index 0 is the master, the replicas follow. */
  ghost function NodeAt(m: ClusterNode, k: nat): ClusterNode
    requires m.Keyed()
    reads m`slaves, m`nextSlave
  {
    if k in m.slaves then m.slaves[k] else m
  }

  ghost predicate Eligible(m: ClusterNode, nomaster: bool, k: nat)
    reads m`slaves
  {
    (k == 0 && !nomaster) || k in m.slaves
  }

  /** The events concern eligible nodes, and each of them got the payload at most once. */
  ghost predicate DistSent(m: ClusterNode, nomaster: bool, sent: seq<Event>)
    requires m.Keyed()
    reads m`slaves, m`nextSlave
  {
    AtMostOnce(sent) && forall i :: 0 <= i < |sent| ==> OnEligible(m, nomaster, sent[i].node)
  }

  ghost predicate OnEligible(m: ClusterNode, nomaster: bool, n: ClusterNode)
    requires m.Keyed()
    reads m`slaves, m`nextSlave
  {
    exists k :: Eligible(m, nomaster, k) && NodeAt(m, k) == n
  }

  predicate NoReply(sent: seq<Event>) {
    forall i :: 0 <= i < |sent| ==> !sent[i].Reply?
  }

  /** Nothing delivered the payload, and nothing was read but acknowledgements. */
  predicate NoneAccepted(sent: seq<Event>) {
    forall i :: 0 <= i < |sent| ==> !Accepted(sent[i]) && !sent[i].Reply?
  }

  lemma DeliveredHasNoReply(sent: seq<Event>, n: ClusterNode?)
    ensures NoneAccepted(sent) || Delivered(sent, n) ==> NoReply(sent)
  {
    if Delivered(sent, n) {
      assert forall i :: 0 <= i < |sent| - 1 ==> sent[i] == sent[..|sent| - 1][i];
    }
  }

  predicate AllOn(sent: seq<Event>, n: ClusterNode) {
    forall i :: 0 <= i < |sent| ==> sent[i].node == n
  }

  /** No node got the payload twice. */
  predicate AtMostOnce(sent: seq<Event>) {
    forall i, j :: 0 <= i < j < |sent| && sent[i].Payload? && sent[j].Payload? ==> sent[i].node != sent[j].node
  }

  /** The last event delivered the payload to n, and no event before did. */
  predicate Delivered(sent: seq<Event>, n: ClusterNode?) {
    sent != [] && Accepted(sent[|sent| - 1]) && sent[|sent| - 1].node == n && NoneAccepted(sent[..|sent| - 1])
  }

  /** The node refused the payload, or refused READONLY before it. */
  predicate Tried(sent: seq<Event>, n: ClusterNode) {
    exists i :: 0 <= i < |sent| && sent[i].node == n && Refused(sent[i])
  }

  predicate Refused(e: Event) {
    (e.Payload? && !e.accepted) || (e.Control? && e.command == ReadOnly && !e.acked)
  }

  ghost predicate AllRefused(m: ClusterNode, nomaster: bool, sent: seq<Event>)
    requires m.Keyed()
    reads m`slaves, m`nextSlave
  {
    NoneAccepted(sent) && forall k :: Eligible(m, nomaster, k) ==> Tried(sent, NodeAt(m, k))
  }

  /** What a delivery to the command socket consists of. */
  ghost function Direct(n: ClusterNode, ask: bool): seq<Event> {
    (if ask then [Control(n, Asking, true)] else []) + [Payload(n, ask, true)]
  }

  /** The payload goes to n at once, apart from a reconnection. */
  ghost predicate Directly(sent: seq<Event>, n: ClusterNode, ask: bool, ok: bool) {
    sent == [Payload(n, ask, ok)] || sent == [Reconnected(n), Payload(n, ask, ok)]
  }

  ghost predicate StartsDirectly(sent: seq<Event>, n: ClusterNode) {
    || (|sent| > 0 && sent[0].Payload? && sent[0].node == n)
    || (|sent| > 1 && sent[0] == Reconnected(n) && sent[1].Payload? && sent[1].node == n)
  }

  lemma StartsStill(a: seq<Event>, b: seq<Event>, n: ClusterNode)
    requires StartsDirectly(a, n)
    ensures StartsDirectly(a + b, n)
  {
  }

  /** ASKING comes first, apart from a reconnection. */
  ghost predicate AsksFirst(sent: seq<Event>, n: ClusterNode, acked: bool) {
    || (|sent| > 0 && sent[0] == Control(n, Asking, acked))
    || (|sent| > 1 && sent[0] == Reconnected(n) && sent[1] == Control(n, Asking, acked))
  }

  /** A delivery to the target of an ASK that closes the connection after each answer. */
  ghost function DroppedDirect(n: ClusterNode): seq<Event> {
    [Reconnected(n), Control(n, Asking, true), Reconnected(n), Payload(n, true, true)]
  }

  /** ... is orderly, and yet the server does not know of the ASKING when the payload arrives. */
  lemma DroppedAsking(log: seq<Event>, n: ClusterNode)
    requires Orderly(log) && !n.replica
    ensures Orderly(log + DroppedDirect(n))
    ensures var i := |log| + 3;
            (log + DroppedDirect(n))[i] == Payload(n, true, true) && LastOn((log + DroppedDirect(n))[..i], n) == Some(Reconnected(n))
  {
    hide Orderly, LastOn, LastSent, Primed;
    var a := log + [Reconnected(n)];
    var b := a + [Control(n, Asking, true)];
    var c := b + [Reconnected(n)];
    Snoc(log, Reconnected(n));
    Snoc(a, Control(n, Asking, true));
    Snoc(b, Reconnected(n));
    Snoc(c, Payload(n, true, true));
    var whole := log + DroppedDirect(n);
    assert whole == c + [Payload(n, true, true)];
    assert whole[..|log| + 3] == c;
  }

  /** A read from a replica that was flagged as readonly and has closed its connection since: the
      server does not know of the READONLY. */
  lemma DroppedReadonly(log: seq<Event>, n: ClusterNode)
    requires Orderly(log) && Primed(log, n)
    ensures Orderly(log + [Reconnected(n), Payload(n, false, true)])
    ensures !StillPrimed(log + [Reconnected(n)], n)
  {
    Snoc(log, Reconnected(n));
    Snoc(log + [Reconnected(n)], Payload(n, false, true));
    assert log + [Reconnected(n)] + [Payload(n, false, true)] == log + [Reconnected(n), Payload(n, false, true)];
  }

  lemma DeliversLast(sent: seq<Event>, more: seq<Event>, n: ClusterNode, ask: bool)
    requires NoneAccepted(sent) && Directly(more, n, ask, true)
    ensures Delivered(sent + more, n)
  {
    OneSent(more, n, ask, true);
    NoneThen(sent, more, n);
  }

  lemma RefusesLast(sent: seq<Event>, more: seq<Event>, n: ClusterNode, ask: bool)
    requires NoneAccepted(sent) && Directly(more, n, ask, false)
    ensures NoneAccepted(sent + more) && Tried(sent + more, n)
    ensures forall x :: Tried(sent, x) ==> Tried(sent + more, x)
  {
    OneSent(more, n, ask, false);
    NoneThen(sent, more, n);
    TriedEither(sent, more, n);
    forall x | Tried(sent, x) ensures Tried(sent + more, x) {
      TriedEither(sent, more, x);
    }
  }

  lemma OneSent(sent: seq<Event>, n: ClusterNode, ask: bool, ok: bool)
    requires Directly(sent, n, ask, ok)
    ensures StartsDirectly(sent, n) && AllOn(sent, n) && AtMostOnce(sent)
    ensures if ok then Delivered(sent, n) else NoneAccepted(sent) && Tried(sent, n)
  {
    assert sent[|sent| - 1] == Payload(n, ask, ok);
    assert ok || Refused(sent[|sent| - 1]);
  }

  /** The payload is not sent to n. */
  predicate Spares(sent: seq<Event>, n: ClusterNode?) {
    forall i :: 0 <= i < |sent| && sent[i].Payload? ==> sent[i].node != n
  }

  lemma OthersSpared(was: seq<Event>, more: seq<Event>, n: ClusterNode, ok: bool, x: ClusterNode?)
    requires Spares(was, x) && Directly(more, n, false, ok) && n != x
    ensures Spares(was + more, x)
  {
  }

  lemma SparesBoth(a: seq<Event>, b: seq<Event>, n: ClusterNode?)
    requires Spares(a, n) && Spares(b, n)
    ensures Spares(a + b, n)
  {
  }

  lemma ControlSpares(sent: seq<Event>, n: ClusterNode, command: Command, ok: bool, x: ClusterNode?)
    requires sent == [Control(n, command, ok)] || sent == [Reconnected(n), Control(n, command, ok)]
    ensures Spares(sent, x)
  {
  }

  /** The random order is made of the master and its replicas only. */
  lemma DistSpares(m: ClusterNode, nomaster: bool, sent: seq<Event>, n: ClusterNode)
    requires m.Keyed() && DistSent(m, nomaster, sent) && n != m && !n.replica
    ensures Spares(sent, n)
  {
    hide AtMostOnce;
    forall i | 0 <= i < |sent| && sent[i].Payload? ensures sent[i].node != n {
      assert OnEligible(m, nomaster, sent[i].node);
      var k :| Eligible(m, nomaster, k) && NodeAt(m, k) == sent[i].node;
    }
  }

  lemma NothingSent()
    ensures NoneAccepted([]) && NoReply([]) && forall n :: Spares([], n)
  {
  }

  /** Replies end a record: nothing is sent after one. */
  predicate RepliesLast(sent: seq<Event>) {
    sent == [] || NoReply(sent[..|sent| - 1])
  }

  predicate MovedLast(sent: seq<Event>) {
    sent != [] && sent[|sent| - 1].Reply? && IsMoved(sent[|sent| - 1].answer)
  }

  /** The last event is n's reply, and it is not a redirection. */
  predicate EndsUsually(sent: seq<Event>, n: ClusterNode?) {
    && sent != [] && sent[|sent| - 1].Reply? && sent[|sent| - 1].node == n
    && !Redirects(sent[|sent| - 1].answer)
  }

  /** How often the payload was sent. */
  function Attempts(sent: seq<Event>): nat {
    if sent == [] then 0
    else Attempts(sent[..|sent| - 1]) + if sent[|sent| - 1].Payload? then 1 else 0
  }

  /** How many MOVED replies there are. */
  function Moves(sent: seq<Event>): nat {
    if sent == [] then 0
    else Moves(sent[..|sent| - 1]) + if MovedLast(sent) then 1 else 0
  }

  lemma RoundAdds(a: seq<Event>, b: seq<Event>, n: ClusterNode?)
    requires RepliesLast(b)
    ensures Moves(a + b) == Moves(a) + if MovedLast(b) then 1 else 0
    ensures Attempts(a + b) == Attempts(a) + Attempts(b)
    ensures EndsUsually(b, n) ==> EndsUsually(a + b, n)
    ensures a == [] ==> a + b == b
  {
    MovesOfRound(b);
    MovesAdd(a, b);
    AttemptsAdd(a, b);
  }

  lemma NothingCounted()
    ensures Attempts([]) == 0 && Moves([]) == 0 && RepliesLast([])
  {
  }

  lemma {:induction false} MovesAdd(a: seq<Event>, b: seq<Event>)
    ensures Moves(a + b) == Moves(a) + Moves(b)
  {
    if b == [] {
      assert a + b == a;
    } else {
      var last := |b| - 1;
      assert (a + b)[..|a + b| - 1] == a + b[..last];
      MovesAdd(a, b[..last]);
    }
  }

  lemma {:induction false} NoMoves(sent: seq<Event>)
    requires NoReply(sent)
    ensures Moves(sent) == 0
  {
    if sent != [] {
      NoMoves(sent[..|sent| - 1]);
    }
  }

  lemma MovesOfRound(sent: seq<Event>)
    requires RepliesLast(sent)
    ensures Moves(sent) == if MovedLast(sent) then 1 else 0
  {
    if sent != [] {
      NoMoves(sent[..|sent| - 1]);
    }
  }

  lemma {:induction false} AttemptsAdd(a: seq<Event>, b: seq<Event>)
    ensures Attempts(a + b) == Attempts(a) + Attempts(b)
  {
    if b == [] {
      assert a + b == a;
    } else {
      var last := |b| - 1;
      assert (a + b)[..|a + b| - 1] == a + b[..last];
      AttemptsAdd(a, b[..last]);
    }
  }

  lemma NoRepliesYet(sent: seq<Event>)
    requires NoReply(sent)
    ensures RepliesLast(sent) && !MovedLast(sent)
  {
  }

  lemma ReplyLast(sent: seq<Event>, e: Event)
    requires NoReply(sent) && e.Reply?
    ensures RepliesLast(sent + [e]) && Attempts(sent + [e]) == Attempts(sent)
    ensures (sent + [e])[|sent + [e]| - 1] == e
    ensures MovedLast(sent + [e]) <==> IsMoved(e.answer)
    ensures EndsUsually(sent + [e], e.node) <==> !Redirects(e.answer)
  {
    assert (sent + [e])[..|sent|] == sent;
  }

  lemma DirectOnce(n: ClusterNode, ask: bool)
    ensures Attempts(Direct(n, ask)) == 1
  {
    if ask {
      AttemptsAdd([Control(n, Asking, true)], [Payload(n, ask, true)]);
    }
  }

  lemma RefusedAccepts(m: ClusterNode, nomaster: bool, sent: seq<Event>)
    requires m.Keyed()
    ensures AllRefused(m, nomaster, sent) ==> NoneAccepted(sent)
  {
  }

  lemma OneControl(sent: seq<Event>, n: ClusterNode, command: Command, ok: bool)
    requires sent == [Control(n, command, ok)] || sent == [Reconnected(n), Control(n, command, ok)]
    ensures NoneAccepted(sent) && NoReply(sent)
  {
  }

  lemma TriedLater(a: seq<Event>, b: seq<Event>)
    ensures forall n :: Tried(b, n) ==> Tried(a + b, n)
  {
    forall n | Tried(b, n) ensures Tried(a + b, n) {
      TriedEither(a, b, n);
    }
  }

  lemma NoneThen(a: seq<Event>, b: seq<Event>, n: ClusterNode?)
    requires NoneAccepted(a)
    ensures Delivered(b, n) ==> Delivered(a + b, n)
    ensures NoneAccepted(b) ==> NoneAccepted(a + b)
  {
    if Delivered(b, n) {
      assert (a + b)[..|a + b| - 1] == a + b[..|b| - 1];
    }
  }

  // ---------------------------------------------------------------- the random order

  ghost predicate OnVisited(m: ClusterNode, nomaster: bool, visited: seq<nat>, n: ClusterNode)
    requires m.Keyed()
    reads m`slaves, m`nextSlave
  {
    exists k :: k in visited && Eligible(m, nomaster, k) && NodeAt(m, k) == n
  }

  ghost predicate Progress(m: ClusterNode, nomaster: bool, order: seq<nat>, i: nat, sent: seq<Event>)
    requires m.Keyed() && i <= |order|
    reads m`slaves, m`nextSlave
  {
    && NoneAccepted(sent) && AtMostOnce(sent)
    && (forall j :: 0 <= j < |sent| ==> OnVisited(m, nomaster, order[..i], sent[j].node))
    && (forall k :: k in order[..i] && Eligible(m, nomaster, k) ==> Tried(sent, NodeAt(m, k)))
  }

  /** The order lists the master and each replica exactly once. */
  ghost predicate Lists(m: ClusterNode, order: seq<nat>)
    requires m.Keyed()
    reads m`slaves, m`nextSlave
  {
    && (forall i :: 0 <= i < |order| ==> order[i] < m.nextSlave)
    && (forall i, j :: 0 <= i < j < |order| ==> order[i] != order[j])
    && (forall k :: 0 <= k < m.nextSlave ==> k in order)
  }

  lemma NoProgress(m: ClusterNode, nomaster: bool, order: seq<nat>)
    requires m.Keyed()
    ensures Progress(m, nomaster, order, 0, [])
  {
  }

  lemma ProgressSkips(m: ClusterNode, nomaster: bool, order: seq<nat>, i: nat, sent: seq<Event>)
    requires m.Keyed() && i < |order| && Progress(m, nomaster, order, i, sent)
    requires !Eligible(m, nomaster, order[i])
    ensures Progress(m, nomaster, order, i + 1, sent)
  {
    assert order[..i + 1] == order[..i] + [order[i]];
    forall j | 0 <= j < |sent| ensures OnVisited(m, nomaster, order[..i + 1], sent[j].node) {
      assert OnVisited(m, nomaster, order[..i], sent[j].node);
    }
  }

  /** The events of the next node extend those so far. */
  lemma Extends(m: ClusterNode, nomaster: bool, order: seq<nat>, i: nat, sent: seq<Event>, more: seq<Event>)
    requires m.Keyed() && !m.replica && Lists(m, order) && i < |order| && Eligible(m, nomaster, order[i])
    requires Progress(m, nomaster, order, i, sent)
    requires AllOn(more, NodeAt(m, order[i])) && AtMostOnce(more)
    ensures AtMostOnce(sent + more)
    ensures forall j :: 0 <= j < |sent + more| ==> OnVisited(m, nomaster, order[..i + 1], (sent + more)[j].node)
  {
    hide Tried, NoneAccepted, Eligible;
    var n := NodeAt(m, order[i]);
    assert order[..i + 1] == order[..i] + [order[i]];
    forall j | 0 <= j < |sent|
      ensures OnVisited(m, nomaster, order[..i + 1], sent[j].node) && sent[j].node != n
    {
      assert OnVisited(m, nomaster, order[..i], sent[j].node);
      var k :| k in order[..i] && Eligible(m, nomaster, k) && NodeAt(m, k) == sent[j].node;
      NodesDiffer(m, k, order[i]);
    }
    assert OnVisited(m, nomaster, order[..i + 1], n);
  }

  lemma NodesDiffer(m: ClusterNode, j: nat, k: nat)
    requires m.Keyed() && !m.replica && j < m.nextSlave && k < m.nextSlave && j != k
    ensures NodeAt(m, j) != NodeAt(m, k)
  {
  }

  lemma ProgressStep(m: ClusterNode, nomaster: bool, order: seq<nat>, i: nat, sent: seq<Event>, more: seq<Event>)
    requires m.Keyed() && !m.replica && Lists(m, order) && i < |order| && Eligible(m, nomaster, order[i])
    requires Progress(m, nomaster, order, i, sent)
    requires AllOn(more, NodeAt(m, order[i])) && AtMostOnce(more) && NoneAccepted(more) && Tried(more, NodeAt(m, order[i]))
    ensures Progress(m, nomaster, order, i + 1, sent + more)
  {
    Extends(m, nomaster, order, i, sent, more);
    assert order[..i + 1] == order[..i] + [order[i]];
    forall k | k in order[..i + 1] && Eligible(m, nomaster, k) ensures Tried(sent + more, NodeAt(m, k)) {
      TriedEither(sent, more, NodeAt(m, k));
    }
  }

  /** READONLY went out, unless the socket is flagged. */
  ghost predicate ReadonlySent(sent: seq<Event>, n: ClusterNode, flagged: bool, ok: bool) {
    if flagged then ok && sent == []
    else sent == [Control(n, ReadOnly, ok)] || sent == [Reconnected(n), Control(n, ReadOnly, ok)]
  }

  lemma OneRefused(sent: seq<Event>, n: ClusterNode, flagged: bool)
    requires ReadonlySent(sent, n, flagged, false)
    ensures !flagged && AllOn(sent, n) && AtMostOnce(sent) && NoneAccepted(sent) && Tried(sent, n)
  {
    assert Refused(sent[|sent| - 1]);
  }

  lemma SentOnce(asked: seq<Event>, more: seq<Event>, n: ClusterNode, flagged: bool, ok: bool)
    requires ReadonlySent(asked, n, flagged, true) && Directly(more, n, false, ok)
    ensures NoneAccepted(asked) && AllOn(asked + more, n) && AtMostOnce(asked + more)
  {
  }

  /** READONLY, if it is due, and the payload. */
  lemma OnePayload(asked: seq<Event>, more: seq<Event>, n: ClusterNode, flagged: bool, ok: bool)
    requires ReadonlySent(asked, n, flagged, true) && Directly(more, n, false, ok)
    ensures var sent := asked + more;
            && AllOn(sent, n) && AtMostOnce(sent)
            && (if ok then Delivered(sent, n) else NoneAccepted(sent) && Tried(sent, n))
            && (!flagged ==> Control(n, ReadOnly, true) in sent)
            && (flagged && ok && |more| == 2 ==> sent == [Reconnected(n), Payload(n, false, true)])
  {
    hide AllOn, AtMostOnce, Delivered, NoneAccepted, Tried;
    SentOnce(asked, more, n, flagged, ok);
    OneSent(more, n, false, ok);
    NoneThen(asked, more, n);
    if !ok {
      TriedEither(asked, more, n);
    }
    if !flagged {
      assert asked[|asked| - 1] == Control(n, ReadOnly, true);
    }
  }

  lemma TriedEither(sent: seq<Event>, more: seq<Event>, n: ClusterNode)
    requires Tried(sent, n) || Tried(more, n)
    ensures Tried(sent + more, n)
  {
    if Tried(sent, n) {
      var i :| 0 <= i < |sent| && sent[i].node == n && Refused(sent[i]);
      assert (sent + more)[i] == sent[i];
    } else {
      var i :| 0 <= i < |more| && more[i].node == n && Refused(more[i]);
      assert (sent + more)[|sent| + i] == more[i];
    }
  }

  lemma DistDelivers(m: ClusterNode, nomaster: bool, order: seq<nat>, i: nat, sent: seq<Event>, more: seq<Event>, n: ClusterNode)
    requires m.Keyed() && !m.replica && Lists(m, order) && i < |order| && Eligible(m, nomaster, order[i])
    requires Progress(m, nomaster, order, i, sent) && n == NodeAt(m, order[i])
    requires AllOn(more, n) && AtMostOnce(more) && Delivered(more, n)
    ensures DistSent(m, nomaster, sent + more) && Delivered(sent + more, n)
  {
    Extends(m, nomaster, order, i, sent, more);
    EligibleSent(m, nomaster, order[..i + 1], sent + more);
    assert (sent + more)[..|sent + more| - 1] == sent + more[..|more| - 1];
  }

  lemma EligibleSent(m: ClusterNode, nomaster: bool, visited: seq<nat>, sent: seq<Event>)
    requires m.Keyed() && AtMostOnce(sent)
    requires forall j :: 0 <= j < |sent| ==> OnVisited(m, nomaster, visited, sent[j].node)
    ensures DistSent(m, nomaster, sent)
  {
  }

  lemma ProgressEnds(m: ClusterNode, nomaster: bool, order: seq<nat>, sent: seq<Event>)
    requires m.Keyed() && Lists(m, order) && Progress(m, nomaster, order, |order|, sent)
    ensures DistSent(m, nomaster, sent) && AllRefused(m, nomaster, sent)
  {
    assert order[..|order|] == order;
    EligibleSent(m, nomaster, order, sent);
  }

  /** A node with replicas keyed 1, 2, ... has as many as its next key says. */
  lemma SlavesCount(m: ClusterNode)
    requires m.Keyed()
    ensures |m.slaves| == m.nextSlave - 1
  {
    KeysCount(m.slaves.Keys, m.nextSlave - 1);
  }

  lemma {:induction false} KeysCount(keys: set<nat>, n: nat)
    requires forall k :: k in keys <==> 1 <= k <= n
    ensures |keys| == n
  {
    if n == 0 {
      assert keys == {};
    } else {
      KeysCount(keys - {n}, n - 1);
    }
  }

  /** Events on one socket leave the other sockets' last events alone. */
  lemma {:induction false} OthersKeep(before: seq<Event>, sent: seq<Event>, n: ClusterNode, x: ClusterNode)
    requires AllOn(sent, n) && x != n
    ensures LastSent(before + sent, x) == LastSent(before, x)
  {
    if sent == [] {
      assert before + sent == before;
    } else {
      var last := |sent| - 1;
      OthersKeep(before, sent[..last], n, x);
      assert before + sent == before + sent[..last] + [sent[last]];
      Snoc(before + sent[..last], sent[last]);
    }
  }

  // ---------------------------------------------------------------- whole runs

  datatype View = View(nodes: map<Addr, ClusterNode>, master: seq<ClusterNode?>, redirections: nat,
                       valid: bool, covering: bool, repairs: seq<Repair>)

  /** From a to b, with so many MOVED replies: each is counted; without one, or in MULTI mode, the
      table is kept; each repair of a valid table leaves it valid exactly if it is harmless, unless
      the run became undefined; complete slot maps keep the table valid and complete. */
  ghost predicate Accounts(a: View, b: View, moves: nat, inMulti: bool, complete: bool, defined: bool) {
    && b.redirections == a.redirections + moves
    && (moves == 0 || inMulti ==> b.nodes == a.nodes && b.master == a.master)
    && a.repairs <= b.repairs
    && (defined ==> History(b.repairs[|a.repairs|..], a.valid, b.valid))
    && (complete && a.valid && a.covering ==> b.valid && b.covering)
  }

  lemma AccountsNothing(a: View, inMulti: bool, complete: bool)
    ensures Accounts(a, a, 0, inMulti, complete, true)
  {
    assert a.repairs[|a.repairs|..] == [];
  }

  /** Only the counter has changed. */
  lemma AccountsMoved(a: View, b: View, moves: nat, inMulti: bool, complete: bool, defined: bool)
    requires b == a.(redirections := a.redirections + moves)
    ensures Accounts(a, b, moves, inMulti, complete, defined)
  {
    assert b.repairs[|a.repairs|..] == [];
    NoRepair(a.valid);
  }

  /** Outside MULTI mode, the table may have changed too. */
  lemma AccountsRepaired(a: View, b: View, moves: nat, complete: bool, defined: bool)
    requires b.redirections == a.redirections + moves && a.repairs <= b.repairs
    requires moves == 0 ==> b.nodes == a.nodes && b.master == a.master
    requires defined ==> History(b.repairs[|a.repairs|..], a.valid, b.valid)
    requires complete && a.valid && a.covering ==> b.valid && b.covering
    ensures Accounts(a, b, moves, false, complete, defined)
  {
  }

  lemma AccountsAdd(a: View, b: View, c: View, m: nat, n: nat, inMulti: bool, complete: bool, defined: bool)
    requires Accounts(a, b, m, inMulti, complete, true) && Accounts(b, c, n, inMulti, complete, defined)
    ensures Accounts(a, c, m + n, inMulti, complete, defined)
  {
    hide History;
    if defined {
      assert c.repairs[|a.repairs|..] == b.repairs[|a.repairs|..] + c.repairs[|b.repairs|..];
      HistoryAdd(b.repairs[|a.repairs|..], c.repairs[|b.repairs|..], a.valid, b.valid, c.valid);
    }
  }

  lemma StillComplete(a: View, b: View, m: nat, inMulti: bool, complete: bool)
    requires Accounts(a, b, m, inMulti, complete, true)
    ensures complete && a.valid && a.covering ==> b.valid && b.covering
    ensures m == 0 || inMulti ==> b.master == a.master
  {
  }

  lemma AccountsMean(a: View, b: View, m: nat, inMulti: bool, complete: bool, defined: bool)
    requires Accounts(a, b, m, inMulti, complete, defined)
    ensures b.redirections == a.redirections + m && a.repairs <= b.repairs
    ensures complete && a.valid && a.covering ==> b.valid && b.covering
    ensures defined && a.valid ==>
              var fixes := b.repairs[|a.repairs|..];
              && ((forall i :: 0 <= i < |fixes| ==> fixes[i].valid) <==> (forall i :: 0 <= i < |fixes| ==> fixes[i].harmless))
              && ((forall i :: 0 <= i < |fixes| ==> fixes[i].harmless) ==> b.valid)
  {
    if defined && a.valid {
      ValidThroughout(b.repairs[|a.repairs|..], b.valid);
    }
  }

  // ---------------------------------------------------------------- the history of the table

  /** Was the table valid before repair i? */
  predicate ValidBefore(repairs: seq<Repair>, start: bool, i: nat)
    requires i <= |repairs|
  {
    if i == 0 then start else repairs[i - 1].valid
  }

  /** From start to now, each repair of a valid table leaves it valid exactly if it is harmless. */
  ghost predicate History(repairs: seq<Repair>, start: bool, now: bool) {
    && ValidBefore(repairs, start, |repairs|) == now
    && forall i :: 0 <= i < |repairs| && ValidBefore(repairs, start, i) ==> (repairs[i].valid <==> repairs[i].harmless)
  }

  lemma NoRepair(valid: bool)
    ensures History([], valid, valid)
  {
  }

  lemma OneRepair(answers: seq<SeedAnswer>, harmless: bool, wasValid: bool, valid: bool)
    requires wasValid ==> (valid <==> harmless)
    ensures History([Repair(answers, harmless, valid)], wasValid, valid)
  {
  }

  lemma HistoryAdd(a: seq<Repair>, b: seq<Repair>, start: bool, mid: bool, now: bool)
    requires History(a, start, mid) && History(b, mid, now)
    ensures History(a + b, start, now)
  {
    var c := a + b;
    forall i | 0 <= i < |c| && ValidBefore(c, start, i) ensures c[i].valid <==> c[i].harmless {
      if i < |a| {
        assert ValidBefore(a, start, i) && c[i] == a[i];
      } else {
        assert ValidBefore(b, mid, i - |a|) && c[i] == b[i - |a|];
      }
    }
  }

  /** A table that starts valid is valid after every repair if and only if all are harmless. */
  lemma {:induction false} ValidThroughout(repairs: seq<Repair>, now: bool)
    requires History(repairs, true, now)
    ensures (forall i :: 0 <= i < |repairs| ==> repairs[i].valid) <==> (forall i :: 0 <= i < |repairs| ==> repairs[i].harmless)
    ensures (forall i :: 0 <= i < |repairs| ==> repairs[i].harmless) ==> now
  {
    if repairs != [] {
      var n := |repairs| - 1;
      var front := repairs[..n];
      assert forall i :: 0 <= i <= n ==> ValidBefore(front, true, i) == ValidBefore(repairs, true, i);
      ValidThroughout(front, ValidBefore(repairs, true, n));
      assert repairs == front + [repairs[n]];
      assert ValidBefore(repairs, true, n) ==> (repairs[n].valid <==> repairs[n].harmless);
    }
  }

  /** No slot has become wrong, and at least n have become right. */
  predicate Mended(before: set<int>, after: set<int>, n: nat) {
    after <= before && |after| + n <= |before|
  }

  /** With stable servers: a round meets the owner, or is redirected to it. */
  ghost predicate RoundWell(wasWrong: bool, moved: bool, r: RoundResult, clusterdown: bool, before: set<int>, after: set<int>) {
    if wasWrong then r.Again? && moved && Mended(before, after, 1)
    else r == Leave(false) && !moved && !clusterdown && after == before
  }

  lemma RoundStays(wrong: set<int>)
    ensures RoundWell(false, false, Leave(false), false, wrong, wrong)
  {
  }

  lemma RoundMends(clusterdown: bool, before: set<int>, after: set<int>)
    ensures Mended(before, after, 1) ==> RoundWell(true, true, Again, clusterdown, before, after)
  {
  }

  /** With stable servers: where the loop is after so many rounds. */
  predicate WentWell(wasWrong: bool, isWrong: bool, moves: nat, r: RoundResult, timedout: bool, clusterdown: bool, rounds: nat) {
    && !timedout
    && if rounds == 0 then r.Again? && moves == 0 && isWrong == wasWrong
       else
         && !isWrong && moves == (if wasWrong then 1 else 0)
         && if rounds == moves then r.Again? else r == Leave(false) && !clusterdown && rounds == 1 + moves
  }

  lemma StartsWell(wrong: bool, clusterdown: bool, slots: set<int>)
    ensures WentWell(wrong, wrong, 0, Again, false, clusterdown, 0) && Mended(slots, slots, 0)
  {
  }

  lemma MendedStep(a: set<int>, n: nat, b: set<int>, c: set<int>)
    requires Mended(a, b, n)
    ensures c == b ==> Mended(a, c, n)
    ensures Mended(b, c, 1) ==> Mended(a, c, n + 1)
  {
  }

  lemma WellStep(wasWrong: bool, isWrong: bool, moves: nat, rounds: nat, r: RoundResult, clusterdown: bool, down: bool)
    requires WentWell(wasWrong, isWrong, moves, Again, false, down, rounds)
    requires if isWrong then r.Again? else r == Leave(false) && !clusterdown
    ensures WentWell(wasWrong, false, moves + if isWrong then 1 else 0, r, false, clusterdown, rounds + 1)
  {
  }

  lemma StepsWell(wasWrong: bool, isWrong: bool, moves: nat, rounds: nat, r: RoundResult, clusterdown: bool, down: bool,
                  moved: bool, start: set<int>, before: set<int>, after: set<int>)
    requires WentWell(wasWrong, isWrong, moves, Again, false, down, rounds) && Mended(start, before, moves)
    requires RoundWell(isWrong, moved, r, clusterdown, before, after)
    ensures WentWell(wasWrong, false, moves + if moved then 1 else 0, r, false, clusterdown, rounds + 1)
    ensures Mended(start, after, moves + if moved then 1 else 0)
  {
    WellStep(wasWrong, isWrong, moves, rounds, r, clusterdown, down);
    MendedStep(start, moves, before, after);
  }

  lemma Shrinks(before: set<int>, after: set<int>, s: int)
    requires s in before && after <= before - {s}
    ensures Mended(before, after, 1)
  {
    SubsetSize(after, before - {s});
  }

  lemma {:induction false} SubsetSize<T>(a: set<T>, b: set<T>)
    requires a <= b
    ensures |a| <= |b|
  {
    if a != {} {
      var x :| x in a;
      SubsetSize(a - {x}, b - {x});
    }
  }
}
