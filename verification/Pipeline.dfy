/**
 MULTI and PIPELINE modes of one connection (redis.c): two mode bits, a linked queue of reply
 callbacks, and a buffer of commands not sent yet, which have to stay in step with each other
 and with the replies that the server sends.
 */
module Pipeline {
  import opened Bytes
  import opened Resp
  import opened PipelineReplies

  class FoldItem {
    const fun: Option<Callback>
    var next: FoldItem?

    constructor (f: Option<Callback>)
      ensures fun == f && next == null
    {
      fun := f;
      next := null;
    }
  }

  /** The queue of reply callbacks: the head and current pointers of a connection. */
  class FoldQueue {
    var head: FoldItem?
    var current: FoldItem?

    ghost var items: seq<FoldItem>            // from head on
    ghost var funs: seq<Option<Callback>>     // their callbacks; None for MULTI and EXEC

    /** items is the list that starts at head. */
    ghost predicate Chain()
      reads `head, `items, `funs, items`next
    {
      && head == (if items == [] then null else items[0])
      && (forall i :: 0 <= i < |items| ==> items[i].next == if i + 1 < |items| then items[i + 1] else null)
      && (forall i, j :: 0 <= i < j < |items| ==> items[i] != items[j])
      && |funs| == |items|
      && (forall i :: 0 <= i < |items| ==> items[i].fun == funs[i])
    }

    /** ... and current is its last item. */
    ghost predicate Valid()
      reads `head, `current, `items, `funs, items`next
    {
      Chain() && current == if items == [] then null else items[|items| - 1]
    }

    /** The i-th item and its successor. */
    lemma ItemAt(i: nat)
      requires Chain() && i < |items|
      ensures |items| == |funs| && items[i].fun == funs[i]
      ensures items[i].next == From(i + 1)
    {
    }

    /** The i-th item, or null at the end. */
    ghost function From(i: nat): FoldItem?
      reads `items
    {
      if i < |items| then items[i] else null
    }

    lemma SameFuns()
      requires Chain()
      ensures |items| == |funs| && forall i :: 0 <= i < |items| ==> items[i].fun == funs[i]
    {
    }

    lemma ValidIsChain()
      requires Valid()
      ensures Chain()
    {
    }

    lemma Head()
      requires Chain()
      ensures |items| == |funs| && head == From(0)
    {
    }

    constructor ()
      ensures Valid() && items == [] && funs == []
    {
      head, current, items, funs := null, null, [], [];
    }

    /** REDIS_SAVE_CALLBACK. */
    method Save(f: Option<Callback>)
      requires Valid()
      modifies this, items
      ensures Valid() && funs == old(funs) + [f]
      ensures |items| == |old(items)| + 1 && items[..|old(items)|] == old(items) && fresh(items[|old(items)|])
    {
      var fi := new FoldItem(f);
      if current != null {
        current.next := fi;
      }
      current := fi;
      if head == null {
        head := current;
      }
      items, funs := items + [fi], funs + [f];
    }

    /** free_reply_callbacks. */
    method Free()
      requires Chain()
      modifies this
      ensures Valid() && items == [] && funs == []
    {
      var fi := head;
      ghost var i := 0;
      while fi != null
        invariant 0 <= i <= |items| && fi == if i < |items| then items[i] else null
        decreases |items| - i
      {
        fi := fi.next;
        i := i + 1;
      }
      head := fi;
      current := null;
      items, funs := [], [];
    }
  }

  datatype ModeArg = ModeMulti | ModePipeline | ModeOther

  /** What exec() returns: false, the object itself, or the array of replies. */
  datatype ExecResult = ExecFalse | ExecThis | ExecArray(values: seq<PhpValue>)

  class RedisSock {
    var input: bytes                // replies that have arrived and are not read yet
    var sent: bytes                 // everything written to the server
    var multi: bool                 // the MULTI mode bit
    var pipeline: bool              // the PIPELINE mode bit
    var pipelineCmd: Option<bytes>
    const nullArray: bool           // null_mbulk_as_null
    const queue: FoldQueue

    ghost var cmds: seq<bytes>      // the commands in pipelineCmd, one by one

    ghost predicate Valid()
      reads this, queue, queue.items
    {
      && queue.Valid()
      && InStep(multi, pipeline, queue.funs, cmds)
      && pipelineCmd == if cmds == [] then None else Some(Concat(cmds))
    }

    constructor (reply: bytes, nullArray: bool)
      ensures Valid() && !multi && !pipeline && queue.items == [] && input == reply && sent == []
      ensures fresh(queue)
    {
      input, sent := reply, [];
      multi, pipeline, this.nullArray := false, false, nullArray;
      queue := new FoldQueue();
      pipelineCmd, cmds := None, [];
    }

    /** PIPELINE_ENQUEUE_COMMAND and REDIS_SAVE_CALLBACK, in pipeline mode. */
    method Enqueue(cmd: bytes, fun: Option<Callback>)
      requires Valid() && pipeline
      requires fun.None? ==> cmd == if multi then EXEC_CMD else MULTI_CMD
      modifies this`pipelineCmd, this`cmds, this`multi, queue, queue.items
      ensures Valid() && cmds == old(cmds) + [cmd] && queue.funs == old(queue.funs) + [fun]
      ensures multi == if fun.None? then !old(multi) else old(multi)
      ensures OnlyNewItems(old(queue.items))
    {
      hide FoldQueue.Chain, FoldQueue.Valid, InStep;
      InStepPipelined(multi, queue.funs, cmds, fun, cmd);
      ConcatLast(cmds, cmd);
      assert [] + cmd == cmd;
      pipelineCmd := Some(if pipelineCmd == None then cmd else pipelineCmd.value + cmd);
      cmds := cmds + [cmd];
      if fun.None? {
        multi := !multi;
      }
      queue.Save(fun);
    }

    /** The queue holds no items but those of `before` and newly allocated ones. */
    twostate predicate OnlyNewItems(before: seq<FoldItem>)
      reads this, queue
    {
      forall x :: x in queue.items ==> x in before || fresh(x)
    }

    /** redis_sock_read. None stands for a NULL reply. */
    method Read() returns (r: Option<bytes>)
      modifies this`input
      ensures r == ReplyTo(old(input)) && input == AfterReply(old(input))
    {
      var s := SockRead(input);
      if s == None {
        input := [];
        return None;
      }
      r := s.value.0;
      input := s.value.1;
    }

    // -------------------------------------------------------------- the methods of class Redis

    /** Redis::multi. */
    method Multi(mode: ModeArg) returns (ok: bool)
      requires Valid()
      modifies this, queue, queue.items
      ensures Valid() && OnlyNewItems(old(queue.items))
      ensures mode == ModeMulti && !old(multi) && old(pipeline) ==>
                && ok && multi && pipeline && input == old(input) && sent == old(sent)
                && queue.funs == old(queue.funs) + [None] && cmds == old(cmds) + [MULTI_CMD]
      ensures mode == ModeMulti && !old(multi) && !old(pipeline) ==>
                && sent == old(sent) + MULTI_CMD && input == AfterReply(old(input))
                && ok == multi == StartsWith(ReplyTo(old(input)), OK_LINE)
                && !pipeline && queue.funs == [] && cmds == []
      ensures mode != ModeMulti || old(multi) ==>
                && multi == old(multi) && input == old(input) && sent == old(sent)
                && queue.funs == old(queue.funs) && cmds == old(cmds)
                && pipeline == (old(pipeline) || (mode == ModePipeline && !old(multi)))
                && ok == (mode == ModeMulti || (mode == ModePipeline && !old(multi)))
    {
      hide FoldQueue.Chain, FoldQueue.Valid;
      if mode == ModePipeline {
        if multi {
          return false;
        }
        if !pipeline {
          pipeline := true;
        }
      } else if mode == ModeMulti {
        if !multi {
          if pipeline {
            Enqueue(MULTI_CMD, None);
          } else {
            sent := sent + MULTI_CMD;
            var resp := Read();
            if !StartsWith(resp, OK_LINE) {
              return false;
            }
            multi := true;
          }
        }
      } else {
        return false;
      }
      ok := true;
    }

    /** Redis::pipeline. */
    method StartPipeline() returns (ok: bool)
      requires Valid()
      modifies this`pipeline
      ensures Valid() && ok == !multi && pipeline == (old(pipeline) || !multi)
    {
      hide FoldQueue.Chain, FoldQueue.Valid;
      if multi {
        return false;
      }
      pipeline := true;
      ok := true;
    }

    /** Any command, through REDIS_PROCESS_CMD. Outside both modes the reply is read at once. */
    method Process(cmd: bytes, fun: Callback) returns (values: seq<PhpValue>)
      requires Valid()
      modifies this, queue, queue.items
      ensures Valid() && OnlyNewItems(old(queue.items))
      ensures multi == old(multi) && pipeline == old(pipeline)
      ensures old(pipeline) ==>
                && input == old(input) && sent == old(sent) && values == []
                && queue.funs == old(queue.funs) + [Some(fun)] && cmds == old(cmds) + [cmd]
      ensures !old(pipeline) ==> sent == old(sent) + cmd && cmds == []
      ensures !old(pipeline) && old(multi) ==>
                && input == AfterReply(old(input)) && values == []
                && queue.funs == if StartsWith(ReplyTo(old(input)), QUEUED_LINE)
                                 then old(queue.funs) + [Some(fun)] else old(queue.funs)
      ensures !old(pipeline) && !old(multi) ==> (values, input) == fun.run(old(input)) && queue.funs == []
    {
      hide FoldQueue.Chain, FoldQueue.Valid, InStep, Concat, ReplyTo, AfterReply, StartsWith;
      values := [];
      Modes();
      if pipeline {
        Enqueue(cmd, Some(fun));
        return;
      }
      sent := sent + cmd;
      if !multi {
        var r := fun.run(input);
        values, input := r.0, r.1;
        return;
      }
      Acknowledge(fun);
    }

    /** What holds in each mode. */
    lemma Modes()
      requires Valid()
      ensures !pipeline ==> cmds == [] && (!multi ==> queue.funs == [])
    {
      hide FoldQueue.Valid;
    }

    /** In MULTI mode: queued if the server says so. */
    method Acknowledge(fun: Callback)
      requires Valid() && multi && !pipeline
      modifies this`input, queue, queue.items
      ensures Valid() && OnlyNewItems(old(queue.items)) && input == AfterReply(old(input))
      ensures queue.funs == if StartsWith(ReplyTo(old(input)), QUEUED_LINE)
                            then old(queue.funs) + [Some(fun)] else old(queue.funs)
    {
      hide FoldQueue.Chain, FoldQueue.Valid, InStep, Concat, ReplyTo, AfterReply, StartsWith;
      Modes();
      var resp := Read();
      if StartsWith(resp, QUEUED_LINE) {
        InStepQueued(queue.funs, fun);
        queue.Save(Some(fun));
      }
    }

    /** One QUEUED line for each callback from the i-th item up to the next marker. */
    method SkipAcks(s: bytes, first: FoldItem?, ghost i: nat, ghost k: nat) returns (ok: bool, rest: bytes, fi: FoldItem?)
      requires queue.Chain() && i + k <= |queue.items|
      requires first == queue.From(i)
      requires forall j :: i <= j < i + k ==> queue.funs[j].Some?
      requires i + k < |queue.items| ==> queue.funs[i + k].None?
      ensures Got(if ok then Some(()) else None, rest) == ReadAcks(k, s)
      ensures ok ==> fi == queue.From(i + k)
    {
      hide FoldQueue.Chain, ReadAcks, SockRead, StartsWith;
      queue.SameFuns();
      ok, rest, fi := true, s, first;
      ghost var j := 0;
      while fi != null && fi.fun.Some?
        invariant 0 <= j <= k && fi == queue.From(i + j)
        invariant ok && ReadAcks(k, s) == ReadAcks(k - j, rest)
        decreases k - j
      {
        queue.ItemAt(i + j);
        ReadAck(k - j - 1, rest);
        var resp := SockRead(rest);
        rest := if resp == None then [] else resp.value.1;
        ok := resp.Some? && StartsWith(resp.value.0, QUEUED_LINE);
        if !ok {
          return;
        }
        fi := fi.next;
        j := j + 1;
      }
      ReadAck(0, rest);
    }

    /** EXEC's own reply, at the end of a block. */
    method ExecArrayReply(s: bytes) returns (r: Got<PhpValue>)
      ensures r == ReadExecArray(s, nullArray)
    {
      var line := Gets(s, 254);
      if line == None {
        return Got(None, []);
      }
      var num := ExecCount(line.value.0);
      if num <= 0 {
        return Got(Some(PArray([])), line.value.1);
      }
      var d := ReadMultibulk(line.value.1, num, Options(false, nullArray));
      return Got(if d.ok then Some(PArray(d.values)) else None, d.rest);
    }

    /** The replies to one MULTI..EXEC block, which starts at the i-th item. */
    method Block(s: bytes, first: FoldItem, ghost i: nat)
      returns (r: Got<PhpValue>, fi: FoldItem?, ghost i': nat)
      requires queue.Chain() && i < |queue.items| && first == queue.items[i] && first.fun.None?
      ensures r == ReadBlock(Callbacks(queue.funs[i + 1..]), s, nullArray)
      ensures r.value.Some? ==>
                && i < i' <= |queue.items| && queue.funs[i'..] == AfterBlock(queue.funs[i..])
                && fi == queue.From(i')
    {
      hide FoldQueue.Chain, FoldQueue.Valid, ReadAcks, ReadExecArray, Callbacks, AfterBlock, Gets;
      queue.ItemAt(i);
      queue.SameFuns();
      ghost var k := Callbacks(queue.funs[i + 1..]);
      BlockShape(queue.funs, i);
      r, fi, i' := Got(None, []), null, if i + 1 + k < |queue.items| then i + k + 2 else i + k + 1;
      var line := Gets(s, 254);
      if line == None {
        return;
      }
      if !(OK_LINE <= line.value.0) {
        r := Got(None, line.value.1);
        return;
      }
      var ok, rest;
      ok, rest, fi := SkipAcks(line.value.1, first.next, i + 1, k);
      if !ok {
        r := Got(None, rest);
        return;
      }
      r := ExecArrayReply(rest);
      if fi != null {
        queue.ItemAt(i + 1 + k);
        fi := fi.next;
      }
    }

    /** redis_sock_read_multibulk_multi_reply_loop. What it leaves unread after a failure stays in
        the stream. */
    method ReplyLoop() returns (ok: bool, values: seq<PhpValue>)
      requires queue.Chain()
      modifies this`input, queue`current
      ensures queue.Chain()
      ensures Decoded(ok, values, input) == ReadReplies(queue.funs, old(input), nullArray)
    {
      hide FoldQueue.Chain, FoldQueue.Valid, ReadReplies, ReadBlock, AfterBlock, Callbacks;
      values := [];
      queue.Head();
      var fi := queue.head;
      ghost var funs, i := queue.funs, 0;
      ghost var whole := ReadReplies(funs, input, nullArray);
      assert funs[0..] == funs;
      FollowsAll(whole);
      while fi != null
        invariant 0 <= i <= |funs| && fi == queue.From(i)
        invariant Follows(whole, values, ReadReplies(funs[i..], input, nullArray))
        decreases |funs| - i
      {
        queue.ItemAt(i);
        if fi.fun.Some? {
          FollowsPlain(whole, values, funs[i..], input, nullArray);
          var r := fi.fun.value.run(input);
          values, input := values + r.0, r.1;
          fi := fi.next;
          i := i + 1;
        } else {
          FollowsBlock(whole, values, funs[i..], input, nullArray);
          var r;
          r, fi, i := Block(input, fi, i);
          input := r.rest;
          if r.value == None {
            ok := false;
            return;
          }
          values := values + [r.value.value];
        }
      }
      assert funs[i..] == [];
      FollowsNothing(whole, values, input, nullArray);
      queue.current := fi;
      ok := true;
    }

    /** redis_sock_read_multibulk_multi_reply: EXEC outside a pipeline. */
    method ExecReply() returns (ok: bool, values: seq<PhpValue>)
      requires queue.Chain()
      modifies this`input, queue`current
      ensures queue.Chain()
      ensures Decoded(ok, values, input) == ReadExec(queue.funs, old(input), nullArray)
    {
      hide FoldQueue.Chain, FoldQueue.Valid, ReadReplies;
      ok, values := false, [];
      var line := Gets(input, 4095);
      if line == None {
        input := [];
        return;
      }
      input := line.value.1;
      if IsArrayHeader(line.value.0) {
        ok, values := ReplyLoop();
      }
    }

    /** exec() in MULTI mode alone: send EXEC and read the array of replies. */
    method ExecMulti() returns (r: ExecResult)
      requires Valid() && multi && !pipeline
      modifies this, queue
      ensures Valid() && !multi && !pipeline && queue.items == []
      ensures sent == old(sent) + EXEC_CMD
      ensures var d := ReadExec(old(queue.funs), old(input), nullArray);
              r == (if d.ok then ExecArray(d.values) else ExecFalse) && input == d.rest
    {
      hide FoldQueue.Chain, FoldQueue.Valid, ReadExec;
      sent := sent + EXEC_CMD;
      queue.ValidIsChain();
      var ok, values := ExecReply();
      queue.Free();
      multi := false;
      return if ok then ExecArray(values) else ExecFalse;
    }

    /** exec() in PIPELINE mode: send the waiting commands and read all their replies. */
    method ExecPipeline() returns (r: ExecResult)
      requires Valid() && !multi && pipeline
      modifies this, queue
      ensures Valid() && !multi && !pipeline && queue.items == []
      ensures sent == old(sent) + Concat(old(cmds))
      ensures var d := ReadReplies(old(queue.funs), old(input), nullArray);
              r == (if d.ok then ExecArray(d.values) else ExecFalse) && input == d.rest
    {
      hide FoldQueue.Chain, FoldQueue.Valid, ReadReplies, InStep, Concat;
      queue.ValidIsChain();
      NothingWaits();
      if pipelineCmd == None {
        r := ExecArray([]);
      } else {
        sent := sent + pipelineCmd.value;
        var ok, values := ReplyLoop();
        r := if ok then ExecArray(values) else ExecFalse;
        pipelineCmd, cmds := None, [];
      }
      queue.Free();
      pipeline := false;
      AllSent();
    }

    /** Nothing to send, nothing to read. */
    lemma NothingWaits()
      requires Valid() && pipeline
      ensures pipelineCmd == if cmds == [] then None else Some(Concat(cmds))
      ensures cmds == [] ==> Concat(cmds) == [] && ReadReplies(queue.funs, input, nullArray) == Decoded(true, [], input)
    {
      hide FoldQueue.Valid;
    }

    lemma AllSent()
      requires queue.Valid() && queue.funs == [] && cmds == [] && pipelineCmd == None && !multi && !pipeline
      ensures Valid()
    {
      hide FoldQueue.Valid;
    }

    /** Redis::exec. */
    method Exec() returns (r: ExecResult)
      requires Valid()
      modifies this, queue, queue.items
      ensures Valid() && OnlyNewItems(old(queue.items))
      ensures !multi && pipeline == (old(pipeline) && old(multi))
      ensures old(pipeline) && old(multi) ==>
                && r == ExecThis && input == old(input) && sent == old(sent)
                && queue.funs == old(queue.funs) + [None] && cmds == old(cmds) + [EXEC_CMD]
      ensures old(pipeline) && !old(multi) ==>
                && sent == old(sent) + Concat(old(cmds))
                && var d := ReadReplies(old(queue.funs), old(input), nullArray);
                   r == (if d.ok then ExecArray(d.values) else ExecFalse) && input == d.rest
      ensures !old(pipeline) && old(multi) ==>
                && sent == old(sent) + EXEC_CMD
                && var d := ReadExec(old(queue.funs), old(input), nullArray);
                   r == (if d.ok then ExecArray(d.values) else ExecFalse) && input == d.rest
      ensures !old(pipeline) && !old(multi) ==>
                r == ExecFalse && input == old(input) && sent == old(sent)
    {
      hide FoldQueue.Chain, FoldQueue.Valid, ReadReplies, ReadExec, InStep, Concat;
      r := ExecFalse;
      if multi && pipeline {
        Enqueue(EXEC_CMD, None);
        r := ExecThis;
      } else if multi {
        r := ExecMulti();
      } else if pipeline {
        r := ExecPipeline();
      }
    }

    /** Redis::discard. */
    method Discard() returns (ok: bool)
      requires Valid()
      modifies this, queue
      ensures Valid()
      ensures ok ==> !multi && !pipeline && queue.items == []
      ensures !ok ==> multi == old(multi) && !pipeline && queue.items == old(queue.items)
      ensures old(pipeline) || !old(multi) ==>
                ok == old(pipeline) && input == old(input) && sent == old(sent)
      ensures !old(pipeline) && old(multi) ==>
                && sent == old(sent) + DISCARD_CMD && input == AfterReply(old(input))
                && ok == (ReplyTo(old(input)) == Some(OK_LINE))
    {
      hide FoldQueue.Chain, FoldQueue.Valid;
      ok := false;
      if pipeline {
        ok := true;
        pipelineCmd, cmds := None, [];
      } else if multi {
        sent := sent + DISCARD_CMD;
        var resp := Read();
        ok := resp == Some(OK_LINE);
      }
      if ok {
        queue.ValidIsChain();
        queue.Free();
        multi, pipeline := false, false;
      }
    }

    /** Redis::reset, which refuses to run in PIPELINE mode. */
    method Reset() returns (ok: bool)
      requires Valid()
      modifies this, queue
      ensures Valid() && pipeline == old(pipeline)
      ensures old(pipeline) ==>
                !ok && input == old(input) && sent == old(sent) && queue.items == old(queue.items)
      ensures !old(pipeline) ==>
                && sent == old(sent) + RESET_CMD && input == AfterReply(old(input))
                && ok == (ReplyTo(old(input)) == Some(RESET_LINE))
      ensures ok ==> !multi && queue.items == []
      ensures !ok ==> multi == old(multi) && queue.items == old(queue.items)
    {
      hide FoldQueue.Chain, FoldQueue.Valid;
      if pipeline {
        return false;
      }
      sent := sent + RESET_CMD;
      var resp := Read();
      ok := resp == Some(RESET_LINE);
      if ok {
        queue.ValidIsChain();
        queue.Free();
        multi := false;
      }
    }
  }
}
