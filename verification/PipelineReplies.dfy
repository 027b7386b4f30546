/**
 The reply side of pipelines: what the reply loop of exec() makes of a byte stream, and why it
 stays aligned with the replies the server sends.
 */
module PipelineReplies {
  import opened Bytes
  import opened Resp
  import opened RespTheorems
  import RespWriter

  /** A reply handler: from the unread bytes to the entries it adds to the result array and the
      bytes it leaves unread. */
  datatype Callback = Callback(run: bytes -> (seq<PhpValue>, bytes))

  const MULTI_CMD: bytes := [42, 49, 13, 10, 36, 53, 13, 10, 77, 85, 76, 84, 73, 13, 10]
  const EXEC_CMD: bytes := [42, 49, 13, 10, 36, 52, 13, 10, 69, 88, 69, 67, 13, 10]
  const DISCARD_CMD: bytes := [42, 49, 13, 10, 36, 55, 13, 10, 68, 73, 83, 67, 65, 82, 68, 13, 10]
  const RESET_CMD: bytes := [42, 49, 13, 10, 36, 53, 13, 10, 82, 69, 83, 69, 84, 13, 10]
  const OK_LINE: bytes := [43, 79, 75]
  const QUEUED_LINE: bytes := [43, 81, 85, 69, 85, 69, 68]
  const RESET_LINE: bytes := [43, 82, 69, 83, 69, 84]

  function Concat(cmds: seq<bytes>): bytes {
    if cmds == [] then [] else cmds[0] + Concat(cmds[1..])
  }

  lemma {:induction false} ConcatLast(cmds: seq<bytes>, c: bytes)
    ensures Concat(cmds + [c]) == Concat(cmds) + c
  {
    if cmds == [] {
      assert [c][1..] == [];
    } else {
      assert (cmds + [c])[1..] == cmds[1..] + [c];
      ConcatLast(cmds[1..], c);
    }
  }

  // ---------------------------------------------------------------- MULTI and EXEC brackets

  /** How many items are MULTI or EXEC markers (NULL callbacks). */
  function Nulls(funs: seq<Option<Callback>>): nat {
    if funs == [] then 0 else Nulls(funs[..|funs| - 1]) + if funs[|funs| - 1].None? then 1 else 0
  }

  lemma NullsLast(funs: seq<Option<Callback>>, f: Option<Callback>)
    ensures Nulls(funs + [f]) == Nulls(funs) + if f.None? then 1 else 0
  {
    assert (funs + [f])[..|funs|] == funs;
  }

  /** The commands at the markers are MULTI and EXEC in turn. */
  ghost predicate Bracketed(funs: seq<Option<Callback>>, cmds: seq<bytes>)
    requires |cmds| == |funs|
  {
    forall i :: 0 <= i < |funs| && funs[i].None? ==>
      cmds[i] == if Nulls(funs[..i]) % 2 == 0 then MULTI_CMD else EXEC_CMD
  }

  lemma BracketedLast(funs: seq<Option<Callback>>, cmds: seq<bytes>, f: Option<Callback>, c: bytes)
    requires |cmds| == |funs| && Bracketed(funs, cmds)
    requires f.None? ==> c == if Nulls(funs) % 2 == 0 then MULTI_CMD else EXEC_CMD
    ensures Bracketed(funs + [f], cmds + [c])
  {
    forall i | 0 <= i < |funs| + 1 && (funs + [f])[i].None?
      ensures (cmds + [c])[i] == if Nulls((funs + [f])[..i]) % 2 == 0 then MULTI_CMD else EXEC_CMD
    {
      assert (funs + [f])[..i] == funs[..i];
      assert i == |funs| ==> funs[..i] == funs;
    }
  }

  /** What holds between the mode bits, the queue, and the commands waiting to be sent. */
  ghost predicate InStep(multi: bool, pipeline: bool, funs: seq<Option<Callback>>, cmds: seq<bytes>) {
    && (Nulls(funs) % 2 == 1 <==> pipeline && multi)
    && (!pipeline ==> Nulls(funs) == 0 && cmds == [])
    && (!pipeline && !multi ==> funs == [])
    && (pipeline ==> |cmds| == |funs| && Bracketed(funs, cmds))
  }

  lemma InStepPipelined(multi: bool, funs: seq<Option<Callback>>, cmds: seq<bytes>, f: Option<Callback>, c: bytes)
    requires InStep(multi, true, funs, cmds)
    requires f.None? ==> c == if multi then EXEC_CMD else MULTI_CMD
    ensures InStep(if f.None? then !multi else multi, true, funs + [f], cmds + [c])
  {
    NullsLast(funs, f);
    BracketedLast(funs, cmds, f, c);
  }

  lemma InStepQueued(funs: seq<Option<Callback>>, f: Callback)
    requires InStep(true, false, funs, [])
    ensures InStep(true, false, funs + [Some(f)], [])
  {
    NullsLast(funs, Some(f));
  }

  // ---------------------------------------------------------------- reading replies

  predicate StartsWith(r: Option<bytes>, prefix: bytes) {
    r.Some? && prefix <= r.value
  }

  /** redis_sock_read: None when the connection ends, otherwise the reply (None for NULL) and the
      unread rest. */
  function SockRead(s: bytes): (r: Option<(Option<bytes>, bytes)>)
    ensures r.Some? ==> |r.value.1| <= |s|
  {
    match Gets(s, 4095)
    case None => None
    case Some((line, rest)) =>
      if line == [] || line[0] == T_ERR then Some((None, rest))
      else if line[0] == T_BULK then
        var (b, rest') := ReadBulk(rest, ToInt(Atol(line[1..])));
        Some((b, rest'))
      else if line[0] == T_MULTIBULK && [MINUS, 49] <= line[1..] then Some((None, rest))
      else if line[0] == T_MULTIBULK || line[0] == T_LINE || line[0] == T_INT then
        Some((if |line| > 1 then Some(line) else None, rest))
      else Some((None, rest))
  }

  /** The reply and the unread rest where the connection holds; nothing where it ends. */
  function ReplyTo(s: bytes): Option<bytes> {
    if SockRead(s).Some? then SockRead(s).value.0 else None
  }

  function AfterReply(s: bytes): bytes {
    if SockRead(s).Some? then SockRead(s).value.1 else []
  }

  function Callbacks(funs: seq<Option<Callback>>): (k: nat)
    ensures k <= |funs| && (k < |funs| ==> funs[k].None?)
  {
    if funs == [] || funs[0].None? then 0 else 1 + Callbacks(funs[1..])
  }

  lemma {:induction false} CallbacksAre(funs: seq<Option<Callback>>)
    ensures forall j :: 0 <= j < Callbacks(funs) ==> funs[j].Some?
  {
    if funs != [] && funs[0].Some? {
      CallbacksAre(funs[1..]);
      forall j | 0 <= j < Callbacks(funs) ensures funs[j].Some? {
        if j > 0 {
          assert funs[1..][j - 1].Some?;
        }
      }
    }
  }

  /** What is read, or nothing, and the unread rest. */
  datatype Got<T> = Got(value: Option<T>, rest: bytes)

  /** One QUEUED acknowledgement per command of the block, up to the first that is missing. */
  function ReadAcks(k: nat, s: bytes): Got<()> {
    if k == 0 then Got(Some(()), s)
    else
      match SockRead(s)
      case None => Got(None, [])
      case Some((r, rest)) => if StartsWith(r, QUEUED_LINE) then ReadAcks(k - 1, rest) else Got(None, rest)
  }

  lemma ReadAck(k: nat, s: bytes)
    ensures ReadAcks(0, s) == Got(Some(()), s)
    ensures SockRead(s) == None ==> ReadAcks(k + 1, s) == Got(None, [])
    ensures SockRead(s).Some? ==>
              ReadAcks(k + 1, s) == if StartsWith(SockRead(s).value.0, QUEUED_LINE) then ReadAcks(k, SockRead(s).value.1)
                                    else Got(None, SockRead(s).value.1)
  {
  }

  /** The number of replies that an EXEC reply line announces. */
  function ExecCount(line: bytes): int {
    if line == [] then 0 else ToInt(Atol(line[1..]))
  }

  predicate IsArrayHeader(line: bytes) {
    line != [] && line[0] == T_MULTIBULK && ToInt(Atol(line[1..])) >= 0
  }

  /** A MULTI..EXEC block: the +OK line, the acknowledgements, then EXEC's array. */
  function ReadBlock(k: nat, s: bytes, nullArray: bool): Got<PhpValue> {
    match Gets(s, 254)
    case None => Got(None, [])
    case Some((line, s1)) =>
      if !(OK_LINE <= line) then Got(None, s1)
      else
        var acks := ReadAcks(k, s1);
        if acks.value.Some? then ReadExecArray(acks.rest, nullArray) else Got(None, acks.rest)
  }

  function ReadExecArray(s: bytes, nullArray: bool): Got<PhpValue> {
    match Gets(s, 254)
    case None => Got(None, [])
    case Some((header, rest)) =>
      if ExecCount(header) <= 0 then Got(Some(PArray([])), rest)
      else
        var d := ReadMultibulk(rest, ExecCount(header), Options(false, nullArray));
        Got(if d.ok then Some(PArray(d.values)) else None, d.rest)
  }

  /** What the reply loop returns for a queue of callbacks and markers. */
  function ReadReplies(funs: seq<Option<Callback>>, s: bytes, nullArray: bool): Decoded
    decreases |funs|
  {
    if funs == [] then Decoded(true, [], s)
    else if funs[0].Some? then
      var (v, rest) := funs[0].value.run(s);
      Prepend(v, ReadReplies(funs[1..], rest, nullArray))
    else
      var b := ReadBlock(Callbacks(funs[1..]), s, nullArray);
      if b.value == None then Decoded(false, [], b.rest)
      else Prepend([b.value.value], ReadReplies(AfterBlock(funs), b.rest, nullArray))
  }

  /** The queue behind the block that starts with its first item. */
  function AfterBlock(funs: seq<Option<Callback>>): (r: seq<Option<Callback>>)
    requires funs != []
    ensures |r| < |funs|
  {
    var after := funs[1..][Callbacks(funs[1..])..];
    if after == [] then [] else after[1..]
  }

  /** redis_sock_read_multibulk_multi_reply: EXEC outside a pipeline. */
  function ReadExec(funs: seq<Option<Callback>>, s: bytes, nullArray: bool): Decoded {
    match Gets(s, 4095)
    case None => Decoded(false, [], [])
    case Some((line, rest)) =>
      if IsArrayHeader(line) then ReadReplies(funs, rest, nullArray) else Decoded(false, [], rest)
  }

  // ---------------------------------------------------------------- steps of the loop

  /** whole is what the loop returns once the values so far are followed by what d adds. */
  ghost predicate Follows(whole: Decoded, values: seq<PhpValue>, d: Decoded) {
    whole == Prepend(values, d)
  }

  lemma FollowsAll(whole: Decoded)
    ensures Follows(whole, [], whole)
  {
    assert [] + whole.values == whole.values;
  }

  lemma FollowsPlain(whole: Decoded, values: seq<PhpValue>, funs: seq<Option<Callback>>, s: bytes, nullArray: bool)
    requires funs != [] && funs[0].Some?
    requires Follows(whole, values, ReadReplies(funs, s, nullArray))
    ensures var (v, rest) := funs[0].value.run(s);
            Follows(whole, values + v, ReadReplies(funs[1..], rest, nullArray))
  {
    var (v, rest) := funs[0].value.run(s);
    PrependTwice(values, v, ReadReplies(funs[1..], rest, nullArray));
  }

  lemma FollowsBlock(whole: Decoded, values: seq<PhpValue>, funs: seq<Option<Callback>>, s: bytes, nullArray: bool)
    requires funs != [] && funs[0].None?
    requires Follows(whole, values, ReadReplies(funs, s, nullArray))
    ensures var b := ReadBlock(Callbacks(funs[1..]), s, nullArray);
            if b.value == None then whole == Decoded(false, values, b.rest)
            else Follows(whole, values + [b.value.value], ReadReplies(AfterBlock(funs), b.rest, nullArray))
  {
    var b := ReadBlock(Callbacks(funs[1..]), s, nullArray);
    if b.value == None {
      assert values + [] == values;
    } else {
      PrependTwice(values, [b.value.value], ReadReplies(AfterBlock(funs), b.rest, nullArray));
    }
  }

  /** Where the block that starts at item i ends. */
  lemma BlockShape(funs: seq<Option<Callback>>, i: nat)
    requires i < |funs| && funs[i].None?
    ensures var k := Callbacks(funs[i + 1..]);
            && funs[i..][1..] == funs[i + 1..] && i + 1 + k <= |funs|
            && (forall j :: i + 1 <= j < i + 1 + k ==> funs[j].Some?)
            && (i + 1 + k < |funs| ==> funs[i + 1 + k].None?)
            && AfterBlock(funs[i..]) == if i + 1 + k < |funs| then funs[i + k + 2..] else funs[i + k + 1..]
  {
    var k := Callbacks(funs[i + 1..]);
    CallbacksAre(funs[i + 1..]);
    assert forall j :: i + 1 <= j < i + 1 + k ==> funs[j] == funs[i + 1..][j - i - 1];
    assert funs[i + 1..][k..] == funs[i + 1 + k..];
  }

  lemma FollowsNothing(whole: Decoded, values: seq<PhpValue>, s: bytes, nullArray: bool)
    requires Follows(whole, values, ReadReplies([], s, nullArray))
    ensures whole == Decoded(true, values, s)
  {
    assert values + [] == values;
  }

  // ---------------------------------------------------------------- queues are groups

  /** A top-level command, or the commands of one MULTI..EXEC block. */
  datatype Group = One(fun: Callback) | Many(funs: seq<Callback>)

  function Somes(funs: seq<Callback>): (r: seq<Option<Callback>>)
    ensures |r| == |funs|
  {
    seq(|funs|, i requires 0 <= i < |funs| => Some(funs[i]))
  }

  function Items(g: Group): seq<Option<Callback>> {
    match g
    case One(f) => [Some(f)]
    case Many(fs) => [None] + Somes(fs) + [None]
  }

  function Queue(gs: seq<Group>): seq<Option<Callback>> {
    if gs == [] then [] else Items(gs[0]) + Queue(gs[1..])
  }

  lemma {:induction false} QueueLast(gs: seq<Group>, g: Group)
    ensures Queue(gs + [g]) == Queue(gs) + Items(g)
  {
    if gs == [] {
      assert [g][1..] == [];
      assert Items(g) + [] == Items(g);
    } else {
      assert (gs + [g])[1..] == gs[1..] + [g];
      QueueLast(gs[1..], g);
      assert Items(gs[0]) + (Queue(gs[1..]) + Items(g)) == Items(gs[0]) + Queue(gs[1..]) + Items(g);
    }
  }

  /** The last marker, when there is one: everything behind it is a callback. */
  lemma {:induction false} LastMarker(funs: seq<Option<Callback>>) returns (j: nat)
    requires Nulls(funs) > 0
    ensures j < |funs| && funs[j].None? && Nulls(funs[..j]) == Nulls(funs) - 1
    ensures forall i :: j < i < |funs| ==> funs[i].Some?
  {
    var n := |funs| - 1;
    if funs[n].None? {
      j := n;
    } else {
      j := LastMarker(funs[..n]);
      assert funs[..n][..j] == funs[..j];
      assert forall i :: j < i < n ==> funs[i] == funs[..n][i];
    }
  }

  /** A block at the end of a queue, from the marker at j to the marker at the end. */
  lemma LastBlock(funs: seq<Option<Callback>>, j: nat) returns (block: seq<Callback>)
    requires j < |funs| - 1 && funs[j].None? && funs[|funs| - 1].None?
    requires forall i :: j < i < |funs| - 1 ==> funs[i].Some?
    ensures funs == funs[..j] + Items(Many(block))
  {
    var n := |funs| - 1;
    block := seq(n - j - 1, i requires 0 <= i < n - j - 1 => funs[j + 1 + i].value);
    assert funs[j + 1..n] == Somes(block);
    assert funs == funs[..j] + ([None] + funs[j + 1..n] + [None]);
  }

  /** A queue with an even number of markers, as every queue is when exec() runs it, is a
      sequence of plain commands and MULTI..EXEC blocks. */
  lemma {:induction false} EvenQueueIsGroups(funs: seq<Option<Callback>>) returns (gs: seq<Group>)
    requires Nulls(funs) % 2 == 0
    ensures Queue(gs) == funs
    decreases |funs|
  {
    hide Items, Queue;
    var n := |funs| - 1;
    if funs == [] {
      gs := [];
      NoGroups();
    } else if funs[n].Some? {
      var front := EvenQueueIsGroups(funs[..n]);
      gs := front + [One(funs[n].value)];
      QueueLast(front, One(funs[n].value));
      OneItem(funs[n].value);
      assert funs == funs[..n] + [funs[n]];
    } else {
      var j := LastMarker(funs[..n]);
      assert funs[..n][..j] == funs[..j];
      assert forall i :: j < i < n ==> funs[i] == funs[..n][i];
      var front := EvenQueueIsGroups(funs[..j]);
      var block := LastBlock(funs, j);
      gs := front + [Many(block)];
      QueueLast(front, Many(block));
    }
  }

  lemma NoGroups()
    ensures Queue([]) == []
  {
  }

  lemma OneItem(f: Callback)
    ensures Items(One(f)) == [Some(f)]
  {
  }

  // ---------------------------------------------------------------- alignment

  /** What the server sends for one group: the reply to a command and the value its callback
      makes of it; or, after MULTI's +OK, one acknowledgement per command and EXEC's reply. */
  datatype Answer = ToCommand(reply: bytes, value: PhpValue) | ToBlock(acks: seq<Reply>, exec: Reply)

  const OK: Reply := Status([79, 75])
  const QUEUED: Reply := Status([81, 85, 69, 85, 69, 68])

  /** The callback consumes exactly its own reply, whatever follows, and adds one value. */
  ghost predicate ConsumesExactly(f: Callback, reply: bytes, value: PhpValue) {
    forall rest :: f.run(reply + rest) == ([value], rest)
  }

  /** A command of a block is queued or refused with an error line. */
  predicate IsAck(r: Reply) {
    r == QUEUED || (r.Error? && LF !in r.text && |r.text| + 4 <= 4095)
  }

  /** EXEC answers with an array, with nil when a watched key changed, or with an error (that
      does not spell a number where the array's size would be). */
  predicate IsExecReply(r: Reply) {
    match r
    case Array(rs) => |rs| <= INT_MAX && AllWellFormed(rs, VARIANT_BUF)
    case NilArray => true
    case Error(t) => LF !in t && |t| + 4 <= 254 && ToInt(Atol(t)) <= 0
    case _ => false
  }

  ghost predicate Answers(g: Group, a: Answer) {
    match g
    case One(f) => a.ToCommand? && ConsumesExactly(f, a.reply, a.value)
    case Many(fs) =>
      a.ToBlock? && |a.acks| == |fs| && (forall i :: 0 <= i < |fs| ==> IsAck(a.acks[i])) && IsExecReply(a.exec)
  }

  ghost predicate AnswersAll(gs: seq<Group>, answers: seq<Answer>) {
    |gs| == |answers| && forall i :: 0 <= i < |gs| ==> Answers(gs[i], answers[i])
  }

  function AnswerBytes(a: Answer): bytes {
    match a
    case ToCommand(reply, _) => reply
    case ToBlock(acks, exec) => Encode(OK) + (EncodeAll(acks) + Encode(exec))
  }

  function Stream(answers: seq<Answer>): bytes {
    if answers == [] then [] else AnswerBytes(answers[0]) + Stream(answers[1..])
  }

  predicate AllQueued(acks: seq<Reply>) {
    forall i :: 0 <= i < |acks| ==> acks[i] == QUEUED
  }

  predicate Accepted(a: Answer) {
    a.ToBlock? ==> AllQueued(a.acks)
  }

  /** The acknowledgements behind the first that is a refusal. */
  function AfterRefusal(acks: seq<Reply>): seq<Reply>
    requires !AllQueued(acks)
  {
    if acks[0] == QUEUED then AfterRefusal(acks[1..]) else acks[1..]
  }

  /** What of the answers is behind the first refusal. */
  function Unread(answers: seq<Answer>): bytes
    requires !AllAccepted(answers)
  {
    if Accepted(answers[0]) then Unread(answers[1..])
    else EncodeAll(AfterRefusal(answers[0].acks)) + Encode(answers[0].exec) + Stream(answers[1..])
  }

  /** The entry of the result array that a group's answer stands for. */
  function Entry(a: Answer, nullArray: bool): PhpValue {
    match a
    case ToCommand(_, value) => value
    case ToBlock(_, Array(rs)) => PArray(ValuesOf(rs, Options(false, nullArray), PFalse))
    case ToBlock(_, _) => PArray([])
  }

  function Entries(answers: seq<Answer>, nullArray: bool): (r: seq<PhpValue>)
    ensures |r| == |answers|
  {
    seq(|answers|, i requires 0 <= i < |answers| => Entry(answers[i], nullArray))
  }

  lemma GetsEncoded(kind: byte, t: bytes, rest: bytes, buf: nat)
    requires LF !in t && kind != LF && |t| + 4 <= buf
    ensures Gets(Line(kind, t) + rest, buf) == Some(([kind] + t, rest))
  {
    assert Line(kind, t) + rest == ([kind] + t) + CRLF + rest;
    GetsLine([kind] + t, rest, buf);
  }

  lemma AckRead(ack: Reply, rest: bytes)
    requires IsAck(ack)
    ensures SockRead(Encode(ack) + rest).Some?
    ensures var (r, s) := SockRead(Encode(ack) + rest).value; s == rest && (StartsWith(r, QUEUED_LINE) <==> ack == QUEUED)
  {
    if ack == QUEUED {
      GetsEncoded(T_LINE, QUEUED.text, rest, 4095);
    } else {
      GetsEncoded(T_ERR, ack.text, rest, 4095);
    }
  }

  lemma {:induction false} AcksRead(acks: seq<Reply>, rest: bytes)
    requires forall i :: 0 <= i < |acks| ==> IsAck(acks[i])
    ensures ReadAcks(|acks|, EncodeAll(acks) + rest)
            == if AllQueued(acks) then Got(Some(()), rest) else Got(None, EncodeAll(AfterRefusal(acks)) + rest)
  {
    hide SockRead, IsAck, Encode;
    if acks == [] {
      assert EncodeAll(acks) + rest == rest;
    } else {
      var tail := EncodeAll(acks[1..]) + rest;
      assert EncodeAll(acks) + rest == Encode(acks[0]) + tail;
      AckRead(acks[0], tail);
      AcksRead(acks[1..], rest);
      assert AllQueued(acks) <==> acks[0] == QUEUED && AllQueued(acks[1..]);
    }
  }

  /** The line of EXEC's reply, and the number it announces. */
  lemma ExecHeader(n: int, rest: bytes)
    requires -1 <= n <= INT_MAX
    ensures var line := [T_MULTIBULK] + DecimalInt(n);
            Gets(Line(T_MULTIBULK, DecimalInt(n)) + rest, 254) == Some((line, rest)) && ExecCount(line) == n
  {
    hide Decimal, Gets, Atol;
    DecimalIntLine(n);
    GetsEncoded(T_MULTIBULK, DecimalInt(n), rest, 254);
    AtolInverse(n, []);
    assert ([T_MULTIBULK] + DecimalInt(n))[1..] == DecimalInt(n) + [];
  }

  lemma ExecError(t: bytes, rest: bytes)
    requires IsExecReply(Error(t))
    ensures Gets(Line(T_ERR, t) + rest, 254) == Some(([T_ERR] + t, rest)) && ExecCount([T_ERR] + t) <= 0
  {
    hide Gets, Atol;
    GetsEncoded(T_ERR, t, rest, 254);
    assert ([T_ERR] + t)[1..] == t;
  }

  lemma ExecArray(rs: seq<Reply>, rest: bytes, nullArray: bool)
    requires IsExecReply(Array(rs))
    ensures ReadExecArray(Encode(Array(rs)) + rest, nullArray)
            == Got(Some(PArray(ValuesOf(rs, Options(false, nullArray), PFalse))), rest)
  {
    hide ReadMultibulk, ExecCount, Gets, Decimal, AllWellFormed;
    SplitHeader(Array(rs), rest);
    ExecHeader(|rs|, EncodeAll(rs) + rest);
    OnePassExact(rs, rest, Options(false, nullArray));
    if rs == [] {
      assert EncodeAll(rs) + rest == rest;
    }
  }

  lemma ExecRead(exec: Reply, rest: bytes, nullArray: bool)
    requires IsExecReply(exec)
    ensures ReadExecArray(Encode(exec) + rest, nullArray) == Got(Some(Entry(ToBlock([], exec), nullArray)), rest)
  {
    hide ReadMultibulk, ExecCount, Gets, Decimal;
    match exec
    case Array(rs) => ExecArray(rs, rest, nullArray);
    case NilArray => ExecHeader(-1, rest);
    case Error(t) => ExecError(t, rest);
  }

  lemma BlockRead(a: Answer, rest: bytes, nullArray: bool)
    requires a.ToBlock? && (forall i :: 0 <= i < |a.acks| ==> IsAck(a.acks[i])) && IsExecReply(a.exec)
    ensures ReadBlock(|a.acks|, AnswerBytes(a) + rest, nullArray)
            == if Accepted(a) then Got(Some(Entry(a, nullArray)), rest)
               else Got(None, EncodeAll(AfterRefusal(a.acks)) + Encode(a.exec) + rest)
  {
    hide ReadExecArray, Gets, ReadAcks, IsAck, IsExecReply, EncodeAll, AllQueued;
    var tail := Encode(a.exec) + rest;
    assert AnswerBytes(a) + rest == Line(T_LINE, OK.text) + (EncodeAll(a.acks) + tail);
    GetsEncoded(T_LINE, OK.text, EncodeAll(a.acks) + tail, 254);
    AcksRead(a.acks, tail);
    ExecRead(a.exec, rest, nullArray);
  }

  lemma {:induction false} CallbacksOfBlock(funs: seq<Callback>, tail: seq<Option<Callback>>)
    ensures Callbacks(Somes(funs) + [None] + tail) == |funs|
  {
    var s := Somes(funs) + [None] + tail;
    if funs != [] {
      assert s[1..] == Somes(funs[1..]) + [None] + tail;
      CallbacksOfBlock(funs[1..], tail);
    }
  }

  lemma BlockItems(funs: seq<Callback>, tail: seq<Option<Callback>>)
    ensures var q := Items(Many(funs)) + tail;
            q[0].None? && Callbacks(q[1..]) == |funs| && AfterBlock(q) == tail
  {
    var q := Items(Many(funs)) + tail;
    assert q[1..] == Somes(funs) + [None] + tail;
    CallbacksOfBlock(funs, tail);
    assert q[1..][|funs|..] == [None] + tail;
  }

  /** One group of the queue against its answer. */
  lemma {:induction false} StepAligned(g: Group, a: Answer, q: seq<Option<Callback>>, tail: bytes, nullArray: bool)
    requires Answers(g, a)
    ensures ReadReplies(Items(g) + q, AnswerBytes(a) + tail, nullArray)
            == if Accepted(a) then Prepend([Entry(a, nullArray)], ReadReplies(q, tail, nullArray))
               else Decoded(false, [], EncodeAll(AfterRefusal(a.acks)) + Encode(a.exec) + tail)
  {
    hide ReadBlock, Callbacks, AfterBlock, IsAck, IsExecReply, Encode, EncodeAll, AllQueued;
    match g
    case One(f) =>
      assert f.run(a.reply + tail) == ([a.value], tail);
      assert (Items(g) + q)[1..] == q;
    case Many(fs) =>
      BlockItems(fs, q);
      BlockRead(a, tail, nullArray);
  }

  predicate AllAccepted(answers: seq<Answer>) {
    forall i :: 0 <= i < |answers| ==> Accepted(answers[i])
  }

  /** Pipeline reply alignment. Run on the server's answers to any mix of plain commands and
      MULTI..EXEC blocks, the reply loop succeeds exactly when no command of a block was refused;
      then it reads exactly those answers and returns one entry per group, in order. Otherwise it
      stops at the first refusal, and leaves the answers behind it to be read by later commands. */
  lemma {:induction false} RepliesAligned(gs: seq<Group>, answers: seq<Answer>, rest: bytes, nullArray: bool)
    requires AnswersAll(gs, answers)
    ensures var d := ReadReplies(Queue(gs), Stream(answers) + rest, nullArray);
            && (d.ok <==> AllAccepted(answers))
            && (if d.ok then d == Decoded(true, Entries(answers, nullArray), rest)
                else d.rest == Unread(answers) + rest && d.rest != rest)
    decreases |gs|
  {
    hide ReadReplies, Accepted, Answers, AnswerBytes, Items, Entry;
    if gs == [] {
      assert Stream(answers) + rest == rest;
      NothingQueued(rest, nullArray);
    } else {
      var a, tail := answers[0], Stream(answers[1..]) + rest;
      assert Stream(answers) + rest == AnswerBytes(a) + tail;
      assert AnswersAll(gs[1..], answers[1..]);
      RepliesAligned(gs[1..], answers[1..], rest, nullArray);
      assert AllAccepted(answers) <==> Accepted(a) && AllAccepted(answers[1..]);
      assert Entries(answers, nullArray) == [Entry(a, nullArray)] + Entries(answers[1..], nullArray);
      StepAligned(gs[0], a, Queue(gs[1..]), tail, nullArray);
    }
  }

  lemma NothingQueued(rest: bytes, nullArray: bool)
    ensures ReadReplies([], rest, nullArray) == Decoded(true, [], rest)
  {
  }

  // ---------------------------------------------------------------- exec() in MULTI mode alone

  function Ones(funs: seq<Callback>): seq<Group> {
    if funs == [] then [] else [One(funs[0])] + Ones(funs[1..])
  }

  lemma {:induction false} OnesAre(funs: seq<Callback>)
    ensures Queue(Ones(funs)) == Somes(funs) && |Ones(funs)| == |funs|
    ensures forall i :: 0 <= i < |funs| ==> Ones(funs)[i] == One(funs[i])
  {
    if funs == [] {
      assert Somes(funs) == [];
    } else {
      OnesAre(funs[1..]);
      assert Ones(funs)[1..] == Ones(funs[1..]);
      assert Somes(funs) == [Some(funs[0])] + Somes(funs[1..]);
    }
  }

  /** EXEC's array header is read, whatever number it announces, and then one reply for each
      callback. */
  lemma {:induction false} ExecAligned(funs: seq<Callback>, answers: seq<Answer>, n: nat, rest: bytes, nullArray: bool)
    requires n <= INT_MAX && |answers| == |funs|
    requires forall i :: 0 <= i < |funs| ==> Answers(One(funs[i]), answers[i])
    ensures ReadExec(Somes(funs), Line(T_MULTIBULK, DecimalInt(n)) + (Stream(answers) + rest), nullArray)
            == Decoded(true, Entries(answers, nullArray), rest)
  {
    hide ReadReplies, Gets, Atol, Decimal, Answers, Stream, Entries;
    HeaderRead(n, Stream(answers) + rest);
    OnesAre(funs);
    OnesAccepted(funs, answers);
    RepliesAligned(Ones(funs), answers, rest, nullArray);
  }

  lemma OnesAccepted(funs: seq<Callback>, answers: seq<Answer>)
    requires |answers| == |funs| && forall i :: 0 <= i < |funs| ==> Answers(One(funs[i]), answers[i])
    ensures AllAccepted(answers)
  {
  }

  /** A nil array, or an error, is all that is read, and exec() returns false. */
  lemma ExecRefused(funs: seq<Option<Callback>>, exec: Reply, rest: bytes, nullArray: bool)
    requires exec.NilArray? || (exec.Error? && LF !in exec.text && |exec.text| + 4 <= 4095)
    ensures ReadExec(funs, Encode(exec) + rest, nullArray) == Decoded(false, [], rest)
  {
    hide ReadReplies, Gets, Atol, Decimal;
    if exec.NilArray? {
      HeaderRead(-1, rest);
    } else {
      GetsEncoded(T_ERR, exec.text, rest, 4095);
    }
  }

  lemma HeaderRead(n: int, rest: bytes)
    requires -1 <= n <= INT_MAX
    ensures var line := [T_MULTIBULK] + DecimalInt(n);
            Gets(Line(T_MULTIBULK, DecimalInt(n)) + rest, 4095) == Some((line, rest)) && (IsArrayHeader(line) <==> n >= 0)
  {
    hide Decimal, Gets, Atol;
    DecimalIntLine(n);
    GetsEncoded(T_MULTIBULK, DecimalInt(n), rest, 4095);
    AtolInverse(n, []);
    assert ([T_MULTIBULK] + DecimalInt(n))[1..] == DecimalInt(n) + [];
  }

  // ---------------------------------------------------------------- the commands sent

  lemma OneWordCommand(word: bytes)
    requires |word| < 10
    ensures RespWriter.Command(0, word, []) == [42, 49, 13, 10, 36, DIGITS[|word|], 13, 10] + word + CRLF
  {
    RespWriter.CommandOfNone(0, word);
    assert Decimal(1) == [49] && Decimal(|word|) == [DIGITS[|word|]];
  }

  /** The prebuilt commands are what the command writer would build. */
  lemma PrebuiltCommands()
    ensures MULTI_CMD == RespWriter.Command(0, [77, 85, 76, 84, 73], [])
    ensures EXEC_CMD == RespWriter.Command(0, [69, 88, 69, 67], [])
    ensures DISCARD_CMD == RespWriter.Command(0, [68, 73, 83, 67, 65, 82, 68], [])
    ensures RESET_CMD == RespWriter.Command(0, [82, 69, 83, 69, 84], [])
  {
    hide RespWriter.Command;
    OneWordCommand([77, 85, 76, 84, 73]);
    OneWordCommand([69, 88, 69, 67]);
    OneWordCommand([68, 73, 83, 67, 65, 82, 68]);
    OneWordCommand([82, 69, 83, 69, 84]);
  }

  lemma {:induction false} ConcatIsEncodeAll(cmds: seq<bytes>, rs: seq<Reply>)
    requires |cmds| == |rs| && forall i :: 0 <= i < |rs| ==> cmds[i] == Encode(rs[i])
    ensures Concat(cmds) == EncodeAll(rs)
    decreases |rs|
  {
    if rs != [] {
      ConcatIsEncodeAll(cmds[1..], rs[1..]);
    }
  }

  /** The server reads the pipeline buffer as exactly the queued commands, in order. */
  lemma {:induction false} BufferDecodes(cmds: seq<bytes>, rs: seq<Reply>, rest: bytes, o: Options)
    requires |cmds| == |rs| && forall i :: 0 <= i < |rs| ==> cmds[i] == Encode(rs[i])
    requires AllWellFormed(rs, VARIANT_BUF)
    ensures ReadMultibulk(Concat(cmds) + rest, |cmds|, o) == Decoded(true, ValuesOf(rs, o, PFalse), rest)
  {
    ConcatIsEncodeAll(cmds, rs);
    OnePassExact(rs, rest, o);
  }

  /** The words of the i-th item: those of its command, or of the marker. */
  function WordsAt(funs: seq<Option<Callback>>, words: seq<seq<bytes>>, i: nat): seq<bytes>
    requires i < |funs| == |words|
  {
    if funs[i].Some? then words[i]
    else if Nulls(funs[..i]) % 2 == 0 then [[77, 85, 76, 84, 73]]
    else [[69, 88, 69, 67]]
  }

  predicate WrittenAs(cmd: bytes, words: seq<bytes>) {
    words != [] && RespWriter.Fitting(words) && cmd == RespWriter.Command(|words| - 1, words[0], words[1..])
  }

  function AsReplies(words: seq<seq<bytes>>): (rs: seq<Reply>)
    ensures |rs| == |words|
  {
    if words == [] then [] else [Array(RespWriter.Bulks(words[0]))] + AsReplies(words[1..])
  }

  function AsValues(words: seq<seq<bytes>>): (vs: seq<PhpValue>)
    ensures |vs| == |words|
  {
    if words == [] then [] else [PArray(RespWriter.Strings(words[0]))] + AsValues(words[1..])
  }

  lemma WrittenEncodes(cmd: bytes, words: seq<bytes>, o: Options)
    requires WrittenAs(cmd, words)
    ensures cmd == Encode(Array(RespWriter.Bulks(words))) && WellFormed(Array(RespWriter.Bulks(words)), VARIANT_BUF)
    ensures ValueOf(Array(RespWriter.Bulks(words)), o, PFalse) == PArray(RespWriter.Strings(words))
  {
    hide Decimal;
    assert [words[0]] + words[1..] == words;
    RespWriter.BulksValues(words, o);
  }

  lemma {:induction false} AllWrittenEncode(cmds: seq<bytes>, words: seq<seq<bytes>>, o: Options)
    requires |cmds| == |words| && forall i :: 0 <= i < |cmds| ==> WrittenAs(cmds[i], words[i])
    ensures forall i :: 0 <= i < |cmds| ==> cmds[i] == Encode(AsReplies(words)[i])
    ensures AllWellFormed(AsReplies(words), VARIANT_BUF) && ValuesOf(AsReplies(words), o, PFalse) == AsValues(words)
    decreases |cmds|
  {
    hide WrittenAs, Encode, WellFormed, ValueOf;
    if cmds != [] {
      WrittenEncodes(cmds[0], words[0], o);
      AllWrittenEncode(cmds[1..], words[1..], o);
      assert AsReplies(words)[1..] == AsReplies(words[1..]);
      assert forall i :: 0 < i < |cmds| ==> cmds[i] == cmds[1..][i - 1] && AsReplies(words)[i] == AsReplies(words[1..])[i - 1];
    }
  }

  /** What a pipeline sends, when the queue is in step with its buffer and each command was written
      as its words: the server reads those commands in order, with MULTI and EXEC in turn at the
      markers. */
  lemma {:induction false} QueueDecodes(funs: seq<Option<Callback>>, cmds: seq<bytes>, words: seq<seq<bytes>>, rest: bytes, o: Options)
    requires |cmds| == |funs| == |words| && Bracketed(funs, cmds)
    requires forall i :: 0 <= i < |funs| && funs[i].Some? ==> WrittenAs(cmds[i], words[i])
    ensures var all := seq(|funs|, i requires 0 <= i < |funs| => WordsAt(funs, words, i));
            ReadMultibulk(Concat(cmds) + rest, |cmds|, o) == Decoded(true, AsValues(all), rest)
  {
    hide ReadMultibulk, RespWriter.Command, Concat;
    var all := seq(|funs|, i requires 0 <= i < |funs| => WordsAt(funs, words, i));
    PrebuiltCommands();
    forall i | 0 <= i < |cmds| ensures WrittenAs(cmds[i], all[i]) {
      if funs[i].None? {
        assert all[i][1..] == [];
      }
    }
    AllWrittenEncode(cmds, all, o);
    BufferDecodes(cmds, AsReplies(all), rest, o);
  }
}
