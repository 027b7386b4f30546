/**
 The RESP2 protocol: the replies a server may send, their wire form, and what the client's
 two readers make of a byte stream.

 The one-pass reader (library.c) builds PHP values while it reads. The two-pass reader
 (cluster_library.c) first builds a reply tree and then converts the tree. Both are given
 here as functions of the unread bytes; RespReader holds the loops that compute them.
 */
module Resp {
  import opened Bytes

  const T_LINE: byte := 43
  const T_ERR: byte := 45
  const T_INT: byte := 58
  const T_BULK: byte := 36
  const T_MULTIBULK: byte := 42

  /** Sizes of the buffers that the readers pass to the line reader. */
  const HEADER_BUF: nat := 255
  const VARIANT_BUF: nat := 4096
  const CLUSTER_BUF: nat := 1024

  // ---------------------------------------------------------------- replies on the wire

  datatype Reply =
    | Error(text: bytes)
    | Status(text: bytes)
    | Integer(i: int)
    | Bulk(data: bytes)
    | NilBulk
    | Array(items: seq<Reply>)
    | NilArray

  function Line(kind: byte, text: bytes): bytes {
    [kind] + text + CRLF
  }

  function Encode(r: Reply): (s: bytes)
    ensures |s| > 0
    decreases r
  {
    match r
    case Error(t) => Line(T_ERR, t)
    case Status(t) => Line(T_LINE, t)
    case Integer(i) => Line(T_INT, DecimalInt(i))
    case Bulk(d) => Line(T_BULK, Decimal(|d|)) + d + CRLF
    case NilBulk => Line(T_BULK, DecimalInt(-1))
    case Array(rs) => Line(T_MULTIBULK, Decimal(|rs|)) + EncodeAll(rs)
    case NilArray => Line(T_MULTIBULK, DecimalInt(-1))
  }

  function EncodeAll(rs: seq<Reply>): bytes
    decreases rs
  {
    if rs == [] then [] else Encode(rs[0]) + EncodeAll(rs[1..])
  }

  /** What the protocol asks of a reply, plus the longest status or error line the reader's
      buffer of `buf` bytes can hold together with its CRLF and terminating NUL. */
  predicate WellFormed(r: Reply, buf: nat)
    decreases r
  {
    match r
    case Error(t) => LF !in t && |t| + 3 <= buf
    case Status(t) => LF !in t && |t| + 3 <= buf
    case Integer(i) => LONG_MIN <= i <= LONG_MAX
    case Bulk(d) => |d| + 2 <= INT_MAX
    case NilBulk => true
    case Array(rs) => |rs| <= INT_MAX && AllWellFormed(rs, buf)
    case NilArray => true
  }

  predicate AllWellFormed(rs: seq<Reply>, buf: nat)
    decreases rs
  {
    rs == [] || (WellFormed(rs[0], buf) && AllWellFormed(rs[1..], buf))
  }

  // ---------------------------------------------------------------- PHP values

  /** PUndef is the zval that is appended without having been set when a line cannot be read. */
  datatype PhpValue =
    | PNull
    | PFalse
    | PTrue
    | PLong(i: int)
    | PString(s: bytes)
    | PArray(a: seq<PhpValue>)
    | PUndef

  /** statusStrings keeps status lines as strings; nullArray turns a nil array into null. */
  datatype Options = Options(statusStrings: bool, nullArray: bool)

  /** The PHP value a reply stands for. The readers differ in what a nil bulk becomes. */
  function ValueOf(r: Reply, o: Options, nilBulk: PhpValue): PhpValue
    decreases r
  {
    match r
    case Error(_) => PFalse
    case Status(t) => if o.statusStrings then PString(t) else PTrue
    case Integer(i) => PLong(i)
    case Bulk(d) => PString(d)
    case NilBulk => nilBulk
    case Array(rs) => PArray(ValuesOf(rs, o, nilBulk))
    case NilArray => if o.nullArray then PNull else PArray([])
  }

  function ValuesOf(rs: seq<Reply>, o: Options, nilBulk: PhpValue): (vs: seq<PhpValue>)
    ensures |vs| == |rs|
    decreases rs
  {
    if rs == [] then [] else [ValueOf(rs[0], o, nilBulk)] + ValuesOf(rs[1..], o, nilBulk)
  }

  // ---------------------------------------------------------------- reading the stream

  /** php_stream_get_line: up to and including the next LF, but never more than buf - 1 bytes.
      None at the end of the stream. */
  function LineLength(s: bytes, buf: nat): (n: nat)
    requires buf > 1 && s != []
    ensures 0 < n <= |s|
  {
    var k := IndexOf(s, LF);
    var n := if k < |s| then k + 1 else k;
    if n < buf then n else buf - 1
  }

  /** redis_sock_gets: a line without its last two bytes, and the unread rest. */
  function Gets(s: bytes, buf: nat): (r: Option<(bytes, bytes)>)
    requires buf > 1
    ensures r.Some? ==> |r.value.1| < |s|
  {
    if s == [] then None
    else
      var n := LineLength(s, buf);
      if n < 2 then None else Some((s[..n - 2], s[n..]))
  }

  /** redis_read_reply_type: the type byte, the number on its line for the three sized types,
      and the unread rest. */
  function ReadReplyType(s: bytes): (r: Option<(byte, int, bytes)>)
    ensures r.Some? ==> |r.value.2| < |s|
  {
    if s == [] then None
    else if s[0] == T_INT || s[0] == T_BULK || s[0] == T_MULTIBULK then
      if s[1..] == [] then None
      else
        var n := LineLength(s[1..], HEADER_BUF);
        Some((s[0], Atol(s[1..][..n]), s[1..][n..]))
    else Some((s[0], 0, s[1..]))
  }

  /** redis_sock_read_bulk_reply: the next n bytes, dropping the two that follow them. A short
      read consumes what there is and fails. */
  function ReadBulk(s: bytes, n: int): (r: (Option<bytes>, bytes))
    ensures |r.1| <= |s|
  {
    if n < 0 || s == [] then (None, s)
    else if n + 2 <= |s| then (Some(s[..n]), s[n + 2..])
    else (None, [])
  }

  /** A C `int` argument that receives a `long`. */
  function ToInt(n: int): int {
    var m := n % 0x1_0000_0000;
    if m > INT_MAX then m - 0x1_0000_0000 else m
  }

  // ---------------------------------------------------------------- one-pass reader

  datatype Decoded = Decoded(ok: bool, values: seq<PhpValue>, rest: bytes)

  /** redis_read_multibulk_recursive on `elements` replies. */
  function ReadMultibulk(s: bytes, elements: int, o: Options): (d: Decoded)
    ensures |d.rest| <= |s|
    decreases |s|, 1
  {
    if elements <= 0 then Decoded(true, [], s)
    else
      match ReadReplyType(s)
      case None => Decoded(false, [], [])
      case Some((kind, info, s1)) =>
        var (v, s2) := ReadElement(kind, info, s1, o);
        var d := ReadMultibulk(s2, elements - 1, o);
        Decoded(d.ok, v + d.values, d.rest)
  }

  /** The switch on one element: the values it appends, and the unread rest. */
  function ReadElement(kind: byte, info: int, s: bytes, o: Options): (r: (seq<PhpValue>, bytes))
    ensures |r.1| <= |s|
    decreases |s|, 2
  {
    if kind == T_ERR || kind == T_LINE then
      match Gets(s, VARIANT_BUF)
      case None => ([PUndef], [])
      case Some((line, rest)) =>
        ([if kind == T_ERR then PFalse else if o.statusStrings then PString(line) else PTrue], rest)
    else if kind == T_INT then ([PLong(info)], s)
    else if kind == T_BULK then
      var (b, rest) := ReadBulk(s, ToInt(info));
      ([if b.Some? then PString(b.value) else PFalse], rest)
    else if kind == T_MULTIBULK then
      if info < 0 && o.nullArray then ([PNull], s)
      else
        var d := ReadMultibulk(s, info, o);
        ([PArray(d.values)], d.rest)
    else ([], s)
  }

  /** variant_reply_generic: one reply of any type; an unknown type byte is a protocol error. */
  function VariantReply(s: bytes, o: Options): (r: Option<(PhpValue, bytes)>)
    ensures r.Some? ==> |r.value.1| < |s|
  {
    match ReadReplyType(s)
    case None => None
    case Some((kind, info, s1)) =>
      var (v, rest) := ReadElement(kind, info, s1, o);
      if v == [] then None else Some((v[0], rest))
  }

  // ---------------------------------------------------------------- two-pass reader

  /** clusterReply. `integer` is a size_t; `str` is None where the C pointer stays NULL. */
  datatype ClusterReply =
    | CError
    | CLine(str: Option<bytes>)
    | CInt(integer: nat)
    | CBulk(len: int, str: Option<bytes>)
    | CMulti(elements: int, element: seq<ClusterReply>)

  function ToSizeT(i: int): nat {
    i % 0x1_0000_0000_0000_0000
  }

  function ToZendLong(n: nat): int {
    var m := n % 0x1_0000_0000_0000_0000;
    if m > LONG_MAX then m - 0x1_0000_0000_0000_0000 else m
  }

  datatype Tree = Tree(ok: bool, element: seq<ClusterReply>, rest: bytes)

  /** cluster_multibulk_resp_recursive: the first pass. */
  function ReadTree(s: bytes, elements: nat, statusStrings: bool): (t: Tree)
    ensures |t.rest| <= |s|
    ensures t.ok ==> |t.element| == elements
    decreases |s|, 2
  {
    if elements == 0 then Tree(true, [], s)
    else
      match ReadNext(s, statusStrings)
      case None => Tree(false, [], [])
      case Some((node, rest)) =>
        var t := ReadTree(rest, elements - 1, statusStrings);
        if t.ok then Tree(true, [node] + t.element, t.rest) else Tree(false, [], t.rest)
  }

  /** One turn of the loop: the type byte, its number, then the node. */
  function ReadNext(s: bytes, statusStrings: bool): (r: Option<(ClusterReply, bytes)>)
    ensures r.Some? ==> |r.value.1| < |s|
    decreases |s|, 1
  {
    match ReadReplyType(s)
    case None => None
    case Some((kind, info, rest)) => ReadNode(kind, info, rest, statusStrings)
  }

  function ReadNode(kind: byte, info: int, s: bytes, statusStrings: bool): (r: Option<(ClusterReply, bytes)>)
    ensures r.Some? ==> |r.value.1| <= |s|
    decreases |s|, 3
  {
    if kind == T_ERR || kind == T_LINE then
      match Gets(s, CLUSTER_BUF)
      case None => None
      case Some((line, rest)) =>
        Some((if kind == T_ERR then CError else CLine(if statusStrings then Some(line) else None), rest))
    else if kind == T_INT then Some((CInt(ToSizeT(info)), s))
    else if kind == T_BULK then
      if info < 0 then Some((CBulk(info, None), s))
      else
        var (b, rest) := ReadBulk(s, ToInt(info));
        if b.None? then None else Some((CBulk(info, b), rest))
    else if kind == T_MULTIBULK then
      if info <= 0 then Some((CMulti(info, []), s))
      else
        var t := ReadTree(s, info, statusStrings);
        if t.ok then Some((CMulti(info, t.element), t.rest)) else None
    else None
  }

  /** cluster_mbulk_variant_resp: the second pass. */
  function Convert(c: ClusterReply, nullArray: bool): PhpValue
    decreases c
  {
    match c
    case CInt(n) => PLong(ToZendLong(n))
    case CLine(str) => if str.Some? then PString(str.value) else PTrue
    case CBulk(len, str) => if len > -1 && str.Some? then PString(str.value) else PNull
    case CMulti(n, cs) => if n < 0 && nullArray then PNull else PArray(ConvertAll(cs, nullArray))
    case CError => PFalse
  }

  function ConvertAll(cs: seq<ClusterReply>, nullArray: bool): (vs: seq<PhpValue>)
    ensures |vs| == |cs|
    decreases cs
  {
    if cs == [] then [] else [Convert(cs[0], nullArray)] + ConvertAll(cs[1..], nullArray)
  }
}
