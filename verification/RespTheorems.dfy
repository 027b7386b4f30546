/**
 Both readers decode exactly what the protocol encodes: they return the values of the replies
 they were sent and leave every following byte unread. Hence they agree with each other, up to
 what a nil bulk becomes.
 */
module RespTheorems {
  import opened Bytes
  import opened Resp

  // ---------------------------------------------------------------- lines

  lemma IndexOfFirstLF(t: bytes, rest: bytes)
    requires LF !in t
    ensures IndexOf(t + [LF] + rest, LF) == |t|
  {
    var s := t + [LF] + rest;
    assert s[..|t|] == t && s[|t|] == LF;
    IndexOfUnique(s, LF, |t|);
  }

  lemma LineLengthOf(t: bytes, rest: bytes, buf: nat)
    requires LF !in t && |t| + 3 <= buf
    ensures LineLength(t + CRLF + rest, buf) == |t| + 2
    ensures (t + CRLF + rest)[..|t|] == t
    ensures (t + CRLF + rest)[|t| + 2..] == rest
  {
    assert t + CRLF + rest == (t + [CR]) + [LF] + rest;
    IndexOfFirstLF(t + [CR], rest);
  }

  lemma GetsLine(t: bytes, rest: bytes, buf: nat)
    requires LF !in t && |t| + 3 <= buf
    ensures Gets(t + CRLF + rest, buf) == Some((t, rest))
  {
    LineLengthOf(t, rest, buf);
  }

  // ---------------------------------------------------------------- headers

  function Pow10(k: nat): nat {
    if k == 0 then 1 else 10 * Pow10(k - 1)
  }

  lemma {:induction false} DecimalLength(n: nat, k: nat)
    requires 0 < k && n < Pow10(k)
    ensures |Decimal(n)| <= k
  {
    if n >= 10 {
      assert k > 1;
      DecimalLength(n / 10, k - 1);
    }
  }

  lemma DecimalIntLine(i: int)
    requires LONG_MIN <= i <= LONG_MAX
    ensures LF !in DecimalInt(i) && |DecimalInt(i)| <= 20
  {
    var n: nat := if i < 0 then -i else i;
    assert Pow10(4) == 10_000;
    assert Pow10(8) == 100_000_000;
    assert Pow10(12) == 1_000_000_000_000;
    assert Pow10(16) == 10_000_000_000_000_000;
    assert Pow10(19) == 10_000_000_000_000_000_000;
    DecimalLength(n, 19);
    DecimalDigits(n);
    assert !IsDigit(LF);
  }

  /** A sized reply's header reads back as its type and its number. */
  lemma ReadHeader(kind: byte, i: int, rest: bytes)
    requires kind == T_INT || kind == T_BULK || kind == T_MULTIBULK
    requires LONG_MIN <= i <= LONG_MAX
    ensures ReadReplyType(Line(kind, DecimalInt(i)) + rest) == Some((kind, i, rest))
  {
    var d := DecimalInt(i);
    var s := Line(kind, d) + rest;
    DecimalIntLine(i);
    assert s[1..] == d + CRLF + rest;
    LineLengthOf(d, rest, HEADER_BUF);
    assert s[1..][..|d| + 2] == d + CRLF;
    AtolInverse(i, CRLF);
  }

  lemma ReadLineType(kind: byte, t: bytes, rest: bytes)
    requires kind == T_ERR || kind == T_LINE
    ensures ReadReplyType(Line(kind, t) + rest) == Some((kind, 0, t + CRLF + rest))
  {
    assert (Line(kind, t) + rest)[1..] == t + CRLF + rest;
  }

  lemma ReadBulkData(d: bytes, rest: bytes)
    requires |d| + 2 <= INT_MAX
    ensures ReadBulk(d + CRLF + rest, ToInt(|d|)) == (Some(d), rest)
  {
    var s := d + CRLF + rest;
    assert s[..|d|] == d && s[|d| + 2..] == rest;
  }

  lemma NoBulkData(s: bytes)
    ensures ReadBulk(s, ToInt(-1)) == (None, s)
  {
  }

  /** How the encoding of a reply splits into a header and a body. */
  lemma SplitHeader(r: Reply, rest: bytes)
    ensures r.Bulk? ==> Encode(r) + rest == Line(T_BULK, DecimalInt(|r.data|)) + (r.data + CRLF + rest)
    ensures r.Array? ==> Encode(r) + rest == Line(T_MULTIBULK, DecimalInt(|r.items|)) + (EncodeAll(r.items) + rest)
  {
  }

  // ---------------------------------------------------------------- one-pass reader

  /** One element of an array, read by the one-pass reader. */
  lemma {:induction false} OnePassElement(r: Reply, rest: bytes, o: Options)
    requires WellFormed(r, VARIANT_BUF)
    ensures ReadReplyType(Encode(r) + rest).Some?
    ensures var (kind, info, s) := ReadReplyType(Encode(r) + rest).value;
            ReadElement(kind, info, s, o) == ([ValueOf(r, o, PFalse)], rest)
    decreases r, 1
  {
    hide ReadReplyType, Gets, ReadBulk, Line, Decimal, DecimalInt, ValuesOf, EncodeAll;
    match r
    case Error(t) => ReadLineType(T_ERR, t, rest); GetsLine(t, rest, VARIANT_BUF);
    case Status(t) => ReadLineType(T_LINE, t, rest); GetsLine(t, rest, VARIANT_BUF);
    case Integer(i) => ReadHeader(T_INT, i, rest);
    case Bulk(d) =>
      SplitHeader(r, rest);
      ReadHeader(T_BULK, |d|, d + CRLF + rest);
      ReadBulkData(d, rest);
    case NilBulk => ReadHeader(T_BULK, -1, rest); NoBulkData(rest);
    case Array(rs) =>
      SplitHeader(r, rest);
      ReadHeader(T_MULTIBULK, |rs|, EncodeAll(rs) + rest);
      OnePassExact(rs, rest, o);
    case NilArray => ReadHeader(T_MULTIBULK, -1, rest);
  }

  /** The one-pass reader returns the values of the replies and stops right after them. */
  lemma {:induction false} OnePassExact(rs: seq<Reply>, rest: bytes, o: Options)
    requires AllWellFormed(rs, VARIANT_BUF)
    ensures ReadMultibulk(EncodeAll(rs) + rest, |rs|, o) == Decoded(true, ValuesOf(rs, o, PFalse), rest)
    decreases rs, 0
  {
    if rs == [] {
      assert EncodeAll(rs) + rest == rest;
    } else {
      hide ReadReplyType, ReadElement, ValueOf, Encode, WellFormed;
      var tail := EncodeAll(rs[1..]) + rest;
      assert EncodeAll(rs) + rest == Encode(rs[0]) + tail;
      OnePassElement(rs[0], tail, o);
      OnePassExact(rs[1..], rest, o);
    }
  }

  function Prepend(vs: seq<PhpValue>, d: Decoded): Decoded {
    Decoded(d.ok, vs + d.values, d.rest)
  }

  lemma PrependNothing(d: Decoded)
    ensures Prepend([], d) == d
  {
    assert [] + d.values == d.values;
  }

  lemma PrependTwice(v: seq<PhpValue>, vs: seq<PhpValue>, d: Decoded)
    ensures Prepend(v, Prepend(vs, d)) == Prepend(v + vs, d)
  {
    assert v + (vs + d.values) == v + vs + d.values;
  }

  lemma OnePassStep(r: Reply, n: nat, tail: bytes, o: Options)
    requires WellFormed(r, VARIANT_BUF)
    ensures ReadMultibulk(Encode(r) + tail, n + 1, o) == Prepend([ValueOf(r, o, PFalse)], ReadMultibulk(tail, n, o))
  {
    hide ReadReplyType, ReadElement, ValueOf, Encode, WellFormed;
    OnePassElement(r, tail, o);
  }

  /** Reading |rs| + more replies: the first |rs| come from the replies, the others from what
      follows them. */
  lemma {:induction false} OnePassPrefix(rs: seq<Reply>, more: nat, rest: bytes, o: Options)
    requires AllWellFormed(rs, VARIANT_BUF)
    ensures ReadMultibulk(EncodeAll(rs) + rest, |rs| + more, o)
            == Prepend(ValuesOf(rs, o, PFalse), ReadMultibulk(rest, more, o))
  {
    hide ReadMultibulk, Prepend, ValueOf, Encode, WellFormed;
    if rs == [] {
      assert EncodeAll(rs) + rest == rest;
      PrependNothing(ReadMultibulk(rest, more, o));
    } else {
      var tail := EncodeAll(rs[1..]) + rest;
      var v, vs := [ValueOf(rs[0], o, PFalse)], ValuesOf(rs[1..], o, PFalse);
      assert EncodeAll(rs) + rest == Encode(rs[0]) + tail;
      OnePassStep(rs[0], |rs[1..]| + more, tail, o);
      OnePassPrefix(rs[1..], more, rest, o);
      PrependTwice(v, vs, ReadMultibulk(rest, more, o));
      assert |rs[1..]| + more + 1 == |rs| + more;
      assert ValuesOf(rs, o, PFalse) == v + vs;
    }
  }

  /** When the stream ends early the reader returns what there is and reports failure. */
  lemma OnePassShort(rs: seq<Reply>, more: nat, o: Options)
    requires AllWellFormed(rs, VARIANT_BUF)
    ensures ReadMultibulk(EncodeAll(rs), |rs| + more, o) == Decoded(more == 0, ValuesOf(rs, o, PFalse), [])
  {
    OnePassPrefix(rs, more, [], o);
    assert EncodeAll(rs) + [] == EncodeAll(rs);
    assert ReadMultibulk([], more, o) == Decoded(more == 0, [], []);
    assert ValuesOf(rs, o, PFalse) + [] == ValuesOf(rs, o, PFalse);
  }

  // ---------------------------------------------------------------- two-pass reader

  /** The tree that stands for a reply. */
  function TreeOf(r: Reply, statusStrings: bool): ClusterReply
    decreases r
  {
    match r
    case Error(_) => CError
    case Status(t) => CLine(if statusStrings then Some(t) else None)
    case Integer(i) => CInt(ToSizeT(i))
    case Bulk(d) => CBulk(|d|, Some(d))
    case NilBulk => CBulk(-1, None)
    case Array(rs) => CMulti(|rs|, TreesOf(rs, statusStrings))
    case NilArray => CMulti(-1, [])
  }

  function TreesOf(rs: seq<Reply>, statusStrings: bool): (cs: seq<ClusterReply>)
    ensures |cs| == |rs|
    decreases rs
  {
    if rs == [] then [] else [TreeOf(rs[0], statusStrings)] + TreesOf(rs[1..], statusStrings)
  }

  lemma {:induction false} TwoPassNode(r: Reply, rest: bytes, statusStrings: bool)
    requires WellFormed(r, CLUSTER_BUF)
    ensures ReadReplyType(Encode(r) + rest).Some?
    ensures var (kind, info, s) := ReadReplyType(Encode(r) + rest).value;
            ReadNode(kind, info, s, statusStrings) == Some((TreeOf(r, statusStrings), rest))
    decreases r, 1
  {
    hide ReadReplyType, Gets, ReadBulk, Line, Decimal, DecimalInt, ReadTree;
    match r
    case Error(t) => ReadLineType(T_ERR, t, rest); GetsLine(t, rest, CLUSTER_BUF);
    case Status(t) => ReadLineType(T_LINE, t, rest); GetsLine(t, rest, CLUSTER_BUF);
    case Integer(i) => ReadHeader(T_INT, i, rest);
    case Bulk(d) =>
      SplitHeader(r, rest);
      ReadHeader(T_BULK, |d|, d + CRLF + rest);
      ReadBulkData(d, rest);
    case NilBulk => ReadHeader(T_BULK, -1, rest);
    case Array(rs) =>
      SplitHeader(r, rest);
      ReadHeader(T_MULTIBULK, |rs|, EncodeAll(rs) + rest);
      TwoPassExact(rs, rest, statusStrings);
      assert rs == [] ==> EncodeAll(rs) + rest == rest;
    case NilArray => ReadHeader(T_MULTIBULK, -1, rest);
  }

  /** The first pass builds the trees of the replies and stops right after them. */
  lemma {:induction false} TwoPassExact(rs: seq<Reply>, rest: bytes, statusStrings: bool)
    requires AllWellFormed(rs, CLUSTER_BUF)
    ensures ReadTree(EncodeAll(rs) + rest, |rs|, statusStrings) == Tree(true, TreesOf(rs, statusStrings), rest)
    decreases rs, 0
  {
    if rs == [] {
      assert EncodeAll(rs) + rest == rest;
    } else {
      hide ReadNext, ReadReplyType, ReadNode, TreeOf, Encode, WellFormed;
      var tail := EncodeAll(rs[1..]) + rest;
      assert EncodeAll(rs) + rest == Encode(rs[0]) + tail;
      TwoPassNode(rs[0], tail, statusStrings);
      TwoPassExact(rs[1..], rest, statusStrings);
    }
  }

  /** The second pass turns the tree of a reply into its value, a nil bulk into null. */
  lemma {:induction false} ConvertTree(r: Reply, o: Options)
    requires WellFormed(r, CLUSTER_BUF)
    ensures Convert(TreeOf(r, o.statusStrings), o.nullArray) == ValueOf(r, o, PNull)
    decreases r, 1
  {
    match r
    case Array(rs) => ConvertTrees(rs, o);
    case _ =>
  }

  lemma {:induction false} ConvertTrees(rs: seq<Reply>, o: Options)
    requires AllWellFormed(rs, CLUSTER_BUF)
    ensures ConvertAll(TreesOf(rs, o.statusStrings), o.nullArray) == ValuesOf(rs, o, PNull)
    decreases rs, 0
  {
    if rs != [] {
      ConvertTree(rs[0], o);
      ConvertTrees(rs[1..], o);
      assert TreesOf(rs, o.statusStrings)[1..] == TreesOf(rs[1..], o.statusStrings);
    }
  }

  // ---------------------------------------------------------------- the readers agree

  lemma {:induction false} BufferMonotone(rs: seq<Reply>, small: nat, large: nat)
    requires small <= large && AllWellFormed(rs, small)
    ensures AllWellFormed(rs, large)
    decreases rs
  {
    if rs != [] {
      if rs[0].Array? {
        BufferMonotone(rs[0].items, small, large);
      }
      BufferMonotone(rs[1..], small, large);
    }
  }

  /** Decoder equivalence. On the wire form of any well-formed replies, both decoders succeed,
      read the same bytes, and give the values of the replies; only a nil bulk differs. */
  lemma DecodersAgree(rs: seq<Reply>, rest: bytes, o: Options)
    requires AllWellFormed(rs, CLUSTER_BUF)
    ensures var one := ReadMultibulk(EncodeAll(rs) + rest, |rs|, o);
            var tree := ReadTree(EncodeAll(rs) + rest, |rs|, o.statusStrings);
            && one.ok && tree.ok && one.rest == tree.rest == rest
            && one.values == ValuesOf(rs, o, PFalse)
            && ConvertAll(tree.element, o.nullArray) == ValuesOf(rs, o, PNull)
  {
    BufferMonotone(rs, CLUSTER_BUF, VARIANT_BUF);
    OnePassExact(rs, rest, o);
    TwoPassExact(rs, rest, o.statusStrings);
    ConvertTrees(rs, o);
  }

  /** Does a nil bulk occur anywhere in the replies? */
  predicate HasNilBulk(rs: seq<Reply>)
    decreases rs
  {
    rs != [] && (rs[0].NilBulk? || (rs[0].Array? && HasNilBulk(rs[0].items)) || HasNilBulk(rs[1..]))
  }

  /** The two decoders give equal values exactly when no nil bulk occurs. */
  lemma {:induction false} SameValuesIffNoNil(rs: seq<Reply>, o: Options)
    ensures ValuesOf(rs, o, PFalse) == ValuesOf(rs, o, PNull) <==> !HasNilBulk(rs)
    decreases rs
  {
    if rs != [] {
      if rs[0].Array? {
        SameValuesIffNoNil(rs[0].items, o);
      }
      SameValuesIffNoNil(rs[1..], o);
      var f, n := ValuesOf(rs, o, PFalse), ValuesOf(rs, o, PNull);
      assert f == n <==> f[0] == n[0] && f[1..] == n[1..];
    }
  }

  // ---------------------------------------------------------------- lines too long for the cluster reader

  /** A line with a line end written over its two bytes at the limit of the cluster's buffer: two
      lines of the same total length. */
  function TornLine(t: bytes): bytes
    requires |t| + 3 > CLUSTER_BUF
  {
    t[..CLUSTER_BUF - 3] + CRLF + (t + CRLF)[CLUSTER_BUF - 1..]
  }

  /** The encoding with its first line that is too long torn, at whatever depth it is. */
  function Torn(r: Reply): (s: bytes)
    ensures |s| == |Encode(r)|
    decreases r
  {
    match r
    case Error(t) => if |t| + 3 > CLUSTER_BUF then [T_ERR] + TornLine(t) else Encode(r)
    case Status(t) => if |t| + 3 > CLUSTER_BUF then [T_LINE] + TornLine(t) else Encode(r)
    case Array(rs) => Line(T_MULTIBULK, Decimal(|rs|)) + TornAll(rs)
    case _ => Encode(r)
  }

  function TornAll(rs: seq<Reply>): (s: bytes)
    ensures |s| == |EncodeAll(rs)|
    decreases rs
  {
    if rs == [] then []
    else if WellFormed(rs[0], CLUSTER_BUF) then Encode(rs[0]) + TornAll(rs[1..])
    else Torn(rs[0]) + EncodeAll(rs[1..])
  }

  /** The line reader takes the first piece of either. */
  lemma GetsTorn(t: bytes, rest: bytes)
    requires LF !in t && |t| + 3 > CLUSTER_BUF
    ensures var g := Some((t[..CLUSTER_BUF - 3], (t + CRLF)[CLUSTER_BUF - 1..] + rest));
            Gets(t + CRLF + rest, CLUSTER_BUF) == g && Gets(TornLine(t) + rest, CLUSTER_BUF) == g
  {
    var s, first, tail := t + CRLF + rest, t[..CLUSTER_BUF - 3], (t + CRLF)[CLUSTER_BUF - 1..] + rest;
    assert s == (t + [CR]) + [LF] + rest;
    IndexOfFirstLF(t + [CR], rest);
    assert s[..CLUSTER_BUF - 3] == first && s[CLUSTER_BUF - 1..] == tail;
    assert TornLine(t) + rest == first + CRLF + tail;
    GetsLine(first, tail, CLUSTER_BUF);
  }

  lemma TornLineRead(kind: byte, t: bytes, rest: bytes, statusStrings: bool)
    requires (kind == T_ERR || kind == T_LINE) && LF !in t && |t| + 3 > CLUSTER_BUF
    ensures ReadNext(Line(kind, t) + rest, statusStrings) == ReadNext([kind] + TornLine(t) + rest, statusStrings)
    ensures var n := ReadNext(Line(kind, t) + rest, statusStrings);
            n.Some? && n.value.1 == (t + CRLF)[CLUSTER_BUF - 1..] + rest
  {
    hide Gets;
    GetsTorn(t, rest);
    ReadLineType(kind, t, rest);
    assert ([kind] + TornLine(t) + rest)[1..] == TornLine(t) + rest;
  }

  lemma SameUnlessTorn(r: Reply)
    ensures !r.Array? && ((r.Error? || r.Status?) ==> |r.text| + 3 <= CLUSTER_BUF) ==> Torn(r) == Encode(r)
    ensures (r.Error? || r.Status?) && |r.text| + 3 > CLUSTER_BUF ==>
              var kind := if r.Error? then T_ERR else T_LINE;
              Encode(r) == Line(kind, r.text) && Torn(r) == [kind] + TornLine(r.text)
  {
  }

  lemma {:induction false} TornNode(r: Reply, rest: bytes, statusStrings: bool)
    requires WellFormed(r, VARIANT_BUF)
    ensures ReadNext(Encode(r) + rest, statusStrings) == ReadNext(Torn(r) + rest, statusStrings)
    decreases r, 1
  {
    hide ReadNext, Encode, Torn, TornLine;
    SameUnlessTorn(r);
    if (r.Error? || r.Status?) && |r.text| + 3 > CLUSTER_BUF {
      TornLineRead(if r.Error? then T_ERR else T_LINE, r.text, rest, statusStrings);
    } else if r.Array? {
      TornStream(r.items, rest, statusStrings);
      ArrayNode(r, EncodeAll(r.items), rest, statusStrings);
      ArrayNode(r, TornAll(r.items), rest, statusStrings);
      TornArray(r);
    }
  }

  lemma TornArray(r: Reply)
    requires r.Array?
    ensures Encode(r) == Line(T_MULTIBULK, DecimalInt(|r.items|)) + EncodeAll(r.items)
    ensures Torn(r) == Line(T_MULTIBULK, DecimalInt(|r.items|)) + TornAll(r.items)
  {
  }

  /** An array's node depends on what its body reads as. */
  lemma ArrayNode(r: Reply, body: bytes, rest: bytes, statusStrings: bool)
    requires r.Array? && |r.items| <= INT_MAX
    ensures var n := |r.items|;
            var t := ReadTree(body + rest, n, statusStrings);
            ReadNext(Line(T_MULTIBULK, DecimalInt(n)) + body + rest, statusStrings)
            == if n == 0 then Some((CMulti(0, []), body + rest))
               else if t.ok then Some((CMulti(n, t.element), t.rest)) else None
  {
    hide ReadReplyType, DecimalInt;
    ReadHeader(T_MULTIBULK, |r.items|, body + rest);
    assert Line(T_MULTIBULK, DecimalInt(|r.items|)) + body + rest == Line(T_MULTIBULK, DecimalInt(|r.items|)) + (body + rest);
  }

  /** Where a line is too long for it, the cluster reader cannot tell the stream from the torn one:
      the other reader's agreement ends there, because what remains of the line is read as the next
      reply. */
  lemma {:induction false} TornStream(rs: seq<Reply>, rest: bytes, statusStrings: bool)
    requires AllWellFormed(rs, VARIANT_BUF)
    ensures ReadTree(EncodeAll(rs) + rest, |rs|, statusStrings) == ReadTree(TornAll(rs) + rest, |rs|, statusStrings)
    decreases rs, 0
  {
    hide ReadNext, Encode, Torn, WellFormed;
    if rs != [] {
      var tail := EncodeAll(rs[1..]) + rest;
      assert EncodeAll(rs) + rest == Encode(rs[0]) + tail;
      TornStream(rs[1..], rest, statusStrings);
      if WellFormed(rs[0], CLUSTER_BUF) {
        assert TornAll(rs) + rest == Encode(rs[0]) + (TornAll(rs[1..]) + rest);
        FitsRead(rs[0], tail, statusStrings);
        FitsRead(rs[0], TornAll(rs[1..]) + rest, statusStrings);
      } else {
        assert TornAll(rs) + rest == Torn(rs[0]) + tail;
        TornNode(rs[0], tail, statusStrings);
      }
    }
  }

  lemma LineDiffers(t: bytes)
    requires LF !in t && |t| + 3 > CLUSTER_BUF
    ensures TornLine(t) != t + CRLF
  {
    assert TornLine(t)[CLUSTER_BUF - 2] == LF;
    assert (t + CRLF)[CLUSTER_BUF - 2] != LF;
  }

  lemma SameFront(a: bytes, b: bytes, c: bytes, d: bytes)
    requires |a| == |b| && a + c == b + d
    ensures a == b && c == d
  {
    assert a == (a + c)[..|a|] && b == (b + d)[..|a|];
    assert c == (a + c)[|a|..] && d == (b + d)[|a|..];
  }

  lemma {:induction false} NodeDiffers(r: Reply)
    requires WellFormed(r, VARIANT_BUF) && Torn(r) == Encode(r)
    ensures WellFormed(r, CLUSTER_BUF)
    decreases r, 1
  {
    hide TornLine, Torn, Encode;
    SameUnlessTorn(r);
    if (r.Error? || r.Status?) && |r.text| + 3 > CLUSTER_BUF {
      var kind := if r.Error? then T_ERR else T_LINE;
      LineDiffers(r.text);
      assert Line(kind, r.text) == [kind] + (r.text + CRLF);
      SameFront([kind], [kind], TornLine(r.text), r.text + CRLF);
    } else if r.Array? {
      TornArray(r);
      var header := Line(T_MULTIBULK, DecimalInt(|r.items|));
      SameFront(header, header, TornAll(r.items), EncodeAll(r.items));
      TornIfLong(r.items);
    }
  }

  /** Something is torn if and only if some line is too long. */
  lemma {:induction false} TornIfLong(rs: seq<Reply>)
    requires AllWellFormed(rs, VARIANT_BUF)
    ensures TornAll(rs) == EncodeAll(rs) <==> AllWellFormed(rs, CLUSTER_BUF)
    decreases rs, 0
  {
    hide Encode, Torn, WellFormed;
    if rs != [] {
      TornIfLong(rs[1..]);
      if WellFormed(rs[0], CLUSTER_BUF) {
        if TornAll(rs) == EncodeAll(rs) {
          SameFront(Encode(rs[0]), Encode(rs[0]), TornAll(rs[1..]), EncodeAll(rs[1..]));
        }
      } else if TornAll(rs) == EncodeAll(rs) {
        SameFront(Torn(rs[0]), Encode(rs[0]), EncodeAll(rs[1..]), EncodeAll(rs[1..]));
        NodeDiffers(rs[0]);
      }
    }
  }

  lemma FitsRead(r: Reply, rest: bytes, statusStrings: bool)
    requires WellFormed(r, CLUSTER_BUF)
    ensures ReadNext(Encode(r) + rest, statusStrings) == Some((TreeOf(r, statusStrings), rest))
  {
    hide ReadReplyType, ReadNode;
    TwoPassNode(r, rest, statusStrings);
  }

  /** A status or error line that the one-pass reader still takes whole leaves the two-pass reader
      at the same place in the stream exactly when it fits the cluster buffer. */
  lemma LongLineSplits(r: Reply, rest: bytes, o: Options)
    requires (r.Status? || r.Error?) && WellFormed(r, VARIANT_BUF)
    ensures ReadMultibulk(EncodeAll([r]) + rest, 1, o).rest == rest
    ensures ReadTree(EncodeAll([r]) + rest, 1, o.statusStrings).rest == rest <==> |r.text| + 3 <= CLUSTER_BUF
  {
    OnePassExact([r], rest, o);
    assert EncodeAll([r]) == Encode(r);
    if |r.text| + 3 <= CLUSTER_BUF {
      TwoPassExact([r], rest, o.statusStrings);
    } else {
      var kind := if r.Error? then T_ERR else T_LINE;
      TornLineRead(kind, r.text, rest, o.statusStrings);
      var next := ReadNext(Line(kind, r.text) + rest, o.statusStrings).value;
      assert ReadTree(next.1, 0, o.statusStrings) == Tree(true, [], next.1);
    }
  }

  /** Any one well-formed reply is read back exactly, with the following bytes untouched. */
  lemma VariantExact(r: Reply, rest: bytes, o: Options)
    requires WellFormed(r, VARIANT_BUF)
    ensures VariantReply(Encode(r) + rest, o) == Some((ValueOf(r, o, PFalse), rest))
  {
    OnePassElement(r, rest, o);
  }
}
