/** The reading loops of library.c and cluster_library.c over the socket's unread bytes. */
module RespReader {
  import opened Bytes
  import opened Resp

  /** `whole` is the result once the values in `done` are followed by what `d` still reads. */
  ghost predicate Continues(whole: Decoded, done: seq<PhpValue>, d: Decoded) {
    whole == Decoded(d.ok, done + d.values, d.rest)
  }

  lemma ContinuesBy(whole: Decoded, done: seq<PhpValue>, s: bytes, elements: int, o: Options)
    requires elements > 0 && ReadReplyType(s).Some?
    requires Continues(whole, done, ReadMultibulk(s, elements, o))
    ensures var (kind, info, s1) := ReadReplyType(s).value;
            var (v, s2) := ReadElement(kind, info, s1, o);
            Continues(whole, done + v, ReadMultibulk(s2, elements - 1, o))
  {
    var (kind, info, s1) := ReadReplyType(s).value;
    var (v, s2) := ReadElement(kind, info, s1, o);
    var d := ReadMultibulk(s2, elements - 1, o);
    assert done + (v + d.values) == done + v + d.values;
  }

  ghost predicate TreeContinues(whole: Tree, built: seq<ClusterReply>, t: Tree) {
    whole.ok == t.ok && (t.ok ==> whole == Tree(true, built + t.element, t.rest))
  }

  lemma TreeContinuesBy(whole: Tree, built: seq<ClusterReply>, s: bytes, elements: nat, statusStrings: bool)
    requires elements > 0 && TreeContinues(whole, built, ReadTree(s, elements, statusStrings))
    ensures match ReadNext(s, statusStrings)
            case None => !whole.ok
            case Some((node, rest)) =>
              TreeContinues(whole, built + [node], ReadTree(rest, elements - 1, statusStrings))
  {
    var r := ReadNext(s, statusStrings);
    if r.Some? {
      var (node, rest) := r.value;
      var t := ReadTree(rest, elements - 1, statusStrings);
      assert built + ([node] + t.element) == built + [node] + t.element;
    }
  }

  lemma TreeStart(s: bytes, elements: nat, statusStrings: bool)
    ensures TreeContinues(ReadTree(s, elements, statusStrings), [], ReadTree(s, elements, statusStrings))
  {
    var t := ReadTree(s, elements, statusStrings);
    assert [] + t.element == t.element;
  }

  lemma TreeDone(whole: Tree, built: seq<ClusterReply>, s: bytes, statusStrings: bool)
    requires TreeContinues(whole, built, ReadTree(s, 0, statusStrings))
    ensures whole == Tree(true, built, s)
  {
    assert built + [] == built;
  }

  class Stream {
    var input: bytes

    constructor (data: bytes)
      ensures input == data
    {
      input := data;
    }

    /** redis_sock_gets. */
    method GetLine(buf: nat) returns (line: Option<bytes>)
      requires buf > 1
      modifies this
      ensures Gets(old(input), buf).None? ==> line == None && input == []
      ensures Gets(old(input), buf).Some? ==>
                line == Some(Gets(old(input), buf).value.0) && input == Gets(old(input), buf).value.1
    {
      if input == [] {
        return None;
      }
      var n := LineLength(input, buf);
      if n < 2 {
        input := [];
        return None;
      }
      line := Some(input[..n - 2]);
      input := input[n..];
    }

    /** redis_read_reply_type. */
    method ReplyType() returns (r: Option<(byte, int)>)
      modifies this
      ensures ReadReplyType(old(input)).None? ==> r == None && input == []
      ensures ReadReplyType(old(input)).Some? ==>
                var (kind, info, rest) := ReadReplyType(old(input)).value;
                r == Some((kind, info)) && input == rest
    {
      if input == [] {
        return None;
      }
      var kind := input[0];
      input := input[1..];
      if kind == T_INT || kind == T_BULK || kind == T_MULTIBULK {
        if input == [] {
          return None;
        }
        var n := LineLength(input, HEADER_BUF);
        r := Some((kind, Atol(input[..n])));
        input := input[n..];
      } else {
        r := Some((kind, 0));
      }
    }

    /** redis_sock_read_bulk_reply: keeps reading until it has n + 2 bytes, however few each
        read delivers. The result does not depend on how the bytes are cut up. */
    method BulkReply(n: int) returns (r: Option<bytes>)
      modifies this
      ensures (r, input) == ReadBulk(old(input), n)
    {
      if n < 0 || input == [] {
        return None;
      }
      var nbytes := n + 2;
      var reply: bytes := [];
      while |reply| < nbytes && input != []
        invariant reply + input == old(input)
        invariant |reply| <= nbytes
        decreases |input|
      {
        var got: nat :| 0 < got <= |input| && got <= nbytes - |reply|;
        assert reply + input[..got] + input[got..] == old(input);
        reply, input := reply + input[..got], input[got..];
      }
      if |reply| < nbytes {
        return None;
      }
      assert old(input)[..nbytes] == reply && old(input)[nbytes..] == input;
      assert reply[..n] == old(input)[..n];
      return Some(reply[..n]);
    }

    /** The element switch of redis_read_multibulk_recursive. */
    method Element(kind: byte, info: int, o: Options) returns (v: seq<PhpValue>)
      modifies this
      ensures (v, input) == ReadElement(kind, info, old(input), o)
      ensures |input| <= |old(input)|
      decreases |input|, 2
    {
      if kind == T_ERR || kind == T_LINE {
        var line := GetLine(VARIANT_BUF);
        if line == None {
          return [PUndef];
        }
        return [if kind == T_ERR then PFalse else if o.statusStrings then PString(line.value) else PTrue];
      } else if kind == T_INT {
        return [PLong(info)];
      } else if kind == T_BULK {
        var b := BulkReply(ToInt(info));
        return [if b.Some? then PString(b.value) else PFalse];
      } else if kind == T_MULTIBULK {
        if info < 0 && o.nullArray {
          return [PNull];
        }
        var sub: seq<PhpValue> := [];
        if info > 0 {
          var ok;
          ok, sub := MultibulkRecursive(info, o);
        }
        return [PArray(sub)];
      }
      return [];
    }

    /** redis_read_multibulk_recursive. */
    method MultibulkRecursive(elements: int, o: Options) returns (ok: bool, values: seq<PhpValue>)
      modifies this
      ensures Decoded(ok, values, input) == ReadMultibulk(old(input), elements, o)
      ensures |input| <= |old(input)|
      decreases |input|, 1
    {
      values := [];
      ghost var whole := ReadMultibulk(input, elements, o);
      var left := elements;
      while left > 0
        invariant |input| <= |old(input)|
        invariant left < elements ==> |input| < |old(input)|
        invariant left <= elements
        invariant Continues(whole, values, ReadMultibulk(input, left, o))
      {
        ghost var s := input;
        var header := ReplyType();
        if header == None {
          return false, values;
        }
        ContinuesBy(whole, values, s, left, o);
        var v := Element(header.value.0, header.value.1, o);
        values := values + v;
        left := left - 1;
      }
      ok := true;
    }

    /** variant_reply_generic, up to where the value is stored. */
    method Variant(o: Options) returns (r: Option<PhpValue>)
      modifies this
      ensures VariantReply(old(input), o).Some? <==> r.Some?
      ensures r.Some? ==> (r.value, input) == VariantReply(old(input), o).value
    {
      var header := ReplyType();
      if header == None {
        return None;
      }
      var v := Element(header.value.0, header.value.1, o);
      return if v == [] then None else Some(v[0]);
    }

    /** cluster_multibulk_resp_recursive: one node of the reply tree. */
    method Node(statusStrings: bool) returns (r: Option<ClusterReply>)
      modifies this
      ensures r.None? <==> ReadNext(old(input), statusStrings).None?
      ensures r.Some? ==> ReadNext(old(input), statusStrings) == Some((r.value, input))
      ensures |input| <= |old(input)| && (r.Some? ==> |input| < |old(input)|)
      decreases |input|, 0
    {
      var header := ReplyType();
      if header == None {
        return None;
      }
      var (kind, info) := header.value;
      if kind == T_ERR || kind == T_LINE {
        var line := GetLine(CLUSTER_BUF);
        if line == None {
          return None;
        }
        return Some(if kind == T_ERR then CError else CLine(if statusStrings then line else None));
      } else if kind == T_INT {
        return Some(CInt(ToSizeT(info)));
      } else if kind == T_BULK {
        if info < 0 {
          return Some(CBulk(info, None));
        }
        var b := BulkReply(ToInt(info));
        return if b.None? then None else Some(CBulk(info, b));
      } else if kind == T_MULTIBULK {
        if info <= 0 {
          return Some(CMulti(info, []));
        }
        var ok, sub := TreeRecursive(info, statusStrings);
        return if ok then Some(CMulti(info, sub)) else None;
      }
      return None;
    }

    /** cluster_multibulk_resp_recursive: the loop over the elements. */
    method TreeRecursive(elements: nat, statusStrings: bool) returns (ok: bool, element: seq<ClusterReply>)
      modifies this
      ensures ok == ReadTree(old(input), elements, statusStrings).ok
      ensures ok ==> Tree(ok, element, input) == ReadTree(old(input), elements, statusStrings)
      ensures |input| <= |old(input)|
      decreases |input|, 1
    {
      hide ReadTree, ReadNext, TreeContinues;
      TreeStart(input, elements, statusStrings);
      element := [];
      ghost var whole := ReadTree(input, elements, statusStrings);
      var i := 0;
      while i < elements
        invariant i <= elements
        invariant |input| <= |old(input)|
        invariant TreeContinues(whole, element, ReadTree(input, elements - i, statusStrings))
      {
        ghost var s := input;
        var node := Node(statusStrings);
        TreeContinuesBy(whole, element, s, elements - i, statusStrings);
        if node == None {
          ok := false;
          return;
        }
        element := element + [node.value];
        i := i + 1;
      }
      TreeDone(whole, element, input, statusStrings);
      ok := true;
    }
  }
}
