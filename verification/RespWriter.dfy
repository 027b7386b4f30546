/** Building commands: the keyword and argument writers and the format-driven builder. */
module RespWriter {
  import opened Bytes
  import opened Resp
  import opened RespTheorems
  import HashSlot

  // ---------------------------------------------------------------- specification

  /** An argument of redis_spprintf. A value arrives already packed and a double already printed,
      since serializers and floating point formatting are not modelled. */
  datatype Arg =
    | Text(s: bytes)
    | Key(k: bytes)
    | Packed(v: bytes)
    | Double(printed: bytes)
    | Number(i: int)

  const SPEC_s: byte := 115
  const SPEC_S: byte := 83
  const SPEC_k: byte := 107
  const SPEC_v: byte := 118
  const SPEC_f: byte := 102
  const SPEC_F: byte := 70
  const SPEC_i: byte := 105
  const SPEC_d: byte := 100
  const SPEC_l: byte := 108
  const SPEC_L: byte := 76

  predicate Known(spec: byte) {
    spec == SPEC_s || spec == SPEC_S || spec == SPEC_k || spec == SPEC_v || spec == SPEC_f
    || spec == SPEC_F || spec == SPEC_i || spec == SPEC_d || spec == SPEC_l || spec == SPEC_L
  }

  /** The argument has the type that the specifier takes off the argument list. */
  predicate Fits(spec: byte, a: Arg) {
    && (spec == SPEC_s || spec == SPEC_S ==> a.Text?)
    && (spec == SPEC_k ==> a.Key?)
    && (spec == SPEC_v ==> a.Packed?)
    && (spec == SPEC_f || spec == SPEC_F ==> a.Double?)
    && (spec == SPEC_i || spec == SPEC_d || spec == SPEC_l || spec == SPEC_L ==> a.Number?)
  }

  /** The caller's side of the varargs contract: one argument of the right type per known
      specifier, in order. Unknown specifiers take none. */
  predicate ArgsFit(fmt: bytes, args: seq<Arg>) {
    if fmt == [] then args == []
    else if Known(fmt[0]) then args != [] && Fits(fmt[0], args[0]) && ArgsFit(fmt[1..], args[1..])
    else ArgsFit(fmt[1..], args)
  }

  /** A locale's decimal comma becomes a point. */
  function PointForComma(s: bytes): bytes {
    var k := IndexOf(s, 44);
    if k == |s| then s else s[k := 46]
  }

  /** The bytes that an argument puts on the wire. */
  function Rendered(prefix: Option<bytes>, a: Arg): bytes {
    match a
    case Text(s) => s
    case Key(k) => HashSlot.PrefixKey(prefix, k)
    case Packed(v) => v
    case Double(s) => PointForComma(s)
    case Number(i) => DecimalInt(i)
  }

  function RenderAll(prefix: Option<bytes>, args: seq<Arg>): (r: seq<bytes>)
    ensures |r| == |args|
  {
    if args == [] then [] else [Rendered(prefix, args[0])] + RenderAll(prefix, args[1..])
  }

  function Bulks(parts: seq<bytes>): (rs: seq<Reply>)
    ensures |rs| == |parts|
  {
    if parts == [] then [] else [Bulk(parts[0])] + Bulks(parts[1..])
  }

  function Strings(parts: seq<bytes>): (vs: seq<PhpValue>)
    ensures |vs| == |parts|
  {
    if parts == [] then [] else [PString(parts[0])] + Strings(parts[1..])
  }

  /** The wire form of a command whose header announces `numArgs` arguments. */
  function Command(numArgs: nat, keyword: bytes, args: seq<bytes>): bytes {
    Line(T_MULTIBULK, Decimal(numArgs + 1)) + EncodeAll(Bulks([keyword] + args))
  }

  /** The slot of the last key among the arguments. */
  function SlotOf(prefix: Option<bytes>, args: seq<Arg>, before: Option<bv16>): Option<bv16> {
    if args == [] then before
    else SlotOf(prefix, args[1..],
                if args[0].Key? then Some(HashSlot.Slot(HashSlot.PrefixKey(prefix, args[0].k))) else before)
  }

  // ---------------------------------------------------------------- the writers

  class SmartString {
    var c: bytes

    constructor ()
      ensures c == []
    {
      c := [];
    }

    /** redis_cmd_init_sstr. */
    method InitCommand(numArgs: nat, keyword: bytes)
      modifies this
      ensures c == old(c) + Command(numArgs, keyword, [])
    {
      ghost var before := c;
      c := c + [T_MULTIBULK];
      c := c + Decimal(numArgs + 1);
      c := c + CRLF;
      CommandOfNone(numArgs, keyword);
      assert c == before + Line(T_MULTIBULK, Decimal(numArgs + 1));
      AppendArg(keyword);
    }

    /** redis_cmd_append_sstr. */
    method AppendArg(arg: bytes)
      modifies this
      ensures c == old(c) + Encode(Bulk(arg))
    {
      c := c + [T_BULK];
      c := c + Decimal(|arg|);
      c := c + CRLF;
      c := c + arg;
      c := c + CRLF;
    }

    /** redis_spprintf. */
    method Format(prefix: Option<bytes>, keyword: bytes, fmt: bytes, args: seq<Arg>) returns (slot: Option<bv16>)
      requires c == [] && ArgsFit(fmt, args)
      modifies this
      ensures c == Command(|fmt|, keyword, RenderAll(prefix, args))
      ensures slot == SlotOf(prefix, args, None)
    {
      hide Command, Encode, EncodeAll, Decimal;
      InitCommand(|fmt|, keyword);
      slot := None;
      var f, a := fmt, args;
      ghost var done: seq<bytes> := [];
      while f != []
        invariant ArgsFit(f, a)
        invariant c == Command(|fmt|, keyword, done)
        invariant done + RenderAll(prefix, a) == RenderAll(prefix, args)
        invariant SlotOf(prefix, a, slot) == SlotOf(prefix, args, None)
        decreases |f|
      {
        if Known(f[0]) {
          var r := Rendered(prefix, a[0]);
          if f[0] == SPEC_k {
            var s := HashSlot.HashKey(r);
            slot := Some(s);
          }
          CommandAppend(|fmt|, keyword, done, r);
          AppendArg(r);
          done, a := done + [r], a[1..];
        }
        f := f[1..];
      }
      assert done + [] == done;
    }
  }

  lemma {:induction false} BulksConcat(parts: seq<bytes>, b: bytes)
    ensures EncodeAll(Bulks(parts + [b])) == EncodeAll(Bulks(parts)) + Encode(Bulk(b))
  {
    if parts == [] {
      assert [b][1..] == [];
    } else {
      assert (parts + [b])[1..] == parts[1..] + [b];
      BulksConcat(parts[1..], b);
    }
  }

  lemma CommandOfNone(numArgs: nat, keyword: bytes)
    ensures Command(numArgs, keyword, []) == Line(T_MULTIBULK, Decimal(numArgs + 1)) + Encode(Bulk(keyword))
  {
    BulksConcat([], keyword);
    assert [keyword] + [] == [] + [keyword];
  }

  lemma CommandAppend(numArgs: nat, keyword: bytes, args: seq<bytes>, b: bytes)
    ensures Command(numArgs, keyword, args + [b]) == Command(numArgs, keyword, args) + Encode(Bulk(b))
  {
    assert [keyword] + (args + [b]) == ([keyword] + args) + [b];
    BulksConcat([keyword] + args, b);
  }

  // ---------------------------------------------------------------- round trips

  /** Lengths that fit the C types. */
  predicate Fitting(parts: seq<bytes>) {
    |parts| <= INT_MAX && forall i :: 0 <= i < |parts| ==> |parts[i]| + 2 <= INT_MAX
  }

  lemma {:induction false} BulksValues(parts: seq<bytes>, o: Options)
    requires forall i :: 0 <= i < |parts| ==> |parts[i]| + 2 <= INT_MAX
    ensures AllWellFormed(Bulks(parts), VARIANT_BUF)
    ensures ValuesOf(Bulks(parts), o, PFalse) == Strings(parts)
  {
    if parts != [] {
      BulksValues(parts[1..], o);
      assert Bulks(parts)[1..] == Bulks(parts[1..]);
    }
  }

  /** A written command reads back as its keyword and arguments, byte for byte, and whatever
      follows it stays unread. */
  lemma {:induction false} CommandRoundTrip(keyword: bytes, args: seq<bytes>, rest: bytes, o: Options)
    requires Fitting([keyword] + args)
    ensures VariantReply(Command(|args|, keyword, args) + rest, o)
            == Some((PArray(Strings([keyword] + args)), rest))
  {
    var parts := [keyword] + args;
    BulksValues(parts, o);
    VariantExact(Array(Bulks(parts)), rest, o);
  }

  predicate AllKnown(fmt: bytes) {
    forall i :: 0 <= i < |fmt| ==> Known(fmt[i])
  }

  /** The header of a formatted command counts its arguments exactly when every specifier of the
      format is a known one; otherwise it announces more than are sent. */
  lemma {:induction false} HeaderCount(fmt: bytes, args: seq<Arg>)
    requires ArgsFit(fmt, args)
    ensures |args| <= |fmt|
    ensures |args| == |fmt| <==> AllKnown(fmt)
  {
    if fmt != [] {
      HeaderCount(fmt[1..], if Known(fmt[0]) then args[1..] else args);
      assert fmt == [fmt[0]] + fmt[1..];
      assert AllKnown(fmt) <==> Known(fmt[0]) && AllKnown(fmt[1..]);
    }
  }

  /** A reader that gets just the formatted command reads the announced number and all the
      arguments, and lacks nothing exactly when every specifier is known. */
  lemma {:induction false} FormatDecodes(prefix: Option<bytes>, keyword: bytes, fmt: bytes, args: seq<Arg>, o: Options)
    requires ArgsFit(fmt, args)
    requires |fmt| < INT_MAX && Fitting([keyword] + RenderAll(prefix, args))
    ensures var parts := [keyword] + RenderAll(prefix, args);
            var body := EncodeAll(Bulks(parts));
            && ReadReplyType(Command(|fmt|, keyword, RenderAll(prefix, args))) == Some((T_MULTIBULK, |fmt| + 1, body))
            && ReadMultibulk(body, |fmt| + 1, o) == Decoded(AllKnown(fmt), Strings(parts), [])
  {
    var parts := [keyword] + RenderAll(prefix, args);
    HeaderCount(fmt, args);
    ReadHeader(T_MULTIBULK, |fmt| + 1, EncodeAll(Bulks(parts)));
    BulksValues(parts, o);
    OnePassShort(Bulks(parts), |fmt| - |args|, o);
  }
}
