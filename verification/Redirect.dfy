/** The text of addresses: node keys, seeds, and the payload of MOVED and ASK. */
module Redirect {
  import opened Bytes
  import opened SlotSpec

  const COLON: byte := 58
  const SPACE: byte := 32
  const NUL: byte := 0

  /** The C string at the front of a buffer. */
  function CText(s: bytes): bytes {
    s[..IndexOf(s, NUL)]
  }

  /** strrchr: the position of the last `b`. */
  function LastIndexOf(s: bytes, b: byte): (k: Option<nat>)
    ensures k.None? ==> b !in s
    ensures k.Some? ==> k.value < |s| && s[k.value] == b && forall i :: k.value < i < |s| ==> s[i] != b
  {
    if s == [] then None
    else if s[|s| - 1] == b then Some(|s| - 1)
    else LastIndexOf(s[..|s| - 1], b)
  }

  /** Truncation to an unsigned short. */
  function Short(i: int): (p: nat)
    ensures p < 0x1_0000
    ensures 0 <= i < 0x1_0000 ==> p == i
  {
    i % 0x1_0000
  }

  /** An address spelled host:port. The last colon separates, so that a host may contain colons. */
  function ReadAddr(s: bytes): Option<Addr> {
    match LastIndexOf(s, COLON)
    case None => None
    case Some(c) => Some(Addr(s[..c], Short(Atol(s[c + 1..]))))
  }

  /** The key of a node in the table of nodes. */
  function NodeKey(a: Addr): bytes {
    a.host + [COLON] + Decimal(a.port)
  }

  /** The longest host that the buffer of a redirection holds; a longer one is cut. */
  const MAX_HOST: nat := 254

  function Cut(a: Addr): (c: Addr)
    ensures |a.host| <= MAX_HOST <==> c == a
  {
    if |a.host| <= MAX_HOST then a else Addr(a.host[..MAX_HOST], a.port)
  }

  /** What follows `MOVED ` or `ASK `: a slot and an address. */
  function ReadRedirection(msg: bytes): Option<(nat, Addr)> {
    var t := CText(msg);
    var sp := IndexOf(t, SPACE);
    if sp == |t| then None
    else
      match ReadAddr(t[sp + 1..])
      case None => None
      case Some(a) => Some((Short(Atol(t[..sp])), Cut(a)))
  }

  lemma LastIndexOfUnique(s: bytes, b: byte, k: nat)
    requires k < |s| && s[k] == b && b !in s[k + 1..]
    ensures LastIndexOf(s, b) == Some(k)
  {
    assert forall i :: k < i < |s| ==> s[i] in s[k + 1..];
  }

  lemma DigitsAre(n: nat, b: byte)
    requires !IsDigit(b)
    ensures b !in Decimal(n)
  {
    DecimalDigits(n);
  }

  lemma NoDigits()
    ensures !IsDigit(COLON) && COLON !in CRLF && !IsDigit(CRLF[0])
  {
  }

  /** Reading a printed address gives the address, whatever its host contains. */
  lemma ReadAddrInverse(a: Addr, tail: bytes)
    requires a.port < 0x1_0000 && COLON !in tail && (tail == [] || !IsDigit(tail[0]))
    ensures ReadAddr(NodeKey(a) + tail) == Some(a)
  {
    hide Atol, Decimal, IsDigit;
    NoDigits();
    var s := NodeKey(a) + tail;
    var k := |a.host|;
    DigitsAre(a.port, COLON);
    assert s[..k] == a.host && s[k] == COLON && s[k + 1..] == Decimal(a.port) + tail;
    LastIndexOfUnique(s, COLON, k);
    AtolNatural(a.port, tail);
  }

  /** Two addresses never share a node key, so that a table keyed by addresses is faithful. */
  lemma NodeKeyInjective(a: Addr, b: Addr)
    requires a.port < 0x1_0000 && b.port < 0x1_0000 && NodeKey(a) == NodeKey(b)
    ensures a == b
  {
    ReadAddrInverse(a, []);
    ReadAddrInverse(b, []);
    assert NodeKey(a) + [] == NodeKey(a) && NodeKey(b) + [] == NodeKey(b);
  }

  lemma NoNul(slot: nat, a: Addr)
    requires NUL !in a.host
    ensures NUL !in Decimal(slot) + [SPACE] + NodeKey(a) + CRLF
  {
    DigitsAre(slot, NUL);
    DigitsAre(a.port, NUL);
  }

  lemma SplitAtSpace(slot: nat, rest: bytes)
    ensures var t := Decimal(slot) + [SPACE] + rest;
            var sp := IndexOf(t, SPACE);
            sp < |t| && t[..sp] == Decimal(slot) && t[sp + 1..] == rest
  {
    var t := Decimal(slot) + [SPACE] + rest;
    DigitsAre(slot, SPACE);
    assert t[..|Decimal(slot)|] == Decimal(slot);
    IndexOfUnique(t, SPACE, |Decimal(slot)|);
  }

  /** The line `<slot> <host>:<port>` is read back, exactly if the host is short enough. */
  lemma {:induction false} ReadRedirectionInverse(slot: nat, a: Addr)
    requires slot < 0x1_0000 && a.port < 0x1_0000 && NUL !in a.host
    ensures ReadRedirection(Decimal(slot) + [SPACE] + NodeKey(a) + CRLF) == Some((slot, Cut(a)))
  {
    hide Atol, Decimal, IsDigit, IndexOf, NodeKey, ReadAddr;
    NoDigits();
    var rest := NodeKey(a) + CRLF;
    var msg := Decimal(slot) + [SPACE] + NodeKey(a) + CRLF;
    assert msg == Decimal(slot) + [SPACE] + rest;
    NoNul(slot, a);
    IndexOfUnique(msg, NUL, |msg|);
    assert CText(msg) == msg;
    SplitAtSpace(slot, rest);
    ReadAddrInverse(a, CRLF);
    AtolNatural(slot, []);
    assert Decimal(slot) + [] == Decimal(slot);
  }
}
