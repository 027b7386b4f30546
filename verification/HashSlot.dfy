/** From a key to its cluster slot: the hash tag rule and the optional key prefix. */
module HashSlot {
  import opened Bytes
  import Crc16

  const OPEN: byte := 123
  const CLOSE: byte := 125

  /** The bytes of a key that are hashed. */
  function HashedPart(key: bytes): bytes {
    var s := IndexOf(key, OPEN);
    if s == |key| then key
    else
      var e := s + 1 + IndexOf(key[s + 1..], CLOSE);
      if e == |key| || e == s + 1 then key else key[s + 1..e]
  }

  function Mask(crc: bv16): (slot: bv16)
    ensures slot < 0x4000
  {
    crc & 0x3FFF
  }

  /** The slot of a key, one of 16384. */
  function Slot(key: bytes): bv16 {
    Mask(Crc16.Crc(HashedPart(key)))
  }

  /** The hashed part, once both brace positions are known. */
  lemma HashedPartAt(key: bytes, s: nat, e: nat)
    requires s < e <= |key| && OPEN !in key[..s] && key[s] == OPEN
    requires CLOSE !in key[s + 1..e] && (e < |key| ==> key[e] == CLOSE)
    ensures HashedPart(key) == if e == |key| || e == s + 1 then key else key[s + 1..e]
  {
    var rest := key[s + 1..];
    assert rest[..e - s - 1] == key[s + 1..e];
    IndexOfUnique(key, OPEN, s);
    IndexOfUnique(rest, CLOSE, e - s - 1);
  }

  lemma NoTagOpened(key: bytes)
    requires OPEN !in key
    ensures HashedPart(key) == key
  {
  }

  /** cluster_hash_key. */
  method HashKey(key: bytes) returns (slot: bv16)
    ensures slot == Slot(key)
    ensures slot < 0x4000
  {
    var len := |key|;
    var s := 0;
    while s < len && key[s] != OPEN
      invariant s <= len && OPEN !in key[..s]
    {
      s := s + 1;
    }
    if s == len {
      NoTagOpened(key);
      slot := Crc16.Checksum(key);
      return Mask(slot);
    }
    var e := s + 1;
    while e < len && key[e] != CLOSE
      invariant s < e <= len && CLOSE !in key[s + 1..e]
    {
      e := e + 1;
    }
    HashedPartAt(key, s, e);
    if e == len || e == s + 1 {
      slot := Crc16.Checksum(key);
      return Mask(slot);
    }
    slot := Crc16.Checksum(key[s + 1..e]);
    return Mask(slot);
  }

  /** redis_key_prefix: the configured prefix, if any, goes in front of the key. */
  function PrefixKey(prefix: Option<bytes>, key: bytes): bytes {
    if prefix.None? then key else prefix.value + key
  }

  // ---------------------------------------------------------------- hash tags

  /** The key is p{t}q with no opening brace in p, and a non-empty t without a closing brace. */
  predicate IsTagged(key: bytes, p: bytes, t: bytes, q: bytes) {
    key == p + [OPEN] + t + [CLOSE] + q && OPEN !in p && t != [] && CLOSE !in t
  }

  /** Only the tag of a tagged key is hashed. */
  lemma TagIsHashed(key: bytes, p: bytes, t: bytes, q: bytes)
    requires IsTagged(key, p, t, q)
    ensures HashedPart(key) == t
  {
    TagPositions(key, p, t, q);
    HashedPartAt(key, |p|, |p| + 1 + |t|);
  }

  lemma TagPositions(key: bytes, p: bytes, t: bytes, q: bytes)
    requires key == p + [OPEN] + t + [CLOSE] + q
    ensures var s, e := |p|, |p| + 1 + |t|;
            && e < |key| && key[..s] == p && key[s] == OPEN
            && key[s + 1..e] == t && key[e] == CLOSE && key[e + 1..] == q
  {
  }

  /** A key that is not of the form p{t}q is hashed whole; a key of that form has its t hashed. */
  lemma TaggedOrWhole(key: bytes)
    ensures (exists p, t, q :: IsTagged(key, p, t, q) && HashedPart(key) == t)
            || (HashedPart(key) == key && forall p, t, q :: !IsTagged(key, p, t, q))
  {
    if p, t, q :| IsTagged(key, p, t, q) {
      TagIsHashed(key, p, t, q);
    } else if HashedPart(key) != key {
      var p, t, q := TagOf(key);
    }
  }

  lemma TagOf(key: bytes) returns (p: bytes, t: bytes, q: bytes)
    requires HashedPart(key) != key
    ensures IsTagged(key, p, t, q)
  {
    var s := IndexOf(key, OPEN);
    var e := s + 1 + IndexOf(key[s + 1..], CLOSE);
    SplitAt(key, s, e);
    p, t, q := key[..s], key[s + 1..e], key[e + 1..];
  }

  lemma SplitAt(key: bytes, s: nat, e: nat)
    requires s < e < |key| && key[s] == OPEN
    requires e == s + 1 + IndexOf(key[s + 1..], CLOSE)
    ensures key == key[..s] + [OPEN] + key[s + 1..e] + [CLOSE] + key[e + 1..]
    ensures CLOSE !in key[s + 1..e]
  {
    assert key[s + 1..][..e - s - 1] == key[s + 1..e];
  }

  /** Keys that share a tag share a slot, whatever surrounds the tag. */
  lemma SameTagSameSlot(k1: bytes, k2: bytes, p1: bytes, p2: bytes, t: bytes, q1: bytes, q2: bytes)
    requires IsTagged(k1, p1, t, q1) && IsTagged(k2, p2, t, q2)
    ensures Slot(k1) == Slot(k2) == Mask(Crc16.Crc(t))
  {
    TagIsHashed(k1, p1, t, q1);
    TagIsHashed(k2, p2, t, q2);
  }

  /** A prefix without an opening brace never moves a tagged key to another slot. */
  lemma PrefixKeepsTag(prefix: bytes, key: bytes, p: bytes, t: bytes, q: bytes)
    requires OPEN !in prefix && IsTagged(key, p, t, q)
    ensures Slot(PrefixKey(Some(prefix), key)) == Slot(key)
  {
    assert prefix + key == (prefix + p) + [OPEN] + t + [CLOSE] + q;
    TagIsHashed(prefix + key, prefix + p, t, q);
    TagIsHashed(key, p, t, q);
  }

  /** A prefix that holds a tag of its own sends every key to the slot of that tag. */
  lemma TaggedPrefixCollects(prefix: bytes, key: bytes, p: bytes, t: bytes, q: bytes)
    requires IsTagged(prefix, p, t, q)
    ensures Slot(PrefixKey(Some(prefix), key)) == Slot(prefix)
  {
    assert prefix + key == p + [OPEN] + t + [CLOSE] + (q + key);
    TagIsHashed(prefix + key, p, t, q + key);
    TagIsHashed(prefix, p, t, q);
  }
}
