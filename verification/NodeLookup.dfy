/** From the hash of a key to the position of its node in a RedisArray. */
module NodeLookup {
  import opened Bytes

  /** A point of the ring of hash values, and the node it belongs to. */
  datatype Point = Point(value: nat, index: nat)

  ghost predicate Sorted(points: seq<Point>) {
    forall i, j :: 0 <= i < j < |points| ==> points[i].value <= points[j].value
  }

  /** The first point that is not before the hash, or the very first one. */
  function Owner(points: seq<Point>, hash: nat): nat
    requires points != []
  {
    var k := FirstFrom(points, hash);
    points[if k == |points| then 0 else k].index
  }

  function FirstFrom(points: seq<Point>, hash: nat): (k: nat)
    ensures k <= |points|
    ensures forall i :: 0 <= i < k ==> points[i].value < hash
    ensures k < |points| ==> points[k].value >= hash
  {
    if points == [] || points[0].value >= hash then 0 else 1 + FirstFrom(points[1..], hash)
  }

  /** The binary search of ra_find_node. */
  method FindPosition(points: seq<Point>, hash: nat) returns (pos: nat)
    requires points != [] && Sorted(points)
    ensures pos == Owner(points, hash)
  {
    var left, right := 0, |points|;
    while left < right
      invariant 0 <= left <= right <= |points|
      invariant forall i :: 0 <= i < left ==> points[i].value < hash
      invariant forall i :: right <= i < |points| ==> points[i].value >= hash
    {
      var i := (left + right) / 2;
      if points[i].value < hash {
        left := i + 1;
      } else {
        right := i;
      }
    }
    if right == |points| {
      right := 0;
    }
    pos := points[right].index;
  }

  /** The ring without a node's points. */
  function Without(points: seq<Point>, index: nat): seq<Point> {
    if points == [] then []
    else if points[0].index == index then Without(points[1..], index)
    else [points[0]] + Without(points[1..], index)
  }

  /** Taking a node out of the ring moves only that node's keys. */
  lemma RemovalIsLocal(points: seq<Point>, index: nat, hash: nat)
    requires points != [] && Owner(points, hash) != index
    ensures Without(points, index) != [] && Owner(Without(points, index), hash) == Owner(points, hash)
  {
    FirstWithout(points, index, hash);
    var k := FirstFrom(points, hash);
    if k == |points| {
      NoneWithout(points, index, hash);
    }
  }

  lemma {:induction false} FirstWithout(points: seq<Point>, index: nat, hash: nat)
    ensures var k := FirstFrom(points, hash);
            var w := Without(points, index);
            k < |points| && points[k].index != index ==>
              FirstFrom(w, hash) < |w| && w[FirstFrom(w, hash)] == points[k]
  {
    if points != [] {
      FirstWithout(points[1..], index, hash);
    }
  }

  lemma {:induction false} NoneWithout(points: seq<Point>, index: nat, hash: nat)
    requires FirstFrom(points, hash) == |points|
    ensures FirstFrom(Without(points, index), hash) == |Without(points, index)|
  {
    if points != [] {
      NoneWithout(points[1..], index, hash);
    }
  }

  const ALL_ONES: nat := 0xffff_ffff

  /** Without a ring: the complement of a 32-bit hash, scaled to the number of nodes. */
  function Scaled(hash: nat, count: nat): nat
    requires hash <= ALL_ONES
  {
    (ALL_ONES - hash) * count / ALL_ONES
  }

  /** The scaled position is that of a node exactly if the hash is not zero. */
  lemma ScaledInRange(hash: nat, count: nat)
    requires hash <= ALL_ONES && count > 0
    ensures Scaled(hash, count) < count <==> hash != 0
  {
    if hash == 0 {
      assert Scaled(hash, count) == count;
    } else {
      assert (ALL_ONES - hash) * count <= (ALL_ONES - 1) * count < ALL_ONES * count;
    }
  }

  // ---------------------------------------------------------------- keys with hash zero

  /** The table of PHP's CRC32 macro, of which only this is used: an entry has a zero top byte
      exactly if its index is 0, and that entry is 0. */
  ghost predicate IsCrcTable(table: bv32 -> bv32) {
    table(0) == 0 && forall i :: 0 < i <= 0xff ==> table(i) >> 24 != 0
  }

  /** The CRC32 macro. */
  function CrcStep(table: bv32 -> bv32, crc: bv32, b: byte): bv32 {
    (crc >> 8) ^ table((crc ^ (b as bv32)) & 0xff)
  }

  function Crc(table: bv32 -> bv32, key: seq<byte>): bv32 {
    if key == [] then 0xffff_ffff
    else CrcStep(table, Crc(table, key[..|key| - 1]), key[|key| - 1])
  }

  /** The hashing loop of ra_find_node. */
  method Hash(table: bv32 -> bv32, key: seq<byte>) returns (ret: bv32)
    ensures ret == Crc(table, key)
  {
    ret := 0xffff_ffff;
    for i := 0 to |key|
      invariant ret == Crc(table, key[..i])
    {
      assert key[..i + 1][..i] == key[..i];
      ret := CrcStep(table, ret, key[i]);
    }
    assert key[..|key|] == key;
  }

  /** A step shifts the register out byte by byte, as long as the bytes match its low end. */
  lemma StepShifts(table: bv32 -> bv32, crc: bv32, b: byte)
    requires IsCrcTable(table)
    ensures var r := CrcStep(table, crc, b);
            var low := crc & 0xff == b as bv32;
            && (low ==> r == crc >> 8)
            && (r <= 0xff_ffff ==> low)
  {
    var i := (crc ^ (b as bv32)) & 0xff;
    assert i <= 0xff;
    if i == 0 {
      assert crc & 0xff == b as bv32;
    } else {
      assert table(i) >> 24 != 0;
      TopByte(crc, table(i));
    }
  }

  lemma TopByte(crc: bv32, entry: bv32)
    requires entry >> 24 != 0
    ensures (crc >> 8) ^ entry > 0xff_ffff
  {
  }

  /** The bytes are those of the register, the lowest first, and there is nothing above them. */
  predicate Spells(r: bv32, bytes: seq<byte>) {
    if bytes == [] then r == 0
    else r & 0xff == bytes[0] as bv32 && Spells(r >> 8, bytes[1..])
  }

  /** How the register after a byte depends on the one before it. */
  predicate Shifted(r: bv32, b: byte, next: bv32) {
    if r & 0xff == b as bv32 then next == r >> 8 else next > 0xff_ffff
  }

  lemma LastStep(table: bv32 -> bv32, key: seq<byte>)
    requires IsCrcTable(table) && key != []
    ensures Shifted(Crc(table, key[..|key| - 1]), key[|key| - 1], Crc(table, key))
  {
    StepShifts(table, Crc(table, key[..|key| - 1]), key[|key| - 1]);
  }

  predicate Fits(r: bv32, n: nat) {
    match n
    case 0 => r == 0
    case 1 => r <= 0xff
    case 2 => r <= 0xffff
    case 3 => r <= 0xff_ffff
    case _ => true
  }

  lemma FitsShift(r: bv32, n: nat)
    requires n > 0 && Fits(r >> 8, n - 1)
    ensures Fits(r, n)
  {
  }

  lemma {:induction false} SpellsFits(r: bv32, bytes: seq<byte>)
    requires Spells(r, bytes)
    ensures Fits(r, |bytes|)
  {
    hide Fits;
    if bytes == [] {
      Zero(r);
    } else {
      SpellsFits(r >> 8, bytes[1..]);
      FitsShift(r, |bytes|);
    }
  }

  lemma Zero(r: bv32)
    requires r == 0
    ensures Fits(r, 0)
  {
  }

  lemma SpellsStep(r: bv32, b: byte, next: bv32, bytes: seq<byte>)
    requires Shifted(r, b, next) && |bytes| <= 3
    ensures Spells(next, bytes) <==> Spells(r, [b] + bytes)
  {
    assert ([b] + bytes)[1..] == bytes;
    if r & 0xff != b as bv32 && Spells(next, bytes) {
      SpellsFits(next, bytes);
    }
  }

  lemma {:induction false} TooShort(table: bv32 -> bv32, key: seq<byte>)
    requires IsCrcTable(table) && |key| < 4
    ensures Crc(table, key) >= match |key| { case 0 => 0xffff_ffff case 1 => 0xff_ffff case 2 => 0xffff case _ => 0xff }
  {
    if key != [] {
      TooShort(table, key[..|key| - 1]);
      LastStep(table, key);
    }
  }

  lemma {:induction false} VanishesAt(table: bv32 -> bv32, key: seq<byte>, k: nat)
    requires IsCrcTable(table) && k <= |key| && k <= 4
    ensures Crc(table, key) == 0 <==> Spells(Crc(table, key[..|key| - k]), key[|key| - k..])
  {
    hide Crc, Shifted;
    var m := |key| - k;
    if k == 0 {
      assert key[..m] == key && key[m..] == [];
    } else {
      VanishesAt(table, key, k - 1);
      LastStep(table, key[..m + 1]);
      assert key[..m + 1][..m] == key[..m];
      assert key[m..] == [key[m]] + key[m + 1..];
      SpellsStep(Crc(table, key[..m]), key[m], Crc(table, key[..m + 1]), key[m + 1..]);
    }
  }

  /** A key has the hash zero if and only if its last four bytes spell the register before them. */
  lemma VanishesIff(table: bv32 -> bv32, key: seq<byte>)
    requires IsCrcTable(table)
    ensures Crc(table, key) == 0 <==>
              |key| >= 4 && Spells(Crc(table, key[..|key| - 4]), key[|key| - 4..])
  {
    hide Crc;
    if |key| < 4 {
      TooShort(table, key);
    } else {
      VanishesAt(table, key, 4);
    }
  }

  lemma SpelledByOnes()
    ensures Spells(0xffff_ffff, [255, 255, 255, 255])
  {
    assert Spells(0, []);
    assert [255 as byte][1..] == [] && (0xff as bv32) >> 8 == 0;
    assert Spells(0xff, [255]);
    assert [255 as byte, 255][1..] == [255] && (0xffff as bv32) >> 8 == 0xff;
    assert Spells(0xffff, [255, 255]);
    assert [255 as byte, 255, 255][1..] == [255, 255] && (0xff_ffff as bv32) >> 8 == 0xffff;
    assert Spells(0xff_ffff, [255, 255, 255]);
    assert [255 as byte, 255, 255, 255][1..] == [255, 255, 255] && (0xffff_ffff as bv32) >> 8 == 0xff_ffff;
  }

  /** Four bytes 0xff have it, so an array of nodes without a ring is indexed at its end. */
  lemma PastTheEnd(table: bv32 -> bv32, count: nat)
    requires IsCrcTable(table) && count > 0
    ensures var hash := Crc(table, [255, 255, 255, 255]);
            hash == 0 && Scaled(hash as nat, count) == count
  {
    VanishesIff(table, [255, 255, 255, 255]);
    assert [255, 255, 255, 255][..0] == [];
    assert Crc(table, []) == 0xffff_ffff;
    SpelledByOnes();
  }

  /** The position of a key's node is in range if and only if the key's hash is not zero. */
  lemma KeyInRange(table: bv32 -> bv32, key: seq<byte>, count: nat)
    requires IsCrcTable(table) && count > 0
    ensures Scaled(Crc(table, key) as nat, count) < count <==>
              !(|key| >= 4 && Spells(Crc(table, key[..|key| - 4]), key[|key| - 4..]))
  {
    hide Crc, Scaled, Spells;
    VanishesIff(table, key);
    ScaledInRange(Crc(table, key) as nat, count);
  }
}
