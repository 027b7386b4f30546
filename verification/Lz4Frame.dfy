/** The frame around LZ4-compressed values: a checksum of the length, the length, the data. */
module Lz4Frame {
  import opened Bytes

  const HEADER: nat := 5

  // ---------------------------------------------------------------- the checksum

  function ShiftOut(crc: byte): byte {
    if crc & 0x80 != 0 then (crc << 1) ^ 0x31 else crc << 1
  }

  function ShiftOuts(crc: byte, n: nat): byte {
    if n == 0 then crc else ShiftOut(ShiftOuts(crc, n - 1))
  }

  function Mix(crc: byte, b: byte): byte {
    ShiftOuts(crc ^ b, 8)
  }

  function Crc8Of(s: bytes): byte {
    if s == [] then 0xFF else Mix(Crc8Of(s[..|s| - 1]), s[|s| - 1])
  }

  /** crc8. */
  method Crc8(input: bytes) returns (crc: byte)
    ensures crc == Crc8Of(input)
  {
    crc := 0xFF;
    for k := 0 to |input|
      invariant crc == Crc8Of(input[..k])
    {
      assert input[..k + 1][..k] == input[..k];
      crc := crc ^ input[k];
      ghost var mixed := crc;
      for i := 0 to 8
        invariant crc == ShiftOuts(mixed, i)
      {
        if crc & 0x80 != 0 {
          crc := (crc << 1) ^ 0x31;
        } else {
          crc := crc << 1;
        }
      }
    }
    assert input[..|input|] == input;
  }

  lemma ShiftOutInjective(a: byte, b: byte)
    requires ShiftOut(a) == ShiftOut(b)
    ensures a == b
  {
  }

  lemma {:induction false} ShiftOutsInjective(a: byte, b: byte, n: nat)
    requires ShiftOuts(a, n) == ShiftOuts(b, n)
    ensures a == b
  {
    if n > 0 {
      ShiftOutInjective(ShiftOuts(a, n - 1), ShiftOuts(b, n - 1));
      ShiftOutsInjective(a, b, n - 1);
    }
  }

  /** Mixing loses nothing: neither the checksum so far nor the byte. */
  lemma MixInjective(a: byte, x: byte, b: byte, y: byte)
    requires Mix(a, x) == Mix(b, y)
    ensures a == b <==> x == y
  {
    ShiftOutsInjective(a ^ x, b ^ y, 8);
    XorCancels(a, x, b, y);
  }

  lemma XorCancels(a: byte, x: byte, b: byte, y: byte)
    requires a ^ x == b ^ y
    ensures a == b <==> x == y
  {
  }

  /** Inputs of the same length that differ in one byte only have different checksums. */
  lemma {:induction false} OneByteChanges(s: bytes, i: nat, b: byte)
    requires i < |s| && s[i] != b
    ensures Crc8Of(s[i := b]) != Crc8Of(s)
    decreases |s|
  {
    var t, last := s[i := b], |s| - 1;
    if i == last {
      assert t[..last] == s[..last];
      if Mix(Crc8Of(s[..last]), s[last]) == Mix(Crc8Of(s[..last]), b) {
        MixInjective(Crc8Of(s[..last]), s[last], Crc8Of(s[..last]), b);
      }
    } else {
      assert t[..last] == s[..last][i := b];
      OneByteChanges(s[..last], i, b);
      if Mix(Crc8Of(s[..last]), s[last]) == Mix(Crc8Of(t[..last]), s[last]) {
        MixInjective(Crc8Of(s[..last]), s[last], Crc8Of(t[..last]), s[last]);
      }
    }
  }

  // ---------------------------------------------------------------- the length

  const TWO32: int := 0x1_0000_0000

  /** The n lowest bits of a number, lowest first. */
  function Binary(k: nat, n: nat): (s: seq<bool>)
    ensures |s| == n
  {
    if n == 0 then [] else [k % 2 == 1] + Binary(k / 2, n - 1)
  }

  function Number(s: seq<bool>): nat {
    if s == [] then 0 else (if s[0] then 1 else 0) + 2 * Number(s[1..])
  }

  function PowerOfTwo(n: nat): nat {
    if n == 0 then 1 else 2 * PowerOfTwo(n - 1)
  }

  lemma {:induction false} BinaryInverse(k: nat, n: nat)
    requires k < PowerOfTwo(n)
    ensures Number(Binary(k, n)) == k
  {
    if n > 0 {
      BinaryInverse(k / 2, n - 1);
    }
  }

  function Pack(s: seq<bool>): byte
    requires |s| == 8
  {
    (if s[0] then 0x01 else 0) | (if s[1] then 0x02 else 0) | (if s[2] then 0x04 else 0) | (if s[3] then 0x08 else 0)
    | (if s[4] then 0x10 else 0) | (if s[5] then 0x20 else 0) | (if s[6] then 0x40 else 0) | (if s[7] then 0x80 else 0)
  }

  function Unpack(b: byte): (s: seq<bool>)
    ensures |s| == 8
  {
    [b & 0x01 != 0, b & 0x02 != 0, b & 0x04 != 0, b & 0x08 != 0,
     b & 0x10 != 0, b & 0x20 != 0, b & 0x40 != 0, b & 0x80 != 0]
  }

  lemma UnpackInverse(s: seq<bool>)
    requires |s| == 8
    ensures Unpack(Pack(s)) == s
  {
  }

  /** A 32-bit integer in memory, little end first. */
  function IntBytes(n: int): (s: bytes)
    requires -0x8000_0000 <= n <= INT_MAX
    ensures |s| == 4
  {
    var bits := Binary(if n < 0 then n + TWO32 else n, 32);
    [Pack(bits[..8]), Pack(bits[8..16]), Pack(bits[16..24]), Pack(bits[24..])]
  }

  function IntOf(s: bytes): int
    requires |s| == 4
  {
    var u := Number(Unpack(s[0]) + Unpack(s[1]) + Unpack(s[2]) + Unpack(s[3]));
    if u > INT_MAX then u - TWO32 else u
  }

  lemma ThirtyTwo()
    ensures PowerOfTwo(32) == TWO32
  {
    assert PowerOfTwo(8) == 0x100;
    assert PowerOfTwo(16) == 0x1_0000;
    assert PowerOfTwo(24) == 0x100_0000;
  }

  lemma IntRoundTrip(n: int)
    requires -0x8000_0000 <= n <= INT_MAX
    ensures IntOf(IntBytes(n)) == n
  {
    hide Pack, Unpack, Binary;
    var u := if n < 0 then n + TWO32 else n;
    var bits := Binary(u, 32);
    ThirtyTwo();
    BinaryInverse(u, 32);
    UnpackInverse(bits[..8]);
    UnpackInverse(bits[8..16]);
    UnpackInverse(bits[16..24]);
    UnpackInverse(bits[24..]);
    assert bits == bits[..8] + bits[8..16] + bits[16..24] + bits[24..];
  }

  // ---------------------------------------------------------------- the frame

  /** The compression library: None for its failure codes. Decompression is given the size of the
      output buffer and may fill less than that. */
  datatype Library = Library(compress: bytes -> Option<bytes>, decompress: (bytes, int) -> Option<bytes>)

  ghost predicate Lawful(lib: Library) {
    && (forall d :: lib.compress(d).Some? && 1 <= |d| <= INT_MAX ==>
          && |lib.compress(d).value| <= INT_MAX
          && lib.decompress(lib.compress(d).value, |d|) == Some(d))
    && (forall c, n :: lib.decompress(c, n).Some? ==> |lib.decompress(c, n).value| <= n)
  }

  function Frame(data: bytes, length: int): bytes
    requires 0 <= length <= INT_MAX
  {
    [Crc8Of(IntBytes(length))] + IntBytes(length) + data
  }

  /** redis_compress: the value is passed on as it is when it cannot be compressed. */
  method Compress(lib: Library, buf: bytes) returns (compressed: bool, dst: bytes)
    ensures compressed <==> 1 <= |buf| <= INT_MAX && lib.compress(buf).Some?
    ensures dst == if compressed then Frame(lib.compress(buf).value, |buf|) else buf
  {
    if |buf| < 1 || |buf| > INT_MAX {
      return false, buf;
    }
    var length := IntBytes(|buf|);
    var crc := Crc8(length);
    match lib.compress(buf)
    case None =>
      return false, buf;
    case Some(data) =>
      return true, [crc] + length + data;
  }

  /** Aborted: the length is negative, and no such buffer can be allocated. */
  datatype Unpacked = Unchanged(src: bytes) | Data(data: bytes) | Aborted

  /** The header is complete, and its checksum fits its length. */
  predicate HeaderFits(src: bytes) {
    HEADER <= |src| <= INT_MAX + HEADER && Crc8Of(src[1..HEADER]) == src[0]
  }

  /** redis_uncompress. When less than the announced length is decompressed, the rest of the buffer
      is unspecified. */
  method Uncompress(lib: Library, src: bytes) returns (r: Unpacked)
    requires Lawful(lib)
    ensures !HeaderFits(src) ==> r == Unchanged(src)
    ensures HeaderFits(src) ==>
              var n := IntOf(src[1..HEADER]);
              var out := lib.decompress(src[HEADER..], n);
              if n < 0 then r == Aborted
              else if out.None? then r == Unchanged(src)
              else r.Data? && |r.data| == n && out.value <= r.data
  {
    if |src| < HEADER || |src| > INT_MAX + HEADER {
      return Unchanged(src);
    }
    var crc := Crc8(src[1..HEADER]);
    if crc != src[0] {
      return Unchanged(src);
    }
    var n := IntOf(src[1..HEADER]);
    if n < 0 {
      return Aborted;
    }
    match lib.decompress(src[HEADER..], n)
    case None =>
      return Unchanged(src);
    case Some(out) =>
      var rest: bytes := *;
      if |rest| != n - |out| {
        rest := seq(n - |out|, i => 0);
      }
      return Data(out + rest);
  }

  lemma FrameParts(data: bytes, length: int)
    requires 0 <= length <= INT_MAX
    ensures var f := Frame(data, length);
            f[1..HEADER] == IntBytes(length) && f[HEADER..] == data && |f| == HEADER + |data| && Crc8Of(f[1..HEADER]) == f[0]
  {
    var f := Frame(data, length);
    assert f[1..HEADER] == IntBytes(length);
  }

  /** What was compressed is restored. What was passed on as it is comes back as it is unless it
      happens to look like a frame that the library can decompress. */
  method RoundTrip(lib: Library, buf: bytes) returns (r: Unpacked)
    requires Lawful(lib)
    ensures 1 <= |buf| <= INT_MAX && lib.compress(buf).Some? ==> r == Data(buf)
    ensures |buf| == 0 || |buf| > INT_MAX || lib.compress(buf).None? ==>
              (r == Unchanged(buf) <==> !LooksFramed(lib, buf))
  {
    var compressed, dst := Compress(lib, buf);
    if compressed {
      FrameParts(lib.compress(buf).value, |buf|);
      IntRoundTrip(|buf|);
    }
    r := Uncompress(lib, dst);
  }

  predicate LooksFramed(lib: Library, src: bytes) {
    HeaderFits(src) && (IntOf(src[1..HEADER]) < 0 || lib.decompress(src[HEADER..], IntOf(src[1..HEADER])).Some?)
  }

  /** A change to one byte of the header is detected, and the damaged frame is passed on as it is. */
  method Damaged(lib: Library, data: bytes, length: int, i: nat, b: byte) returns (r: Unpacked)
    requires Lawful(lib) && 0 <= length <= INT_MAX && i < HEADER && Frame(data, length)[i] != b
    ensures r == Unchanged(Frame(data, length)[i := b])
  {
    DamageShows(data, length, i, b);
    r := Uncompress(lib, Frame(data, length)[i := b]);
  }

  lemma DamageShows(data: bytes, length: int, i: nat, b: byte)
    requires 0 <= length <= INT_MAX && i < HEADER && Frame(data, length)[i] != b
    ensures !HeaderFits(Frame(data, length)[i := b])
  {
    var f := Frame(data, length);
    var g := f[i := b];
    FrameParts(data, length);
    if i == 0 {
      assert g[1..HEADER] == f[1..HEADER];
    } else {
      assert g[1..HEADER] == f[1..HEADER][i - 1 := b];
      OneByteChanges(f[1..HEADER], i - 1, b);
    }
  }
}
