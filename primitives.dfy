/**
 * Fixed-width integers, byte strings and the packed little-endian layout
 * used by the finalization structures.
 */
module Primitives {

  type uint8 = x: int | 0 <= x < 0x100
  type uint32 = x: int | 0 <= x < 0x1_0000_0000
  type uint64 = x: int | 0 <= x < 0x1_0000_0000_0000_0000

  const MaxUint32: nat := 0xFFFF_FFFF

  datatype Option<+T> = None | Some(value: T)

  /** `n` zero bytes. */
  function Zeros(n: nat): (r: seq<uint8>)
    ensures |r| == n
    ensures forall i :: 0 <= i < n ==> r[i] == 0
  {
    seq(n, _ => 0)
  }

  /** 32-byte hash (block hashes, generation hash). */
  type Hash256 = s: seq<uint8> | |s| == 32 witness Zeros(32)

  /** 64-byte hash (VRF output). */
  type Hash512 = s: seq<uint8> | |s| == 64 witness Zeros(64)

  /** The default-constructed `Hash256()`. */
  const ZeroHash256: Hash256 := Zeros(32)

  /** The default-constructed `Hash512()`, which VRF verification returns on failure. */
  const ZeroHash512: Hash512 := Zeros(64)

  function Pow256(width: nat): (r: nat)
    ensures r > 0
  {
    if width == 0 then 1 else 256 * Pow256(width - 1)
  }

  /** The `width` bytes of `x` in memory order on a little-endian host. */
  function LittleEndian(x: nat, width: nat): (r: seq<uint8>)
    ensures |r| == width
  {
    if width == 0 then [] else [x % 256] + LittleEndian(x / 256, width - 1)
  }

  /** Reads an unsigned little-endian integer back from its bytes. */
  function FromLittleEndian(s: seq<uint8>): (r: nat)
    ensures r < Pow256(|s|)
  {
    if s == [] then 0 else s[0] + 256 * FromLittleEndian(s[1..])
  }

  /** Decoding the little-endian bytes of a value that fits the width gives the value back. */
  lemma {:induction false} LittleEndianRoundTrip(x: nat, width: nat)
    requires x < Pow256(width)
    ensures FromLittleEndian(LittleEndian(x, width)) == x
  {
    if width > 0 {
      var q := x / 256;
      assert x == 256 * q + x % 256;
      assert q < Pow256(width - 1);
      LittleEndianRoundTrip(q, width - 1);
      var s := LittleEndian(x, width);
      assert s[1..] == LittleEndian(q, width - 1);
    }
  }

  /** Two values of the same width have the same bytes only if they are equal. */
  lemma LittleEndianInjective(x: nat, y: nat, width: nat)
    requires x < Pow256(width) && y < Pow256(width)
    requires LittleEndian(x, width) == LittleEndian(y, width)
    ensures x == y
  {
    LittleEndianRoundTrip(x, width);
    LittleEndianRoundTrip(y, width);
  }

  lemma Pow256Of8()
    ensures Pow256(8) == 0x1_0000_0000_0000_0000
  {
  }

  /** The bytes of consecutive 32-byte hashes laid out with no padding. */
  function Flatten(hashes: seq<Hash256>): (r: seq<uint8>)
    ensures |r| == 32 * |hashes|
  {
    if hashes == [] then [] else hashes[0] + Flatten(hashes[1..])
  }

  /** The `i`-th 32-byte slot of the flattened bytes is the `i`-th hash. */
  lemma {:induction false} FlattenSlot(hashes: seq<Hash256>, i: nat)
    requires i < |hashes|
    ensures 32 * i + 32 <= |Flatten(hashes)|
    ensures Flatten(hashes)[32 * i .. 32 * i + 32] == hashes[i]
  {
    var f := Flatten(hashes);
    if i == 0 {
      assert f[..32] == hashes[0];
    } else {
      FlattenSlot(hashes[1..], i - 1);
      assert f[32..] == Flatten(hashes[1..]);
      assert f[32 * i .. 32 * i + 32] == f[32..][32 * (i - 1) .. 32 * (i - 1) + 32];
    }
  }

  /** Splits a byte string whose length is a multiple of 32 into hashes. */
  function Unflatten(bytes: seq<uint8>): (r: seq<Hash256>)
    requires |bytes| % 32 == 0
    ensures 32 * |r| == |bytes|
  {
    if bytes == [] then [] else [bytes[..32]] + Unflatten(bytes[32..])
  }

  /** The trailer bytes of a message determine its hash list exactly. */
  lemma {:induction false} UnflattenFlatten(hashes: seq<Hash256>)
    ensures Unflatten(Flatten(hashes)) == hashes
  {
    if hashes != [] {
      var f := Flatten(hashes);
      assert f[..32] == hashes[0];
      assert f[32..] == Flatten(hashes[1..]);
      UnflattenFlatten(hashes[1..]);
    }
  }

  /** Distinct hash lists pack into distinct bytes. */
  lemma FlattenInjective(a: seq<Hash256>, b: seq<Hash256>)
    requires Flatten(a) == Flatten(b)
    ensures a == b
  {
    UnflattenFlatten(a);
    UnflattenFlatten(b);
  }
}
