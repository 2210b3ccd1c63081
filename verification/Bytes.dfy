/** Bytes, disk blocks and the little-endian layout of the structures that mksfs writes. */
module Bytes {

  type byte = x: int | 0 <= x < 256

  const BLKSIZE: nat := 4096

  type Block = b: seq<byte> | |b| == BLKSIZE witness seq(BLKSIZE, _ => 0)

  /** What write_block puts on disk: the data, zero-filled up to a whole block. */
  function Pad(data: seq<byte>): (b: Block)
    requires |data| <= BLKSIZE
    ensures data <= b
    ensures forall i | |data| <= i < BLKSIZE :: b[i] == 0
  {
    data + seq(BLKSIZE - |data|, _ => 0)
  }

  /** A uint16_t in memory (the value is stored modulo 2^16). */
  function Le16(n: nat): (b: seq<byte>)
    ensures |b| == 2
  {
    [n % 256, n / 256 % 256]
  }

  /** A uint32_t in memory (the value is stored modulo 2^32). */
  function Le32(n: nat): (b: seq<byte>)
    ensures |b| == 4
  {
    [n % 256, n / 256 % 256, n / 65536 % 256, n / 16777216 % 256]
  }

  function U16(b: seq<byte>, off: nat): nat
    requires off + 2 <= |b|
  {
    b[off] as int + 256 * (b[off + 1] as int)
  }

  function U32(b: seq<byte>, off: nat): nat
    requires off + 4 <= |b|
  {
    b[off] as int + 256 * (b[off + 1] as int) + 65536 * (b[off + 2] as int) + 16777216 * (b[off + 3] as int)
  }

  lemma U32OfLe32(n: nat)
    requires n < 0x1_0000_0000
    ensures U32(Le32(n), 0) == n
  {
    assert n == 256 * (n / 256) + n % 256;
    assert n / 65536 == n / 256 / 256;
    assert n / 16777216 == n / 65536 / 256;
  }

  /** An array of uint32_t in memory. */
  function WordBytes(ws: seq<nat>): (b: seq<byte>)
    ensures |b| == 4 * |ws|
    ensures forall k | 0 <= k < |ws| :: b[4 * k..4 * k + 4] == Le32(ws[k])
  {
    if ws == [] then [] else
      var rest := WordBytes(ws[..|ws| - 1]);
      var b := rest + Le32(ws[|ws| - 1]);
      assert forall k | 0 <= k < |ws| - 1 :: b[4 * k..4 * k + 4] == rest[4 * k..4 * k + 4];
      b
  }

  lemma U32OfSlice(b: seq<byte>, off: nat, n: nat)
    requires off + 4 <= |b|
    requires b[off..off + 4] == Le32(n)
    requires n < 0x1_0000_0000
    ensures U32(b, off) == n
  {
    var s := b[off..off + 4];
    assert b[off] == s[0] && b[off + 1] == s[1] && b[off + 2] == s[2] && b[off + 3] == s[3];
    U32OfLe32(n);
  }

  lemma U16OfSlice(b: seq<byte>, off: nat, n: nat)
    requires off + 2 <= |b|
    requires b[off..off + 2] == Le16(n)
    requires n < 0x1_0000
    ensures U16(b, off) == n
  {
    var s := b[off..off + 2];
    assert b[off] == s[0] && b[off + 1] == s[1];
  }

  lemma U32OfWordBytes(ws: seq<nat>, k: nat)
    requires k < |ws| && ws[k] < 0x1_0000_0000
    ensures U32(WordBytes(ws), 4 * k) == ws[k]
  {
    U32OfSlice(WordBytes(ws), 4 * k, ws[k]);
  }

  /** The C string that starts a byte buffer: everything before the first NUL. */
  function UpToNul(b: seq<byte>): (s: seq<byte>)
    ensures s <= b
    ensures 0 !in s
    ensures |s| < |b| ==> b[|s|] == 0
  {
    if b == [] || b[0] == 0 then [] else [b[0]] + UpToNul(b[1..])
  }

  lemma {:induction false} UpToNulUnique(b: seq<byte>, s: seq<byte>)
    requires s <= b && 0 !in s
    requires |s| < |b| ==> b[|s|] == 0
    ensures UpToNul(b) == s
  {
    if s != [] {
      UpToNulUnique(b[1..], s[1..]);
    }
  }
}
