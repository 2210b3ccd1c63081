/** The free map: a bit for every block of the image, set while the block is free. */
module FreeMap {
  import opened Bytes
  import opened SfsState

  // ---------- bits ----------

  /** Bit k of w. */
  predicate Bit(w: nat, k: nat) {
    if k == 0 then w % 2 == 1 else Bit(w / 2, k - 1)
  }

  /** w | (1 << k) */
  function SetBit(w: nat, k: nat): nat {
    if k == 0 then w - w % 2 + 1 else 2 * SetBit(w / 2, k - 1) + w % 2
  }

  lemma {:induction false} BitOfSetBit(w: nat, k: nat, j: nat)
    ensures Bit(SetBit(w, k), j) <==> j == k || Bit(w, j)
  {
    if k == 0 {
      assert SetBit(w, 0) / 2 == w / 2;
    } else {
      assert SetBit(w, k) / 2 == SetBit(w / 2, k - 1) && SetBit(w, k) % 2 == w % 2;
      if j > 0 {
        BitOfSetBit(w / 2, k - 1, j - 1);
      }
    }
  }

  lemma {:induction false} NoBits(k: nat)
    ensures !Bit(0, k)
  {
    if k != 0 {
      NoBits(k - 1);
    }
  }

  /** w >> a */
  function Shr(w: nat, a: nat): nat {
    if a == 0 then w else Shr(w / 2, a - 1)
  }

  lemma {:induction false} BitOfShr(w: nat, a: nat, b: nat)
    ensures Bit(Shr(w, a), b) == Bit(w, a + b)
  {
    if a != 0 {
      BitOfShr(w / 2, a - 1, b);
    }
  }

  lemma {:induction false} ShrTwice(w: nat, a: nat, b: nat)
    ensures Shr(Shr(w, a), b) == Shr(w, a + b)
  {
    if a != 0 {
      ShrTwice(w / 2, a - 1, b);
    }
  }

  lemma {:induction false} ShrNext(w: nat, a: nat)
    ensures Shr(w, a + 1) == Shr(w, a) / 2
  {
    if a != 0 {
      ShrNext(w / 2, a - 1);
    }
  }

  lemma ShrByte(w: nat)
    ensures Shr(w, 0) == w && Shr(w, 1) == w / 2 && Shr(w, 2) == w / 4 && Shr(w, 3) == w / 8 && Shr(w, 4) == w / 16
    ensures Shr(w, 5) == w / 32 && Shr(w, 6) == w / 64 && Shr(w, 7) == w / 128 && Shr(w, 8) == w / 256
  {
    ShrNext(w, 0);
    ShrNext(w, 1);
    ShrNext(w, 2);
    ShrNext(w, 3);
    ShrNext(w, 4);
    ShrNext(w, 5);
    ShrNext(w, 6);
    ShrNext(w, 7);
  }

  lemma {:induction false} ShrBytes(w: nat, q: nat)
    requires q < 4
    ensures Le32(w)[q] == Shr(w, 8 * q) % 256
  {
    ShrByte(w);
    ShrByte(w / 256);
    ShrByte(w / 256 / 256);
    ShrTwice(w, 8, 8);
    ShrTwice(w, 16, 8);
    assert w / 65536 == w / 256 / 256;
    assert w / 16777216 == w / 256 / 256 / 256;
    assert Shr(w, 0) == w;
  }

  lemma LowByteShifts(w: nat, x: nat)
    requires x == w % 256
    ensures w / 2 == 128 * (w / 256) + x / 2 && w / 4 == 64 * (w / 256) + x / 4
    ensures w / 8 == 32 * (w / 256) + x / 8 && w / 16 == 16 * (w / 256) + x / 16
    ensures w / 32 == 8 * (w / 256) + x / 32 && w / 64 == 4 * (w / 256) + x / 64
    ensures w / 128 == 2 * (w / 256) + x / 128
  {
    var q := w / 256;
    assert w == 256 * q + x;
  }

  lemma LowParities(w: nat, x: nat)
    requires x == w % 256
    ensures w % 2 == x % 2 && w / 2 % 2 == x / 2 % 2 && w / 4 % 2 == x / 4 % 2 && w / 8 % 2 == x / 8 % 2
    ensures w / 16 % 2 == x / 16 % 2 && w / 32 % 2 == x / 32 % 2 && w / 64 % 2 == x / 64 % 2
    ensures w / 128 % 2 == x / 128 % 2
  {
    LowByteShifts(w, x);
    var q := w / 256;
    SameParity(w, x, 128 * q);
    SameParity(w / 2, x / 2, 64 * q);
    SameParity(w / 4, x / 4, 32 * q);
    SameParity(w / 8, x / 8, 16 * q);
    SameParity(w / 16, x / 16, 8 * q);
    SameParity(w / 32, x / 32, 4 * q);
    SameParity(w / 64, x / 64, 2 * q);
    SameParity(w / 128, x / 128, q);
  }

  lemma SameParity(a: nat, b: nat, k: nat)
    requires a == 2 * k + b
    ensures a % 2 == b % 2
  {
  }

  /** The low bits of w are those of its low byte. */
  lemma BitOfLowByte(w: nat, r: nat)
    requires r < 8
    ensures Bit(w % 256, r) == Bit(w, r)
  {
    var x := w % 256;
    LowParities(w, x);
    ShrByte(w);
    ShrByte(x);
    BitOfShr(w, r, 0);
    BitOfShr(x, r, 0);
    hide Bit, Shr;
    assert Shr(w, r) % 2 == Shr(x, r) % 2;
    BitZero(Shr(w, r));
    BitZero(Shr(x, r));
  }

  lemma BitZero(w: nat)
    ensures Bit(w, 0) == (w % 2 == 1)
  {
  }

  /** Bit 8q + r of a word is bit r of its byte q. */
  lemma BitOfByte(w: nat, q: nat, r: nat)
    requires q < 4 && r < 8
    ensures Bit(Le32(w)[q], r) == Bit(w, 8 * q + r)
  {
    ShrBytes(w, q);
    BitOfShr(w, 8 * q, r);
    BitOfLowByte(Shr(w, 8 * q), r);
  }

  /** Bit b of a block, in memory order. */
  predicate BlockBit(block: Block, b: nat)
    requires b < BLKBITS
  {
    Bit(block[b / 8], b % 8)
  }

  lemma BlockBitOfWords(ws: seq<nat>, b: nat)
    requires |ws| == BLK_NENTRY && b < BLKBITS
    ensures BlockBit(WordBytes(ws), b) == Bit(ws[b / 32], b % 32)
  {
    hide Bit, Le32, WordBytes;
    var k, q, r := b / 32, b % 32 / 8, b % 8;
    BitPlace(b);
    WordAt(ws, k, q);
    BitOfByte(ws[k], q, r);
  }

  lemma BitPlace(b: nat)
    ensures b / 8 == 4 * (b / 32) + b % 32 / 8 && b % 32 == 8 * (b % 32 / 8) + b % 8 && b % 32 / 8 < 4
  {
  }

  lemma WordAt(ws: seq<nat>, k: nat, q: nat)
    requires k < |ws| && q < 4
    ensures |WordBytes(ws)| == 4 * |ws| && WordBytes(ws)[4 * k + q] == Le32(ws[k])[q]
  {
    hide Le32;
    var slice := WordBytes(ws)[4 * k..4 * k + 4];
    assert slice == Le32(ws[k]);
    assert WordBytes(ws)[4 * k + q] == slice[q];
  }

  // ---------- the free map on disk ----------

  /** Whether the map on disk marks block b as free. */
  predicate FreeBit(disk: map<nat, Block>, b: nat) {
    var m := BLKN_FREEMAP + b / BLKBITS;
    m in disk && BlockBit(disk[m], b % BLKBITS)
  }

  /** The map is exact: the free blocks are those from next up to ninos. */
  ghost predicate FreeMapExact(disk: map<nat, Block>, next: nat, ninos: nat) {
    forall b: nat | b < BLKBITS * (FirstFree(ninos) - BLKN_FREEMAP) :: FreeBit(disk, b) <==> next <= b < ninos
  }

  function FreeCount(disk: map<nat, Block>, hi: nat): nat {
    if hi == 0 then 0 else FreeCount(disk, hi - 1) + if FreeBit(disk, hi - 1) then 1 else 0
  }

  /** An exact map has as many bits set as there are free blocks. */
  lemma {:induction false} FreeCountExact(disk: map<nat, Block>, next: nat, ninos: nat, hi: nat)
    requires FreeMapExact(disk, next, ninos) && next <= ninos
    requires hi <= BLKBITS * (FirstFree(ninos) - BLKN_FREEMAP)
    ensures FreeCount(disk, hi) == if hi <= next then 0 else if hi <= ninos then hi - next else ninos - next
  {
    if hi != 0 {
      FreeCountExact(disk, next, ninos, hi - 1);
    }
  }

  /** The inner loops of close_sfs: the words of the map block that covers blocks i and up. */
  method FreeMapWords(i: nat, next: nat, ninos: nat) returns (ws: seq<nat>)
    requires i < ninos
    ensures |ws| == BLK_NENTRY
    ensures forall b: nat | b < BLKBITS :: Bit(ws[b / 32], b % 32) <==> next <= i + b < ninos
  {
    var data := new nat[BLK_NENTRY](_ => 0);
    forall b: nat | b < BLKBITS
      ensures !Bit(data[b / 32], b % 32)
    {
      NoBits(b % 32);
    }
    if i + BLKBITS > next {
      var start, end := 0, BLKBITS;
      if i < next {
        start := next - i;
      }
      if i + BLKBITS > ninos {
        end := ninos - i;
      }
      var j := start;
      while j < end
        invariant start <= j && (j <= end || j == start)
        invariant forall b: nat | b < BLKBITS :: Bit(data[b / 32], b % 32) <==> start <= b < j && b < end
      {
        ghost var before := data[..];
        data[j / 32] := SetBit(data[j / 32], j % 32);
        forall b: nat | b < BLKBITS
          ensures Bit(data[b / 32], b % 32) <==> b == j || Bit(before[b / 32], b % 32)
        {
          BitOfSetBit(before[j / 32], j % 32, b % 32);
        }
        j := j + 1;
      }
    }
    ws := data[..];
  }
}
