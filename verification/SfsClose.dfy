/** What close_sfs leaves on disk. */
module SfsClose {
  import opened Bytes
  import opened SfsState
  import opened FreeMap

  const MAGIC: nat := 0x2f8dbe2a
  const INFO_LEN: nat := 32

  /** struct inode in memory: 68 bytes. */
  function InodeBytes(i: Inode): (b: seq<byte>)
    ensures |i.direct| == NDIRECT ==> |b| == 68
  {
    Le32(i.size) + Le16(i.kind) + Le16(i.nlinks) + Le32(i.blocks)
    + WordBytes(i.direct) + Le32(i.indirect) + Le32(i.dbIndirect)
  }

  /** The super structure in memory: 44 bytes. */
  function SuperBytes(blocks: nat, unused: nat, info: seq<byte>): (b: seq<byte>)
    ensures |b| == 12 + |info|
  {
    Le32(MAGIC) + Le32(blocks) + Le32(unused) + info
  }

  ghost predicate InodeOnDisk(s: Sfs, d: map<nat, Block>, n: nat)
    requires n in s.inodes
  {
    && n in d && |s.inodes[n].inode.direct| == NDIRECT
    && d[n] == Pad(InodeBytes(s.inodes[n].inode))
  }

  ghost predicate TableOnDisk(s: Sfs, d: map<nat, Block>, b: nat)
    requires b in s.blocks
  {
    b in d && |s.blocks[b]| == BLK_NENTRY && d[b] == Pad(WordBytes(s.blocks[b]))
  }

  /** d is the image of state s: every block below nextIno is written, each by its owner. */
  ghost predicate Flushed(s: Sfs, info: seq<byte>, d: map<nat, Block>) {
    && (forall n | n in s.inodes :: InodeOnDisk(s, d, n))
    && (forall b | b in s.blocks :: TableOnDisk(s, d, b))
    && (forall x | x in s.disk :: x in d && d[x] == s.disk[x])
    && FreeMapExact(d, s.nextIno, s.ninos)
    && |info| == INFO_LEN && s.unused >= 0
    && BLKN_SUPER in d && d[BLKN_SUPER] == Pad(SuperBytes(s.ninos, s.unused, info))
    && (forall x: nat :: x in d <==> x < s.nextIno)
  }

  /** During the final loop: what is written for inodes and tables is right, and nothing else has changed since d0. */
  ghost predicate Flushing(s: Sfs, d0: map<nat, Block>, d: map<nat, Block>) {
    && (forall x | x in d0 :: x in d)
    && (forall x | x in d && x !in d0 :: x in s.inodes || x in s.blocks)
    && (forall x | x in d && x in s.inodes :: InodeOnDisk(s, d, x))
    && (forall x | x in d && x in s.blocks :: TableOnDisk(s, d, x))
    && (forall x | x in d0 && x !in s.inodes && x !in s.blocks :: d[x] == d0[x])
  }

  lemma FlushInode(s: Sfs, d0: map<nat, Block>, d: map<nat, Block>, n: nat)
    requires Flushing(s, d0, d) && n in s.inodes && n !in s.blocks && |s.inodes[n].inode.direct| == NDIRECT
    ensures Flushing(s, d0, d[n := Pad(InodeBytes(s.inodes[n].inode))])
  {
    hide InodeBytes, WordBytes, Pad;
    var d' := d[n := Pad(InodeBytes(s.inodes[n].inode))];
    forall x | x in d' && x in s.inodes
      ensures InodeOnDisk(s, d', x)
    {
      if x != n { assert InodeOnDisk(s, d, x); }
    }
    forall x | x in d' && x in s.blocks
      ensures TableOnDisk(s, d', x)
    {
      assert TableOnDisk(s, d, x);
    }
  }

  lemma FlushTable(s: Sfs, d0: map<nat, Block>, d: map<nat, Block>, b: nat)
    requires Flushing(s, d0, d) && b in s.blocks && b !in s.inodes && |s.blocks[b]| == BLK_NENTRY
    ensures Flushing(s, d0, d[b := Pad(WordBytes(s.blocks[b]))])
  {
    hide InodeBytes, WordBytes, Pad;
    var d' := d[b := Pad(WordBytes(s.blocks[b]))];
    forall x | x in d' && x in s.inodes
      ensures InodeOnDisk(s, d', x)
    {
      assert InodeOnDisk(s, d, x);
    }
    forall x | x in d' && x in s.blocks
      ensures TableOnDisk(s, d', x)
    {
      if x != b { assert TableOnDisk(s, d, x); }
    }
  }

  /** The free map covers blocks 0 up to hi correctly. */
  ghost predicate MapWritten(d: map<nat, Block>, next: nat, ninos: nat, hi: nat) {
    forall b: nat | b < hi :: FreeBit(d, b) <==> next <= b < ninos
  }

  lemma MapStep(d: map<nat, Block>, next: nat, ninos: nat, ws: seq<nat>, ino: nat)
    requires ino >= BLKN_FREEMAP && |ws| == BLK_NENTRY
    requires MapWritten(d, next, ninos, BLKBITS * (ino - BLKN_FREEMAP))
    requires forall b: nat | b < BLKBITS ::
               Bit(ws[b / 32], b % 32) <==> next <= BLKBITS * (ino - BLKN_FREEMAP) + b < ninos
    ensures MapWritten(d[ino := Pad(WordBytes(ws))], next, ninos, BLKBITS * (ino + 1 - BLKN_FREEMAP))
  {
    hide Bit;
    var d' := d[ino := Pad(WordBytes(ws))];
    var lo := BLKBITS * (ino - BLKN_FREEMAP);
    assert Pad(WordBytes(ws)) == WordBytes(ws);
    forall b: nat | b < lo + BLKBITS
      ensures FreeBit(d', b) <==> next <= b < ninos
    {
      if b < lo {
        assert FreeBit(d, b) <==> next <= b < ninos;
      } else {
        BlockBitOfWords(ws, b - lo);
        assert b / BLKBITS == ino - BLKN_FREEMAP && b % BLKBITS == b - lo;
      }
    }
  }

  /** Blocks outside the map area do not matter to it. */
  lemma MapKeeps(d: map<nat, Block>, d': map<nat, Block>, next: nat, ninos: nat)
    requires FreeMapExact(d, next, ninos)
    requires forall x | BLKN_FREEMAP <= x < FirstFree(ninos) :: x in d && x in d' && d'[x] == d[x]
    ensures FreeMapExact(d', next, ninos)
  {
    hide BlockBit;
    forall b: nat | b < BLKBITS * (FirstFree(ninos) - BLKN_FREEMAP)
      ensures FreeBit(d', b) <==> next <= b < ninos
    {
      assert FreeBit(d, b) <==> next <= b < ninos;
      assert BLKN_FREEMAP <= BLKN_FREEMAP + b / BLKBITS < FirstFree(ninos);
    }
  }

  /** The disk between the superblock write and the final loop. */
  ghost predicate MapAndSuper(s: Sfs, d0: map<nat, Block>, info: seq<byte>) {
    && FreeMapExact(d0, s.nextIno, s.ninos) && s.unused >= 0
    && (forall x: nat :: x in d0 <==> x in s.disk || x == BLKN_SUPER || BLKN_FREEMAP <= x < FirstFree(s.ninos))
    && (forall x | x in s.disk :: d0[x] == s.disk[x])
    && |info| == INFO_LEN && d0[BLKN_SUPER] == Pad(SuperBytes(s.ninos, s.unused, info))
  }

  lemma FlushStart(s: Sfs, d0: map<nat, Block>, info: seq<byte>)
    requires Counters(s) && Owned(s) && MapAndSuper(s, d0, info)
    ensures Flushing(s, d0, d0)
  {
    hide FreeMapExact, InodeBytes, WordBytes, SuperBytes, Pad;
  }

  /** The first h buckets of both tables have been written. */
  ghost predicate Covered(s: Sfs, d: map<nat, Block>, h: nat)
    requires h <= |s.blockChains| && h <= |s.inodeChains|
  {
    && (forall g, b | 0 <= g < h && b in s.blockChains[g] :: b in d)
    && (forall g, n | 0 <= g < h && n in s.inodeChains[g] :: n in d)
  }

  lemma CoveredStep(s: Sfs, d: map<nat, Block>, d': map<nat, Block>, h: nat)
    requires h < |s.blockChains| && h < |s.inodeChains| && Covered(s, d, h)
    requires forall x | x in d :: x in d'
    requires forall b | b in s.blockChains[h] :: b in d'
    requires forall n | n in s.inodeChains[h] :: n in d'
    ensures Covered(s, d', h + 1)
  {
  }

  lemma FlushEndCaches(s: Sfs, d0: map<nat, Block>, d: map<nat, Block>)
    requires InodeChains(s) && BlockChains(s) && Flushing(s, d0, d)
    requires Covered(s, d, HASH_LIST_SIZE)
    ensures forall n | n in s.inodes :: InodeOnDisk(s, d, n)
    ensures forall b | b in s.blocks :: TableOnDisk(s, d, b)
  {
    hide InodeBytes, WordBytes, Pad, Hash32;
    forall n | n in s.inodes
      ensures n in d
    {
      assert n in s.inodeChains[Hash32(s.inodes[n].hostIno)];
    }
    forall b | b in s.blocks
      ensures b in d
    {
      assert b in s.blockChains[Hash32(0)];
    }
  }

  lemma FlushEndMap(s: Sfs, d0: map<nat, Block>, d: map<nat, Block>, info: seq<byte>)
    requires Counters(s) && Owned(s) && MapAndSuper(s, d0, info) && Flushing(s, d0, d)
    ensures FreeMapExact(d, s.nextIno, s.ninos)
    ensures forall x | x in s.disk :: x in d && d[x] == s.disk[x]
    ensures BLKN_SUPER in d && d[BLKN_SUPER] == d0[BLKN_SUPER]
  {
    hide InodeBytes, WordBytes, SuperBytes, Pad, InodeOnDisk, TableOnDisk, FreeMapExact;
    MapKeeps(d0, d, s.nextIno, s.ninos);
  }

  lemma FlushEnd(s: Sfs, d0: map<nat, Block>, d: map<nat, Block>, info: seq<byte>)
    requires Counters(s) && Owned(s) && InodeChains(s) && BlockChains(s)
    requires MapAndSuper(s, d0, info) && Flushing(s, d0, d)
    requires Covered(s, d, HASH_LIST_SIZE)
    ensures Flushed(s, info, d)
  {
    hide InodeBytes, WordBytes, SuperBytes, Pad, FreeMapExact, Flushing, Covered;
    FlushEndCaches(s, d0, d);
    FlushEndMap(s, d0, d, info);
    FlushEndKeys(s, d0, d, info);
    hide InodeChains, BlockChains, Owned, InodeOnDisk, TableOnDisk;
  }

  lemma FlushEndKeys(s: Sfs, d0: map<nat, Block>, d: map<nat, Block>, info: seq<byte>)
    requires Counters(s) && Owned(s) && MapAndSuper(s, d0, info) && Flushing(s, d0, d)
    requires forall n | n in s.inodes :: n in d
    requires forall b | b in s.blocks :: b in d
    ensures forall x: nat :: x in d <==> x < s.nextIno
  {
    hide InodeBytes, WordBytes, SuperBytes, Pad, FreeMapExact, InodeOnDisk, TableOnDisk;
    forall x: nat
      ensures x in d <==> x < s.nextIno
    {
    }
  }

  lemma CloseFacts(s: Sfs)
    requires Inv(s)
    ensures Counters(s) && Owned(s) && InodeChains(s) && BlockChains(s)
    ensures |s.inodeChains| == |s.blockChains| == HASH_LIST_SIZE && 0 <= s.unused && 0 < s.ninos
    ensures Covered(s, s.disk, 0)
  {
  }

  /** Writing the superblock after the free map. */
  lemma SuperWritten(s: Sfs, d1: map<nat, Block>, info: seq<byte>)
    requires Counters(s) && Owned(s) && s.unused >= 0 && |info| == INFO_LEN
    requires FreeMapExact(d1, s.nextIno, s.ninos)
    requires forall x: nat :: x in d1 <==> x in s.disk || BLKN_FREEMAP <= x < FirstFree(s.ninos)
    requires forall x | x in s.disk :: d1[x] == s.disk[x]
    ensures MapAndSuper(s, d1[BLKN_SUPER := Pad(SuperBytes(s.ninos, s.unused, info))], info)
  {
    hide SuperBytes, Pad, FreeMapExact;
    MapKeeps(d1, d1[BLKN_SUPER := Pad(SuperBytes(s.ninos, s.unused, info))], s.nextIno, s.ninos);
  }
}
