/** append_block grows one file's three-level block map by one block and disturbs no other file. */
module SfsBlockMap {
  import opened Bytes
  import opened SfsState

  function ZeroTable(): (t: seq<nat>)
    ensures |t| == BLK_NENTRY
    ensures forall i | 0 <= i < BLK_NENTRY :: t[i] == 0
  {
    seq(BLK_NENTRY, _ => 0)
  }

  function Put(t: seq<nat>, i: nat, v: nat): seq<nat>
    requires i < |t|
  {
    t[i := v]
  }

  // ---------- the elementary state changes ----------

  /** alloc_cache_block(sfs, 0) when a block is left. */
  function WithBlock(s: Sfs): Sfs
    requires |s.blockChains| == HASH_LIST_SIZE
  {
    s.(nextIno := s.nextIno + 1, unused := s.unused - 1,
       blocks := s.blocks[s.nextIno := ZeroTable()],
       blockChains := s.blockChains[Hash32(0) := [s.nextIno] + s.blockChains[Hash32(0)]])
  }

  /** sfs_alloc_ino followed by write_block on the new number. */
  function WithData(s: Sfs, b: Block): Sfs {
    s.(nextIno := s.nextIno + 1, unused := s.unused - 1, disk := s.disk[s.nextIno := b])
  }

  function NewInode(hostIno: nat, kind: nat): CacheInode {
    CacheInode(Inode(0, kind, 0, 0, seq(NDIRECT, _ => 0), 0, 0), hostIno, 0, 0, 0)
  }

  /** alloc_cache_inode(sfs, hostIno, 0, kind) when a block is left. */
  function WithInode(s: Sfs, hostIno: nat, kind: nat): Sfs
    requires |s.inodeChains| == HASH_LIST_SIZE
  {
    var h := Hash32(hostIno);
    s.(nextIno := s.nextIno + 1, unused := s.unused - 1,
       inodes := s.inodes[s.nextIno := NewInode(hostIno, kind)],
       inodeChains := s.inodeChains[h := [s.nextIno] + s.inodeChains[h]])
  }

  function Grow(c: CacheInode, size: nat): CacheInode {
    c.(nblks := c.nblks + 1, inode := c.inode.(size := c.inode.size + size, blocks := c.inode.blocks + 1))
  }

  function PutDirect(s: Sfs, f: nat, size: nat, blk: nat): Sfs
    requires f in s.inodes && s.inodes[f].nblks < |s.inodes[f].inode.direct|
  {
    var c := s.inodes[f];
    var c' := c.(inode := c.inode.(direct := c.inode.direct[c.nblks := blk]));
    s.(inodes := s.inodes[f := Grow(c', size)])
  }

  function PutSingle(s: Sfs, f: nat, size: nat, blk: nat, t: nat): Sfs
    requires f in s.inodes && NDIRECT <= s.inodes[f].nblks < L1_NBLKS
    requires t in s.blocks && |s.blocks[t]| == BLK_NENTRY
  {
    var c := s.inodes[f];
    var c' := c.(l1 := t, inode := c.inode.(indirect := t));
    s.(inodes := s.inodes[f := Grow(c', size)],
       blocks := s.blocks[t := Put(s.blocks[t], c.nblks - NDIRECT, blk)])
  }

  function PutDouble(s: Sfs, f: nat, size: nat, blk: nat, db: nat, leaf: nat): Sfs
    requires f in s.inodes && L1_NBLKS <= s.inodes[f].nblks < LN_NBLKS
    requires db in s.blocks && |s.blocks[db]| == BLK_NENTRY
    requires leaf != db && leaf in s.blocks && |s.blocks[leaf]| == BLK_NENTRY
  {
    var c := s.inodes[f];
    var m := c.nblks - L1_NBLKS;
    var c' := c.(l1 := leaf, l2 := db, inode := c.inode.(dbIndirect := db));
    var blocks1 := s.blocks[db := Put(s.blocks[db], m / BLK_NENTRY, leaf)];
    s.(inodes := s.inodes[f := Grow(c', size)],
       blocks := blocks1[leaf := Put(s.blocks[leaf], m % BLK_NENTRY, blk)])
  }

  // ---------- allocation keeps the invariant ----------

  ghost predicate Unreferenced(s: Sfs, t: nat) {
    forall n, a | n in s.inodes :: Table(s, n, a) != t
  }

  lemma TableIsCached(s: Sfs, n: nat, a: Slot)
    requires Maps(s) && Owned(s) && n in s.inodes
    ensures Table(s, n, a) == 0 || Table(s, n, a) in s.blocks
  {
    assert MapOk(s, n);
  }

  ghost predicate NamedBy(s: Sfs, f: nat, t: nat)
    requires f in s.inodes
  {
    exists a :: Table(s, f, a) == t
  }

  /** The map of inode n depends only on the tables that it names. */
  lemma FrameTable(s: Sfs, s': Sfs, n: nat, a: Slot)
    requires Maps(s) && Owned(s) && n in s.inodes
    requires n in s'.inodes && s'.inodes[n] == s.inodes[n]
    requires forall b | b in s.blocks && NamedBy(s, n, b) :: b in s'.blocks && s'.blocks[b] == s.blocks[b]
    requires 0 !in s'.blocks
    ensures Table(s', n, a) == Table(s, n, a)
  {
    TableIsCached(s, n, Double);
    assert NamedBy(s, n, Table(s, n, Double));
  }

  lemma FrameBlockAt(s: Sfs, s': Sfs, n: nat, k: nat)
    requires Maps(s) && Owned(s) && n in s.inodes
    requires n in s'.inodes && s'.inodes[n] == s.inodes[n]
    requires forall b | b in s.blocks && NamedBy(s, n, b) :: b in s'.blocks && s'.blocks[b] == s.blocks[b]
    requires 0 !in s'.blocks
    ensures BlockAt(s', n, k) == BlockAt(s, n, k)
  {
    if k >= NDIRECT {
      var a := if k < L1_NBLKS then Single else Leaf((k - L1_NBLKS) / BLK_NENTRY);
      FrameTable(s, s', n, a);
      TableIsCached(s, n, a);
      assert NamedBy(s, n, Table(s, n, a));
    }
  }

  lemma FrameTables(s: Sfs, s': Sfs, n: nat)
    requires Maps(s) && Owned(s) && n in s.inodes
    requires n in s'.inodes && s'.inodes[n] == s.inodes[n]
    requires forall b | b in s.blocks && NamedBy(s, n, b) :: b in s'.blocks && s'.blocks[b] == s.blocks[b]
    requires 0 !in s'.blocks
    ensures forall a :: Table(s', n, a) == Table(s, n, a)
    ensures forall k: nat :: BlockAt(s', n, k) == BlockAt(s, n, k)
    ensures FileBlocks(s', n) == FileBlocks(s, n)
    ensures (forall b | b in s.blocks :: b in s'.blocks) ==> MapOk(s', n)
  {
    hide Owned, NamedBy, TablesDistinct;
    forall a
      ensures Table(s', n, a) == Table(s, n, a)
    {
      FrameTable(s, s', n, a);
    }
    forall k: nat
      ensures BlockAt(s', n, k) == BlockAt(s, n, k)
    {
      FrameBlockAt(s, s', n, k);
    }
    assert MapOk(s, n);
  }

  ghost predicate SameFiles(s: Sfs, s': Sfs) {
    forall n | n in s.inodes ::
      && n in s'.inodes && s'.inodes[n] == s.inodes[n]
      && (forall a :: Table(s', n, a) == Table(s, n, a))
      && (forall k: nat :: BlockAt(s', n, k) == BlockAt(s, n, k))
      && FileBlocks(s', n) == FileBlocks(s, n)
      && MapOk(s', n)
  }

  lemma WithBlockSame(s: Sfs)
    requires Inv(s) && s.nextIno < s.ninos
    ensures SameFiles(s, WithBlock(s))
    ensures Unreferenced(WithBlock(s), s.nextIno)
    ensures forall t | Unreferenced(s, t) :: Unreferenced(WithBlock(s), t)
  {
    var s' := WithBlock(s);
    forall n | n in s.inodes
      ensures FileBlocks(s', n) == FileBlocks(s, n)
      ensures MapOk(s', n)
      ensures forall a :: Table(s', n, a) == Table(s, n, a)
      ensures forall k: nat :: BlockAt(s', n, k) == BlockAt(s, n, k)
    {
      FrameTables(s, s', n);
    }
    forall n, a | n in s.inodes
      ensures Table(s', n, a) != s.nextIno
    {
      TableIsCached(s, n, a);
    }
  }

  lemma SameFilesInv(s: Sfs, s': Sfs)
    requires Maps(s) && Data(s) && DataDistinct(s)
    requires SameFiles(s, s') && s'.inodes.Keys == s.inodes.Keys
    requires forall d | d in s.disk :: d in s'.disk
    requires forall b | b in s'.blocks :: |s'.blocks[b]| == BLK_NENTRY
    ensures Maps(s') && Data(s') && DataDistinct(s')
  {
    var own :| TableOwners(s, own);
    assert TableOwners(s', own);
    var downs :| DataOwners(s, downs);
    assert DataOwners(s', downs);
  }

  lemma WithBlockChains(s: Sfs)
    requires BlockChains(s)
    ensures BlockChains(WithBlock(s))
  {
  }

  /** Handing the next block number to one owner keeps the partition. */
  lemma OwnedExtends(s: Sfs, s': Sfs)
    requires Counters(s) && Owned(s) && s.nextIno < s.ninos
    requires s'.ninos == s.ninos && s'.nextIno == s.nextIno + 1 && s'.unused == s.unused - 1
    requires |s'.inodeChains| == |s'.blockChains| == HASH_LIST_SIZE
    requires
      || (&& s'.inodes.Keys == s.inodes.Keys + {s.nextIno}
          && s'.blocks.Keys == s.blocks.Keys && s'.disk.Keys == s.disk.Keys)
      || (&& s'.blocks.Keys == s.blocks.Keys + {s.nextIno}
          && s'.inodes.Keys == s.inodes.Keys && s'.disk.Keys == s.disk.Keys)
      || (&& s'.disk.Keys == s.disk.Keys + {s.nextIno}
          && s'.inodes.Keys == s.inodes.Keys && s'.blocks.Keys == s.blocks.Keys)
    ensures Counters(s') && Owned(s')
  {
  }

  lemma WithBlockInv(s: Sfs)
    requires Inv(s) && s.nextIno < s.ninos
    ensures Inv(WithBlock(s))
  {
    WithBlockSame(s);
    SameFilesInv(s, WithBlock(s));
    WithBlockChains(s);
    OwnedExtends(s, WithBlock(s));
  }

  lemma WithDataSame(s: Sfs, b: Block)
    requires Maps(s) && Owned(s)
    ensures SameFiles(s, WithData(s, b))
  {
    var s' := WithData(s, b);
    forall n | n in s.inodes
      ensures FileBlocks(s', n) == FileBlocks(s, n)
      ensures MapOk(s', n)
      ensures forall a :: Table(s', n, a) == Table(s, n, a)
      ensures forall k: nat :: BlockAt(s', n, k) == BlockAt(s, n, k)
    {
      FrameTables(s, s', n);
    }
  }

  lemma WithDataInv(s: Sfs, b: Block)
    requires Inv(s) && s.nextIno < s.ninos
    ensures Inv(WithData(s, b))
    ensures SameFiles(s, WithData(s, b))
  {
    WithDataSame(s, b);
    SameFilesInv(s, WithData(s, b));
    OwnedExtends(s, WithData(s, b));
  }

  /** A block number fresh from the allocator belongs to no file. */
  lemma WithDataFresh(s: Sfs, b: Block)
    requires Inv(s) && s.nextIno < s.ninos
    ensures Inv(WithData(s, b))
    ensures forall n | n in s.inodes :: s.nextIno !in FileBlocks(WithData(s, b), n)
  {
    WithDataInv(s, b);
    hide Maps, DataDistinct, InodeChains, BlockChains;
  }

  lemma WithInodeSame(s: Sfs, hostIno: nat, kind: nat)
    requires Inv(s) && s.nextIno < s.ninos
    ensures SameFiles(s, WithInode(s, hostIno, kind))
    ensures FileBlocks(WithInode(s, hostIno, kind), s.nextIno) == []
    ensures MapOk(WithInode(s, hostIno, kind), s.nextIno)
    ensures forall a :: Table(WithInode(s, hostIno, kind), s.nextIno, a) == 0
  {
    var s' := WithInode(s, hostIno, kind);
    forall n | n in s.inodes
      ensures FileBlocks(s', n) == FileBlocks(s, n)
      ensures MapOk(s', n)
      ensures forall a :: Table(s', n, a) == Table(s, n, a)
      ensures forall k: nat :: BlockAt(s', n, k) == BlockAt(s, n, k)
    {
      FrameTables(s, s', n);
    }
  }

  lemma WithInodeChains(s: Sfs, hostIno: nat, kind: nat)
    requires InodeChains(s)
    requires forall n | n in s.inodes :: n < s.nextIno
    ensures InodeChains(WithInode(s, hostIno, kind))
  {
    var s' := WithInode(s, hostIno, kind);
    var h' := Hash32(hostIno);
    forall h, n | 0 <= h < HASH_LIST_SIZE && n in s'.inodeChains[h]
      ensures InBucket(s', n, h)
    {
      if h == h' && n == s.nextIno {
      } else {
        assert n in s.inodeChains[h];
        assert InBucket(s, n, h);
      }
    }
    forall h | 0 <= h < HASH_LIST_SIZE
      ensures Descending(s'.inodeChains[h])
    {
      assert Descending(s.inodeChains[h]);
      if h == h' {
        forall i | 0 <= i < |s.inodeChains[h]|
          ensures s.inodeChains[h][i] < s.nextIno
        {
          assert InBucket(s, s.inodeChains[h][i], h);
        }
      }
    }
    forall n | n in s'.inodes
      ensures n in s'.inodeChains[Hash32(s'.inodes[n].hostIno)]
    {
      if n == s.nextIno {
      } else {
        assert n in s.inodeChains[Hash32(s.inodes[n].hostIno)];
      }
    }
  }

  lemma WithInodeMaps(s: Sfs, s': Sfs, new_: nat)
    requires Maps(s) && Data(s) && DataDistinct(s)
    requires SameFiles(s, s') && s'.inodes.Keys == s.inodes.Keys + {new_}
    requires MapOk(s', new_) && s'.inodes[new_].nblks == 0
    requires forall a :: Table(s', new_, a) == 0
    requires s'.blocks == s.blocks && s'.disk == s.disk
    ensures Maps(s') && Data(s') && DataDistinct(s')
  {
    var own :| TableOwners(s, own);
    assert TableOwners(s', own);
    var downs :| DataOwners(s, downs);
    assert DataOwners(s', downs);
  }

  lemma WithInodeInv(s: Sfs, hostIno: nat, kind: nat)
    requires Inv(s) && s.nextIno < s.ninos
    ensures Inv(WithInode(s, hostIno, kind))
  {
    var s' := WithInode(s, hostIno, kind);
    assert Maps(s') && Data(s') && DataDistinct(s') by {
      WithInodeSame(s, hostIno, kind);
      WithInodeMaps(s, s', s.nextIno);
    }
    WithInodeChains(s, hostIno, kind);
    OwnedExtends(s, s');
  }

  // ---------- appending a block keeps the invariant and extends one file ----------

  /** From s to s', file f gained block blk (of size bytes) and nothing else changed. */
  ghost predicate Extended(s: Sfs, s': Sfs, f: nat, size: nat, blk: nat)
    requires f in s.inodes
  {
    && s'.inodes.Keys == s.inodes.Keys
    && (forall n | n in s.inodes && n != f ::
          s'.inodes[n] == s.inodes[n] && FileBlocks(s', n) == FileBlocks(s, n))
    && FileBlocks(s', f) == FileBlocks(s, f) + [blk]
    && s'.inodes[f].hostIno == s.inodes[f].hostIno
    && s'.inodes[f].inode.kind == s.inodes[f].inode.kind
    && s'.inodes[f].inode.nlinks == s.inodes[f].inode.nlinks
    && s'.inodes[f].inode.size == s.inodes[f].inode.size + size
    && s'.ninos == s.ninos && s'.nextIno == s.nextIno && s'.unused == s.unused
    && s'.blocks.Keys == s.blocks.Keys && s'.disk == s.disk
    && s'.inodeChains == s.inodeChains && s'.blockChains == s.blockChains
  }

  ghost predicate Appendable(s: Sfs, f: nat, size: nat, blk: nat) {
    && f in s.inodes && size <= BLKSIZE
    && s.inodes[f].nblks < LN_NBLKS
    && blk in s.disk
    && forall n | n in s.inodes :: blk !in FileBlocks(s, n)
  }

  lemma ExtendedChains(s: Sfs, s': Sfs, f: nat, size: nat, blk: nat)
    requires InodeChains(s) && BlockChains(s) && f in s.inodes && Extended(s, s', f, size, blk)
    ensures InodeChains(s') && BlockChains(s')
  {
    forall h, n | 0 <= h < HASH_LIST_SIZE && n in s'.inodeChains[h]
      ensures InBucket(s', n, h)
    {
      assert InBucket(s, n, h);
    }
  }

  /** The part common to the three levels: what the files other than f and the counters need. */
  lemma ExtendedInv(s: Sfs, s': Sfs, f: nat, size: nat, blk: nat)
    requires Inv(s) && Appendable(s, f, size, blk) && Extended(s, s', f, size, blk)
    requires Maps(s')
    ensures Inv(s')
  {
    ExtendedData(s, s', f, size, blk);
    ExtendedChains(s, s', f, size, blk);
  }

  lemma ExtendedData(s: Sfs, s': Sfs, f: nat, size: nat, blk: nat)
    requires Data(s) && DataDistinct(s)
    requires Appendable(s, f, size, blk) && Extended(s, s', f, size, blk)
    ensures Data(s') && DataDistinct(s')
  {
    forall n, k: nat | n in s'.inodes && k < s'.inodes[n].nblks
      ensures if k < s.inodes[n].nblks then BlockAt(s', n, k) == BlockAt(s, n, k) != blk
              else n == f && k == s.inodes[f].nblks && BlockAt(s', n, k) == blk
    {
      assert BlockAt(s', n, k) == FileBlocks(s', n)[k];
      if k < s.inodes[n].nblks {
        assert FileBlocks(s, n)[k] == BlockAt(s, n, k);
      }
    }
    var own :| DataOwners(s, own);
    assert DataOwners(s', own[blk := (f, s.inodes[f].nblks)]);
  }

  /** Files other than f keep their maps when the only tables that change are f's own or nobody's. */
  lemma OthersKeep(s: Sfs, s': Sfs, f: nat, changed: set<nat>)
    requires Maps(s) && Owned(s) && f in s.inodes
    requires s'.inodes.Keys == s.inodes.Keys && s'.blocks.Keys == s.blocks.Keys
    requires forall n | n in s.inodes && n != f :: s'.inodes[n] == s.inodes[n]
    requires forall b | b in s.blocks && b !in changed :: s'.blocks[b] == s.blocks[b]
    requires forall b | b in changed :: b != 0 && (Unreferenced(s, b) || NamedBy(s, f, b))
    ensures forall n | n in s.inodes && n != f ::
              && FileBlocks(s', n) == FileBlocks(s, n) && MapOk(s', n)
              && forall a :: Table(s', n, a) == Table(s, n, a)
  {
    forall n | n in s.inodes && n != f
      ensures FileBlocks(s', n) == FileBlocks(s, n) && MapOk(s', n)
      ensures forall a :: Table(s', n, a) == Table(s, n, a)
    {
      assert forall a :: Table(s, n, a) !in changed by {
        var own :| TableOwners(s, own);
      }
      FrameTables(s, s', n);
    }
  }

  lemma PutDirectMaps(s: Sfs, f: nat, size: nat, blk: nat)
    requires Maps(s) && Owned(s) && Appendable(s, f, size, blk) && s.inodes[f].nblks < NDIRECT && MapOk(s, f)
    ensures Maps(PutDirect(s, f, size, blk))
    ensures Extended(s, PutDirect(s, f, size, blk), f, size, blk)
  {
    hide Owned;
    var s' := PutDirect(s, f, size, blk);
    OthersKeep(s, s', f, {});
    assert forall a :: Table(s', f, a) == Table(s, f, a);
    var own :| TableOwners(s, own);
    assert TableOwners(s', own);
    assert FileBlocks(s', f) == FileBlocks(s, f) + [blk];
  }

  lemma PutDirectInv(s: Sfs, f: nat, size: nat, blk: nat)
    requires Inv(s) && Appendable(s, f, size, blk) && s.inodes[f].nblks < NDIRECT && MapOk(s, f)
    ensures Inv(PutDirect(s, f, size, blk))
    ensures Extended(s, PutDirect(s, f, size, blk), f, size, blk)
  {
    PutDirectMaps(s, f, size, blk);
    ExtendedInv(s, PutDirect(s, f, size, blk), f, size, blk);
  }

  ghost predicate SingleTable(s: Sfs, f: nat, t: nat)
    requires f in s.inodes
  {
    && t in s.blocks
    && (t == s.inodes[f].inode.indirect || (s.inodes[f].inode.indirect == 0 && Unreferenced(s, t)))
  }

  lemma PutSingleBlocks(s: Sfs, f: nat, size: nat, blk: nat, t: nat)
    requires Maps(s) && Owned(s) && Appendable(s, f, size, blk) && NDIRECT <= s.inodes[f].nblks < L1_NBLKS
    requires SingleTable(s, f, t)
    ensures var s' := PutSingle(s, f, size, blk, t);
            && FileBlocks(s', f) == FileBlocks(s, f) + [blk] && MapOk(s', f)
            && forall a | a != Single :: Table(s', f, a) == Table(s, f, a) == 0
  {
    assert MapOk(s, f);
  }

  lemma PutSingleMaps(s: Sfs, f: nat, size: nat, blk: nat, t: nat)
    requires Maps(s) && Owned(s) && Appendable(s, f, size, blk) && NDIRECT <= s.inodes[f].nblks < L1_NBLKS
    requires SingleTable(s, f, t)
    ensures Maps(PutSingle(s, f, size, blk, t))
    ensures Extended(s, PutSingle(s, f, size, blk, t), f, size, blk)
  {
    var s' := PutSingle(s, f, size, blk, t);
    assert Table(s, f, Single) == s.inodes[f].inode.indirect;
    OthersKeep(s, s', f, {t});
    PutSingleBlocks(s, f, size, blk, t);
    PutSingleDistinct(s, s', f, t);
  }

  lemma PutSingleInv(s: Sfs, f: nat, size: nat, blk: nat, t: nat)
    requires Inv(s) && Appendable(s, f, size, blk) && NDIRECT <= s.inodes[f].nblks < L1_NBLKS
    requires SingleTable(s, f, t)
    ensures Inv(PutSingle(s, f, size, blk, t))
    ensures Extended(s, PutSingle(s, f, size, blk, t), f, size, blk)
  {
    PutSingleMaps(s, f, size, blk, t);
    ExtendedInv(s, PutSingle(s, f, size, blk, t), f, size, blk);
  }

  lemma PutSingleDistinct(s: Sfs, s': Sfs, f: nat, t: nat)
    requires TablesDistinct(s) && f in s.inodes && s'.inodes.Keys == s.inodes.Keys
    requires forall n, a | n in s.inodes && n != f :: Table(s', n, a) == Table(s, n, a)
    requires forall a | a != Single :: Table(s', f, a) == Table(s, f, a)
    requires Table(s', f, Single) == t
    requires Table(s, f, Single) == t || Unreferenced(s, t)
    ensures TablesDistinct(s')
  {
    var own :| TableOwners(s, own);
    assert TableOwners(s', own[t := (f, Single)]);
  }

  /** The two tables through which block m (counted from the first double-indirect one) is reached. */
  ghost predicate DoubleTables(s: Sfs, f: nat, db: nat, leaf: nat)
    requires f in s.inodes && L1_NBLKS <= s.inodes[f].nblks < LN_NBLKS
  {
    var j := (s.inodes[f].nblks - L1_NBLKS) / BLK_NENTRY;
    && db in s.blocks && leaf in s.blocks && db != leaf
    && (if s.inodes[f].inode.dbIndirect != 0 then db == s.inodes[f].inode.dbIndirect
        else Unreferenced(s, db) && s.blocks[db] == ZeroTable())
    && (if Word(s.blocks, db, j) != 0 then leaf == Word(s.blocks, db, j)
        else Unreferenced(s, leaf))
  }

  lemma PutDoubleSlots(s: Sfs, f: nat, size: nat, blk: nat, db: nat, leaf: nat)
    requires Maps(s) && Owned(s) && Appendable(s, f, size, blk) && L1_NBLKS <= s.inodes[f].nblks
    requires DoubleTables(s, f, db, leaf)
    ensures var s' := PutDouble(s, f, size, blk, db, leaf);
            var j := (s.inodes[f].nblks - L1_NBLKS) / BLK_NENTRY;
            && Table(s', f, Single) == Table(s, f, Single)
            && Table(s', f, Double) == db
            && Table(s', f, Leaf(j)) == leaf
            && forall i | i != j :: Table(s', f, Leaf(i)) == Table(s, f, Leaf(i))
  {
    assert MapOk(s, f);
  }

  lemma PutDoubleDistinct(s: Sfs, s': Sfs, f: nat, db: nat, leaf: nat, j: nat)
    requires TablesDistinct(s) && f in s.inodes && s'.inodes.Keys == s.inodes.Keys
    requires forall n, a | n in s.inodes && n != f :: Table(s', n, a) == Table(s, n, a)
    requires Table(s', f, Single) == Table(s, f, Single) && Table(s', f, Double) == db && Table(s', f, Leaf(j)) == leaf
    requires forall i | i != j :: Table(s', f, Leaf(i)) == Table(s, f, Leaf(i))
    requires db != leaf
    requires Table(s, f, Double) == db || Unreferenced(s, db)
    requires Table(s, f, Leaf(j)) == leaf || Unreferenced(s, leaf)
    ensures TablesDistinct(s')
  {
    var own :| TableOwners(s, own);
    var own' := own[db := (f, Double)][leaf := (f, Leaf(j))];
    forall n, a | n in s'.inodes && Table(s', n, a) != 0
      ensures Table(s', n, a) in own' && own'[Table(s', n, a)] == (n, a)
    {
      if n == f && (a == Double || a == Leaf(j)) {
      } else {
        assert Table(s', n, a) == Table(s, n, a);
      }
    }
    assert TableOwners(s', own');
  }

  /** f's other tables are not the two that this append writes to. */
  lemma DoubleTablesApart(s: Sfs, f: nat, db: nat, leaf: nat, a: Slot)
    requires TablesDistinct(s) && f in s.inodes && L1_NBLKS <= s.inodes[f].nblks < LN_NBLKS
    requires DoubleTables(s, f, db, leaf)
    requires a != Double && a != Leaf((s.inodes[f].nblks - L1_NBLKS) / BLK_NENTRY) && Table(s, f, a) != 0
    requires s.inodes[f].inode.dbIndirect == 0 ==> a == Single
    ensures Table(s, f, a) != db && Table(s, f, a) != leaf
  {
    var own :| TableOwners(s, own);
    var j := (s.inodes[f].nblks - L1_NBLKS) / BLK_NENTRY;
    assert Table(s, f, Double) == db || Unreferenced(s, db);
    assert Table(s, f, Leaf(j)) == leaf || Unreferenced(s, leaf);
  }

  lemma PutDoubleOldBlock(s: Sfs, f: nat, size: nat, blk: nat, db: nat, leaf: nat, q: nat)
    requires Maps(s) && Owned(s) && Appendable(s, f, size, blk) && L1_NBLKS <= s.inodes[f].nblks
    requires DoubleTables(s, f, db, leaf)
    requires L1_NBLKS <= q < s.inodes[f].nblks
    ensures BlockAt(PutDouble(s, f, size, blk, db, leaf), f, q) == BlockAt(s, f, q)
  {
    hide TablesDistinct, FileBlocks, Unreferenced;
    var i := (q - L1_NBLKS) / BLK_NENTRY;
    assert MapOk(s, f);
    PutDoubleSlots(s, f, size, blk, db, leaf);
    assert BLK_NENTRY * i < s.inodes[f].nblks - L1_NBLKS;
    assert Table(s, f, Leaf(i)) in s.blocks;
    hide MapOk;
    if i != (s.inodes[f].nblks - L1_NBLKS) / BLK_NENTRY {
      DoubleTablesApart(s, f, db, leaf, Leaf(i));
    }
  }

  lemma PutDoubleBlockAt(s: Sfs, f: nat, size: nat, blk: nat, db: nat, leaf: nat, q: nat)
    requires Maps(s) && Owned(s) && Appendable(s, f, size, blk) && L1_NBLKS <= s.inodes[f].nblks
    requires DoubleTables(s, f, db, leaf)
    requires q <= s.inodes[f].nblks
    ensures BlockAt(PutDouble(s, f, size, blk, db, leaf), f, q)
         == if q == s.inodes[f].nblks then blk else BlockAt(s, f, q)
  {
    if L1_NBLKS <= q < s.inodes[f].nblks {
      PutDoubleOldBlock(s, f, size, blk, db, leaf, q);
    } else {
      assert MapOk(s, f);
      PutDoubleSlots(s, f, size, blk, db, leaf);
      DoubleTablesApart(s, f, db, leaf, Single);
    }
  }

  lemma PutDoubleMapOk(s: Sfs, f: nat, size: nat, blk: nat, db: nat, leaf: nat)
    requires Maps(s) && Owned(s) && Appendable(s, f, size, blk) && L1_NBLKS <= s.inodes[f].nblks
    requires DoubleTables(s, f, db, leaf)
    ensures MapOk(PutDouble(s, f, size, blk, db, leaf), f)
  {
    assert MapOk(s, f);
    PutDoubleSlots(s, f, size, blk, db, leaf);
  }

  lemma PutDoubleBlocks(s: Sfs, f: nat, size: nat, blk: nat, db: nat, leaf: nat)
    requires Maps(s) && Owned(s) && Appendable(s, f, size, blk) && L1_NBLKS <= s.inodes[f].nblks
    requires DoubleTables(s, f, db, leaf)
    ensures FileBlocks(PutDouble(s, f, size, blk, db, leaf), f) == FileBlocks(s, f) + [blk]
  {
    var s' := PutDouble(s, f, size, blk, db, leaf);
    forall q: nat | q <= s.inodes[f].nblks
      ensures FileBlocks(s', f)[q] == (FileBlocks(s, f) + [blk])[q]
    {
      PutDoubleBlockAt(s, f, size, blk, db, leaf, q);
    }
  }

  lemma PutDoubleOthers(s: Sfs, f: nat, size: nat, blk: nat, db: nat, leaf: nat)
    requires Maps(s) && Owned(s) && Appendable(s, f, size, blk) && L1_NBLKS <= s.inodes[f].nblks
    requires DoubleTables(s, f, db, leaf)
    ensures var s' := PutDouble(s, f, size, blk, db, leaf);
            && TablesDistinct(s')
            && forall n | n in s.inodes && n != f :: FileBlocks(s', n) == FileBlocks(s, n) && MapOk(s', n)
  {
    hide MapOk, FileBlocks, BlockAt, TablesDistinct;
    var s' := PutDouble(s, f, size, blk, db, leaf);
    var j := (s.inodes[f].nblks - L1_NBLKS) / BLK_NENTRY;
    assert Table(s, f, Double) == db || Unreferenced(s, db);
    assert Table(s, f, Leaf(j)) == leaf || Unreferenced(s, leaf);
    OthersKeep(s, s', f, {db, leaf});
    assert TablesDistinct(s') by {
      PutDoubleSlots(s, f, size, blk, db, leaf);
      PutDoubleDistinct(s, s', f, db, leaf, j);
    }
  }

  lemma PutDoubleMaps(s: Sfs, f: nat, size: nat, blk: nat, db: nat, leaf: nat)
    requires Maps(s) && Owned(s) && Appendable(s, f, size, blk) && L1_NBLKS <= s.inodes[f].nblks
    requires DoubleTables(s, f, db, leaf)
    ensures Maps(PutDouble(s, f, size, blk, db, leaf))
    ensures Extended(s, PutDouble(s, f, size, blk, db, leaf), f, size, blk)
  {
    hide Owned, TablesDistinct;
    PutDoubleBlocks(s, f, size, blk, db, leaf);
    PutDoubleMapOk(s, f, size, blk, db, leaf);
    PutDoubleOthers(s, f, size, blk, db, leaf);
  }

  lemma PutDoubleInv(s: Sfs, f: nat, size: nat, blk: nat, db: nat, leaf: nat)
    requires Inv(s) && Appendable(s, f, size, blk) && L1_NBLKS <= s.inodes[f].nblks
    requires DoubleTables(s, f, db, leaf)
    ensures Inv(PutDouble(s, f, size, blk, db, leaf))
    ensures Extended(s, PutDouble(s, f, size, blk, db, leaf), f, size, blk)
  {
    PutDoubleMaps(s, f, size, blk, db, leaf);
    ExtendedInv(s, PutDouble(s, f, size, blk, db, leaf), f, size, blk);
  }
}
