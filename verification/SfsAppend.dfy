/** append_block at the three levels of the block map, tables included. */
module SfsAppend {
  import opened SfsState
  import opened SfsBlockMap

  /** From s to s', file f gained block blk of size bytes, at the price of the tables that it now needs;
      no other file and no disk block changed. */
  ghost predicate Appended(s: Sfs, s': Sfs, f: nat, size: nat, blk: nat)
    requires f in s.inodes
  {
    && s'.inodes.Keys == s.inodes.Keys
    && (forall n | n in s.inodes && n != f ::
          s'.inodes[n] == s.inodes[n] && FileBlocks(s', n) == FileBlocks(s, n))
    && FileBlocks(s', f) == FileBlocks(s, f) + [blk]
    && s'.inodes[f].hostIno == s.inodes[f].hostIno
    && s'.inodes[f].inode.kind == s.inodes[f].inode.kind
    && s'.inodes[f].inode.nlinks == s.inodes[f].inode.nlinks
    && s'.inodes[f].inode.size == s.inodes[f].inode.size + size
    && s'.ninos == s.ninos && s'.disk == s.disk && s'.inodeChains == s.inodeChains
    && s'.nextIno == s.nextIno + Tables(s.inodes[f].nblks + 1) - Tables(s.inodes[f].nblks)
  }

  /** In every valid state the pointers cached for a file are the tables that its next append needs:
      whenever the number that update_cache is given is not 0, the cached block is the right one,
      and the number is 0 exactly when a table is due. */
  lemma CachedTablesAreCurrent(s: Sfs, f: nat)
    requires Inv(s) && f in s.inodes && NDIRECT <= s.inodes[f].nblks < LN_NBLKS
    ensures s.inodes[f].nblks < L1_NBLKS ==> SingleIsCurrent(s, f)
    ensures s.inodes[f].nblks >= L1_NBLKS ==> DoubleIsCurrent(s, f)
  {
    hide Data, DataDistinct, InodeChains, BlockChains, TablesDistinct;
    assert MapOk(s, f);
    var k := s.inodes[f].nblks;
    if k > L1_NBLKS {
      var j := (k - L1_NBLKS) / BLK_NENTRY;
      assert if BLK_NENTRY * j < k - L1_NBLKS then Table(s, f, Leaf(j)) in s.blocks else Table(s, f, Leaf(j)) == 0;
    }
  }

  lemma TableLengths(s: Sfs, f: nat)
    requires Inv(s) && f in s.inodes
    ensures |s.inodes[f].inode.direct| == NDIRECT
    ensures forall b | b in s.blocks :: |s.blocks[b]| == BLK_NENTRY && b != s.nextIno
    ensures s.nextIno <= s.ninos && |s.inodeChains| == |s.blockChains| == HASH_LIST_SIZE
  {
    assert MapOk(s, f);
  }

  ghost predicate SingleIsCurrent(s: Sfs, f: nat)
    requires f in s.inodes
  {
    var c := s.inodes[f];
    && (c.inode.indirect == 0 <==> c.nblks == NDIRECT)
    && (c.inode.indirect != 0 ==> c.l1 == c.inode.indirect && c.l1 in s.blocks)
  }

  ghost predicate DoubleIsCurrent(s: Sfs, f: nat)
    requires f in s.inodes && L1_NBLKS <= s.inodes[f].nblks
  {
    var c := s.inodes[f];
    var leaf := Table(s, f, Leaf((c.nblks - L1_NBLKS) / BLK_NENTRY));
    && (c.inode.dbIndirect == 0 <==> c.nblks == L1_NBLKS)
    && (c.inode.dbIndirect != 0 ==> c.l2 == c.inode.dbIndirect && c.l2 in s.blocks)
    && (leaf == 0 <==> (c.nblks - L1_NBLKS) % BLK_NENTRY == 0)
    && (leaf != 0 ==> c.l1 == leaf && leaf in s.blocks)
  }

  /** The search branch of update_cache could not have helped: it looks in the bucket of the number,
      and a cached block is found there only if the number hashes like 0. */
  lemma SearchFindsOnlyBucketZero(s: Sfs, b: nat)
    requires Inv(s) && b in s.blocks
    ensures b in s.blockChains[Hash32(b)] <==> Hash32(b) == Hash32(0)
  {
  }

  /** The state after append_block. */
  ghost function AppendResult(s: Sfs, f: nat, size: nat, blk: nat): Sfs
    requires Inv(s) && f in s.inodes && s.inodes[f].nblks < LN_NBLKS
  {
    assert MapOk(s, f);
    var c := s.inodes[f];
    if c.nblks < NDIRECT then PutDirect(s, f, size, blk)
    else if c.nblks < L1_NBLKS then
      if c.inode.indirect == 0 then PutSingle(WithBlock(s), f, size, blk, s.nextIno)
      else PutSingle(s, f, size, blk, c.inode.indirect)
    else
      CachedTablesAreCurrent(s, f);
      if c.inode.dbIndirect == 0 then
        PutDouble(WithBlock(WithBlock(s)), f, size, blk, s.nextIno, s.nextIno + 1)
      else
        var leaf := Table(s, f, Leaf((c.nblks - L1_NBLKS) / BLK_NENTRY));
        if leaf == 0 then PutDouble(WithBlock(s), f, size, blk, c.inode.dbIndirect, s.nextIno)
        else DoubleIsNotLeaf(s, f); PutDouble(s, f, size, blk, c.inode.dbIndirect, leaf)
  }

  /** The last three assignments of append_block. */
  ghost function Grown(s: Sfs, f: nat, size: nat): Sfs
    requires f in s.inodes
  {
    s.(inodes := s.inodes[f := Grow(s.inodes[f], size)])
  }

  /** s2 is s after the allocations that the third level needs, and db and leaf are its tables. */
  ghost predicate DoubleFound(s: Sfs, s2: Sfs, f: nat, db: nat, leaf: nat)
    requires f in s.inodes && L1_NBLKS <= s.inodes[f].nblks && |s.blockChains| == HASH_LIST_SIZE
  {
    var c := s.inodes[f];
    var last := Table(s, f, Leaf((c.nblks - L1_NBLKS) / BLK_NENTRY));
    if c.inode.dbIndirect == 0 then
      s2 == WithBlock(WithBlock(s)) && db == s.nextIno && leaf == s.nextIno + 1
    else if last == 0 then
      s2 == WithBlock(s) && db == c.inode.dbIndirect && leaf == s.nextIno
    else
      s2 == s && db == c.inode.dbIndirect && leaf == last
  }

  /** AppendResult at the third level, in terms of the state s2 after the allocations. */
  lemma DoubleResult(s: Sfs, s2: Sfs, f: nat, size: nat, blk: nat, db: nat, leaf: nat)
    requires Inv(s) && f in s.inodes && L1_NBLKS <= s.inodes[f].nblks < LN_NBLKS
    requires DoubleFound(s, s2, f, db, leaf)
    ensures db in s2.blocks && |s2.blocks[db]| == BLK_NENTRY && leaf != db
    ensures leaf in s2.blocks && |s2.blocks[leaf]| == BLK_NENTRY
    ensures f in s2.inodes && s2.inodes == s.inodes
    ensures AppendResult(s, f, size, blk) == PutDouble(s2, f, size, blk, db, leaf)
  {
    hide Owned, Maps, Data, DataDistinct, InodeChains, BlockChains;
    TableLengths(s, f);
    CachedTablesAreCurrent(s, f);
    DoubleIsNotLeaf(s, f);
  }

  lemma DoubleIsNotLeaf(s: Sfs, f: nat)
    requires Inv(s) && f in s.inodes
    ensures forall j :: Table(s, f, Double) != Table(s, f, Leaf(j)) || Table(s, f, Double) == 0
  {
    var own :| TableOwners(s, own);
  }

  ghost predicate Ready(s: Sfs, f: nat, size: nat, blk: nat) {
    && Inv(s) && Appendable(s, f, size, blk)
    && s.nextIno + Tables(s.inodes[f].nblks + 1) - Tables(s.inodes[f].nblks) <= s.ninos
  }

  lemma WithBlockAppendable(s: Sfs, f: nat, size: nat, blk: nat)
    requires Inv(s) && Appendable(s, f, size, blk) && s.nextIno < s.ninos
    ensures Inv(WithBlock(s)) && Appendable(WithBlock(s), f, size, blk)
    ensures SameFiles(s, WithBlock(s))
    ensures Unreferenced(WithBlock(s), s.nextIno) && s.nextIno !in s.blocks
  {
    hide Data, DataDistinct, InodeChains, BlockChains, Maps;
    WithBlockInv(s);
    WithBlockSame(s);
    assert FileBlocks(WithBlock(s), f) == FileBlocks(s, f);
  }

  lemma AppendSingle(s: Sfs, f: nat, size: nat, blk: nat)
    requires Ready(s, f, size, blk) && NDIRECT <= s.inodes[f].nblks < L1_NBLKS
    ensures Inv(AppendResult(s, f, size, blk))
    ensures Appended(s, AppendResult(s, f, size, blk), f, size, blk)
  {
    hide Owned, Data, DataDistinct, InodeChains, BlockChains, TablesDistinct, Maps, FileBlocks, BlockAt, MapOk;
    CachedTablesAreCurrent(s, f);
    if s.inodes[f].inode.indirect == 0 {
      WithBlockAppendable(s, f, size, blk);
      PutSingleInv(WithBlock(s), f, size, blk, s.nextIno);
    } else {
      PutSingleInv(s, f, size, blk, s.inodes[f].inode.indirect);
    }
  }

  lemma AppendNewDouble(s: Sfs, f: nat, size: nat, blk: nat)
    requires Ready(s, f, size, blk) && s.inodes[f].nblks == L1_NBLKS
    ensures Inv(AppendResult(s, f, size, blk))
    ensures Appended(s, AppendResult(s, f, size, blk), f, size, blk)
  {
    hide Owned, Data, DataDistinct, InodeChains, BlockChains, TablesDistinct, Maps, FileBlocks, BlockAt, MapOk;
    CachedTablesAreCurrent(s, f);
    WithBlockAppendable(s, f, size, blk);
    var s1 := WithBlock(s);
    WithBlockAppendable(s1, f, size, blk);
    WithBlockSame(s1);
    PutDoubleInv(WithBlock(s1), f, size, blk, s.nextIno, s.nextIno + 1);
  }

  lemma AppendNewLeaf(s: Sfs, f: nat, size: nat, blk: nat)
    requires Ready(s, f, size, blk) && L1_NBLKS < s.inodes[f].nblks
    requires (s.inodes[f].nblks - L1_NBLKS) % BLK_NENTRY == 0
    ensures Inv(AppendResult(s, f, size, blk))
    ensures Appended(s, AppendResult(s, f, size, blk), f, size, blk)
  {
    hide Owned, Data, DataDistinct, InodeChains, BlockChains, TablesDistinct, Maps, FileBlocks, BlockAt, MapOk;
    CachedTablesAreCurrent(s, f);
    WithBlockAppendable(s, f, size, blk);
    PutDoubleInv(WithBlock(s), f, size, blk, s.inodes[f].inode.dbIndirect, s.nextIno);
  }

  lemma AppendOldLeaf(s: Sfs, f: nat, size: nat, blk: nat)
    requires Ready(s, f, size, blk) && L1_NBLKS < s.inodes[f].nblks
    requires (s.inodes[f].nblks - L1_NBLKS) % BLK_NENTRY != 0
    ensures Inv(AppendResult(s, f, size, blk))
    ensures Appended(s, AppendResult(s, f, size, blk), f, size, blk)
  {
    hide Owned, Data, DataDistinct, InodeChains, BlockChains, TablesDistinct, Maps, FileBlocks, BlockAt, MapOk;
    CachedTablesAreCurrent(s, f);
    DoubleIsNotLeaf(s, f);
    var leaf := Table(s, f, Leaf((s.inodes[f].nblks - L1_NBLKS) / BLK_NENTRY));
    assert Table(s, f, Double) == s.inodes[f].inode.dbIndirect;
    PutDoubleInv(s, f, size, blk, s.inodes[f].inode.dbIndirect, leaf);
  }

  lemma MapIsOk(s: Sfs, f: nat)
    requires Inv(s) && f in s.inodes
    ensures MapOk(s, f)
  {
  }

  lemma AppendDirect(s: Sfs, f: nat, size: nat, blk: nat)
    requires Ready(s, f, size, blk) && s.inodes[f].nblks < NDIRECT
    ensures Inv(AppendResult(s, f, size, blk))
    ensures Appended(s, AppendResult(s, f, size, blk), f, size, blk)
  {
    TableLengths(s, f);
    MapIsOk(s, f);
    hide Inv, FileBlocks, BlockAt, MapOk, Appendable;
    PutDirectInv(s, f, size, blk);
  }

  /** append_block keeps the invariant and refines appending to the file's list of blocks. */
  lemma AppendRefinesSequence(s: Sfs, f: nat, size: nat, blk: nat)
    requires Ready(s, f, size, blk)
    ensures Inv(AppendResult(s, f, size, blk))
    ensures Appended(s, AppendResult(s, f, size, blk), f, size, blk)
  {
    hide Inv, AppendResult, Appended;
    var k := s.inodes[f].nblks;
    if k < NDIRECT {
      AppendDirect(s, f, size, blk);
    } else if k < L1_NBLKS {
      AppendSingle(s, f, size, blk);
    } else if k == L1_NBLKS {
      AppendNewDouble(s, f, size, blk);
    } else if (k - L1_NBLKS) % BLK_NENTRY == 0 {
      AppendNewLeaf(s, f, size, blk);
    } else {
      AppendOldLeaf(s, f, size, blk);
    }
  }
}
