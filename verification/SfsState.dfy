/** The in-memory state of mksfs (struct sfs_fs, struct cache_inode, struct cache_block)
    and the invariant that every step of a run keeps.

    A cached inode or block is named by the disk block number it was given when it was
    allocated; 0 stands for a NULL pointer, as block 0 is the superblock. */
module SfsState {
  import opened Bytes

  const NDIRECT: nat := 12
  const MAX_NBLKS: nat := 524288
  const MAX_FNAME_LEN: nat := 255
  const BLKBITS: nat := 32768
  const BLK_NENTRY: nat := 1024
  const L1_NBLKS: nat := 1036
  const LN_NBLKS: nat := 32768
  const HASH_LIST_SIZE: nat := 1024

  const BLKN_SUPER: nat := 0
  const BLKN_ROOT: nat := 1
  const BLKN_FREEMAP: nat := 2

  const TYPE_FILE: nat := 1
  const TYPE_DIR: nat := 2
  const TYPE_LINK: nat := 3

  datatype Inode = Inode(
    size: nat, kind: nat, nlinks: nat, blocks: nat,
    direct: seq<nat>, indirect: nat, dbIndirect: nat)

  datatype CacheInode = CacheInode(inode: Inode, hostIno: nat, nblks: nat, l1: nat, l2: nat)

  datatype Sfs = Sfs(
    ninos: nat, nextIno: nat, unused: int,
    inodes: map<nat, CacheInode>, inodeChains: seq<seq<nat>>,
    blocks: map<nat, seq<nat>>, blockChains: seq<seq<nat>>,
    disk: map<nat, Block>)

  /** The first block after the superblock, the root inode and the free map. */
  function FirstFree(ninos: nat): nat {
    BLKN_FREEMAP + (ninos + BLKBITS - 1) / BLKBITS
  }

  function Hash32(val: nat): (h: nat)
    ensures h < HASH_LIST_SIZE
  {
    val % 0x1_0000_0000 * 0x9e370001 % 0x1_0000_0000 / 0x40_0000
  }

  // ---------- the three-level block map ----------

  function Word(tables: map<nat, seq<nat>>, t: nat, i: nat): nat {
    if t in tables && i < |tables[t]| then tables[t][i] else 0
  }

  /** The table blocks an inode can own. */
  datatype Slot = Single | Double | Leaf(j: nat)

  /** The number of the table block in a slot, or 0. */
  function Table(s: Sfs, n: nat, slot: Slot): nat
    requires n in s.inodes
  {
    match slot
    case Single => s.inodes[n].inode.indirect
    case Double => s.inodes[n].inode.dbIndirect
    case Leaf(j) => Word(s.blocks, s.inodes[n].inode.dbIndirect, j)
  }

  /** The disk block that holds block k of inode n. */
  function BlockAt(s: Sfs, n: nat, k: nat): nat
    requires n in s.inodes
  {
    if k < NDIRECT then
      if k < |s.inodes[n].inode.direct| then s.inodes[n].inode.direct[k] else 0
    else if k < L1_NBLKS then Word(s.blocks, Table(s, n, Single), k - NDIRECT)
    else Word(s.blocks, Table(s, n, Leaf((k - L1_NBLKS) / BLK_NENTRY)), (k - L1_NBLKS) % BLK_NENTRY)
  }

  function FileBlocks(s: Sfs, n: nat): (bs: seq<nat>)
    requires n in s.inodes
    ensures |bs| == s.inodes[n].nblks
  {
    seq(s.inodes[n].nblks, k requires k >= 0 => BlockAt(s, n, k))
  }

  /** How many table blocks a file of n blocks needs. */
  function Tables(n: nat): nat {
    if n <= NDIRECT then 0
    else if n <= L1_NBLKS then 1
    else 2 + (n - L1_NBLKS + BLK_NENTRY - 1) / BLK_NENTRY
  }

  /** The tables that the next append to a file of k blocks allocates. */
  function NewTables(k: nat): (n: nat)
    ensures Tables(k + 1) == Tables(k) + n
  {
    if k == NDIRECT then 1
    else if k == L1_NBLKS then 2
    else if k > L1_NBLKS && (k - L1_NBLKS) % BLK_NENTRY == 0 then 1
    else 0
  }

  // ---------- the invariant ----------

  ghost predicate Counters(s: Sfs) {
    && FirstFree(s.ninos) <= s.nextIno <= s.ninos <= MAX_NBLKS
    && s.unused + s.nextIno == s.ninos
    && |s.inodeChains| == |s.blockChains| == HASH_LIST_SIZE
  }

  /** Every block number has exactly one owner. */
  ghost predicate Owned(s: Sfs) {
    && BLKN_ROOT in s.inodes
    && (forall n | n in s.inodes :: n == BLKN_ROOT || FirstFree(s.ninos) <= n < s.nextIno)
    && (forall b | b in s.blocks :: FirstFree(s.ninos) <= b < s.nextIno)
    && (forall d | d in s.disk :: FirstFree(s.ninos) <= d < s.nextIno)
    && s.inodes.Keys !! s.blocks.Keys
    && s.inodes.Keys !! s.disk.Keys
    && s.blocks.Keys !! s.disk.Keys
    && (forall n | FirstFree(s.ninos) <= n < s.nextIno :: n in s.inodes || n in s.blocks || n in s.disk)
  }

  /** The inode's fields and its two cached tables agree with its length. */
  ghost predicate MapOk(s: Sfs, n: nat)
    requires n in s.inodes
  {
    var c := s.inodes[n];
    var k := c.nblks;
    && |c.inode.direct| == NDIRECT
    && c.inode.blocks == k <= LN_NBLKS
    && c.inode.size <= BLKSIZE * k
    && c.inode.nlinks < 0x1_0000
    && (k <= NDIRECT ==> c.inode.indirect == 0)
    && (NDIRECT < k ==> c.inode.indirect in s.blocks)
    && (k <= L1_NBLKS ==> c.inode.dbIndirect == 0 && c.l2 == 0 && c.l1 == c.inode.indirect)
    && (L1_NBLKS < k ==>
          && c.inode.dbIndirect in s.blocks
          && c.l2 == c.inode.dbIndirect
          && c.l1 == Table(s, n, Leaf((k - L1_NBLKS - 1) / BLK_NENTRY))
          && forall j | 0 <= j < BLK_NENTRY ::
               if BLK_NENTRY * j < k - L1_NBLKS then Table(s, n, Leaf(j)) in s.blocks
               else Table(s, n, Leaf(j)) == 0)
  }

  /** own names the one inode and slot that each table block in use belongs to. */
  ghost predicate TableOwners(s: Sfs, own: map<nat, (nat, Slot)>) {
    forall n, a | n in s.inodes && Table(s, n, a) != 0 ::
      Table(s, n, a) in own && own[Table(s, n, a)] == (n, a)
  }

  /** No table block is shared. */
  ghost predicate TablesDistinct(s: Sfs) {
    exists own :: TableOwners(s, own)
  }

  ghost predicate Maps(s: Sfs) {
    && (forall b | b in s.blocks :: |s.blocks[b]| == BLK_NENTRY)
    && (forall n | n in s.inodes :: MapOk(s, n))
    && TablesDistinct(s)
  }

  /** Files consist of written disk blocks. */
  ghost predicate Data(s: Sfs) {
    forall n, k | n in s.inodes && 0 <= k < s.inodes[n].nblks :: BlockAt(s, n, k) in s.disk
  }

  ghost predicate DataOwners(s: Sfs, own: map<nat, (nat, nat)>) {
    forall n, k: nat | n in s.inodes && k < s.inodes[n].nblks ::
      BlockAt(s, n, k) in own && own[BlockAt(s, n, k)] == (n, k)
  }

  /** No disk block belongs to two files, or twice to one. */
  ghost predicate DataDistinct(s: Sfs) {
    exists own :: DataOwners(s, own)
  }

  ghost predicate Descending(chain: seq<nat>) {
    forall i, j | 0 <= i < j < |chain| :: chain[i] > chain[j]
  }

  ghost predicate InBucket(s: Sfs, n: nat, h: nat) {
    n in s.inodes && Hash32(s.inodes[n].hostIno) == h
  }

  /** Bucket h holds exactly the inodes whose host number hashes to h, newest first. */
  ghost predicate InodeChains(s: Sfs) {
    && |s.inodeChains| == HASH_LIST_SIZE
    && (forall h, n | 0 <= h < HASH_LIST_SIZE && n in s.inodeChains[h] :: InBucket(s, n, h))
    && (forall h | 0 <= h < HASH_LIST_SIZE :: Descending(s.inodeChains[h]))
    && (forall n | n in s.inodes :: n in s.inodeChains[Hash32(s.inodes[n].hostIno)])
  }

  /** Every cached block sits in the bucket of 0, whatever its number. */
  ghost predicate BlockChains(s: Sfs) {
    && |s.blockChains| == HASH_LIST_SIZE
    && (forall h | 0 <= h < HASH_LIST_SIZE && h != Hash32(0) :: s.blockChains[h] == [])
    && (forall b :: b in s.blockChains[Hash32(0)] <==> b in s.blocks)
  }

  ghost predicate Inv(s: Sfs) {
    && Counters(s) && Owned(s) && Maps(s) && Data(s) && DataDistinct(s)
    && InodeChains(s) && BlockChains(s)
  }
}
