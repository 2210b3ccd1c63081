/** The link counts of an image, read from its bytes alone. */
module SfsCounts {
  import opened Bytes
  import opened SfsState
  import opened SfsTree
  import opened SfsLinks
  import opened SfsReach
  import opened SfsDecode

  /** How many of the first k entries of a directory name inode t. */
  function DiskNamed(d: map<nat, Block>, dir: Inode, k: nat, t: nat): nat {
    if k == 0 then 0 else
      var b := DiskBlockAt(d, dir, k - 1);
      DiskNamed(d, dir, k - 1, t) + if b in d && EntryIno(d[b]) == t then 1 else 0
  }

  predicate DiskDir(d: map<nat, Block>, nodes: set<nat>, n: nat) {
    n in nodes && n in d && ReadInode(d[n]).kind == TYPE_DIR
  }

  /** How many entries name t in the directories among nodes that are below hi. */
  function DiskNaming(d: map<nat, Block>, nodes: set<nat>, t: nat, hi: nat): nat {
    if hi == 0 then 0 else
      DiskNaming(d, nodes, t, hi - 1)
      + if DiskDir(d, nodes, hi - 1) then DiskNamed(d, ReadInode(d[hi - 1]), ReadInode(d[hi - 1]).blocks, t) else 0
  }

  /** Entries of directory n name inodes in nodes. */
  ghost predicate EntriesIn(d: map<nat, Block>, nodes: set<nat>, n: nat)
    requires n in d
  {
    var dir := ReadInode(d[n]);
    forall k: nat | k < dir.blocks ::
      var b := DiskBlockAt(d, dir, k); b in d && EntryIno(d[b]) in nodes
  }

  /** Directory n of the image has an entry for inode m. */
  ghost predicate DiskNames(d: map<nat, Block>, n: nat, m: nat) {
    && n in d && ReadInode(d[n]).kind == TYPE_DIR
    && exists k: nat :: k < ReadInode(d[n]).blocks && EntryFor(d, DiskBlockAt(d, ReadInode(d[n]), k), m)
  }

  ghost predicate DiskBelow(d: map<nat, Block>, a: nat, n: nat, steps: nat)
    decreases steps
  {
    if steps == 0 then a == n else exists m :: DiskNames(d, a, m) && DiskBelow(d, m, n, steps - 1)
  }

  /** Directory entries of the image lead from the root to inode n. */
  ghost predicate Reachable(d: map<nat, Block>, n: nat) {
    exists steps: nat :: DiskBelow(d, BLKN_ROOT, n, steps)
  }

  /** nodes are the inodes that can be reached from the root; and every one of them has as many links
      (a uint16_t) as there are entries that name it in the directories among them. */
  ghost predicate LinksExact(d: map<nat, Block>, nodes: set<nat>, next: nat) {
    && (forall n: nat :: n in nodes <==> Reachable(d, n))
    && (forall n | n in nodes :: n in d && n < next)
    && (forall n | DiskDir(d, nodes, n) :: EntriesIn(d, nodes, n))
    && (forall n | n in nodes :: ReadInode(d[n]).nlinks == DiskNaming(d, nodes, n, next) % 0x1_0000)
  }

  lemma {:induction false} NamedOnDisk(s: Sfs, d: map<nat, Block>, n: nat, k: nat, t: nat)
    requires n in s.inodes && n in d && k <= |FileBlocks(s, n)|
    requires forall j | 0 <= j < |FileBlocks(s, n)| ::
               DiskBlockAt(d, ReadInode(d[n]), j) == FileBlocks(s, n)[j] && FileBlocks(s, n)[j] in s.disk
    requires forall x | x in s.disk :: x in d && d[x] == s.disk[x]
    ensures DiskNamed(d, ReadInode(d[n]), k, t) == Named(s.disk, FileBlocks(s, n)[..k], t)
  {
    hide FileBlocks, ReadInode, DiskBlockAt, EntryIno;
    if k != 0 {
      NamedOnDisk(s, d, n, k - 1, t);
      assert FileBlocks(s, n)[..k][..k - 1] == FileBlocks(s, n)[..k - 1];
    }
  }

  /** The decoder sees inode n, and if it is a directory, its entries, as they are in the cache. */
  lemma NodeOnDisk(s: Sfs, d: map<nat, Block>, n: nat, t: nat)
    requires Inv(s) && OnDisk(s, d) && n in s.inodes && s.inodes[n].inode.kind < 0x1_0000
    ensures n in d
    ensures var i := ReadInode(d[n]);
            && i.kind == s.inodes[n].inode.kind && i.nlinks == s.inodes[n].inode.nlinks
            && i.blocks == |FileBlocks(s, n)|
            && DiskNamed(d, i, i.blocks, t) == Named(s.disk, FileBlocks(s, n), t)
  {
    hide Inv, OnDisk, ReadInode, DiskNamed, Named;
    InodeSeen(s, d, n);
    BlocksSeen(s, d, n);
    NamedOnDisk(s, d, n, |FileBlocks(s, n)|, t);
    assert FileBlocks(s, n)[..|FileBlocks(s, n)|] == FileBlocks(s, n);
  }

  lemma {:induction false} NamingOnDisk(s: Sfs, d: map<nat, Block>, t: nat, hi: nat)
    requires Inv(s) && OnDisk(s, d) && forall n | n in s.inodes :: s.inodes[n].inode.kind < 0x1_0000
    ensures DiskNaming(d, s.inodes.Keys, t, hi) == Naming(s, t, hi)
  {
    hide Inv, OnDisk, ReadInode, DiskNamed, Named, FileBlocks;
    if hi != 0 {
      NamingOnDisk(s, d, t, hi - 1);
      if hi - 1 in s.inodes {
        NodeOnDisk(s, d, hi - 1, t);
      }
    }
  }

  lemma EntriesOnDisk(s: Sfs, d: map<nat, Block>, n: nat)
    requires Inv(s) && OnDisk(s, d) && n in s.inodes && s.inodes[n].inode.kind < 0x1_0000 && EntriesKnown(s, n)
    ensures n in d && EntriesIn(d, s.inodes.Keys, n)
  {
    hide Inv, OnDisk, ReadInode, FileBlocks, DiskBlockAt;
    InodeSeen(s, d, n);
    BlocksSeen(s, d, n);
    NodeOnDisk(s, d, n, 0);
    var i := ReadInode(d[n]);
    forall k: nat | k < i.blocks
      ensures var b := DiskBlockAt(d, i, k); b in d && EntryIno(d[b]) in s.inodes
    {
      assert DiskBlockAt(d, i, k) == FileBlocks(s, n)[k];
    }
  }

  /** The decoder finds the same entries in a directory as are in the cache. */
  lemma NamesOnDisk(s: Sfs, d: map<nat, Block>, n: nat, m: nat)
    requires Inv(s) && OnDisk(s, d) && n in s.inodes && s.inodes[n].inode.kind < 0x1_0000
    ensures DiskNames(d, n, m) <==> Names(s, n, m)
  {
    hide Inv, OnDisk, ReadInode, FileBlocks, DiskBlockAt, EntryIno;
    InodeSeen(s, d, n);
    BlocksSeen(s, d, n);
    NodeOnDisk(s, d, n, 0);
    var i := ReadInode(d[n]);
    forall k: nat | k < i.blocks
      ensures EntryFor(d, DiskBlockAt(d, i, k), m) <==> EntryFor(s.disk, FileBlocks(s, n)[k], m)
    {
      assert DiskBlockAt(d, i, k) == FileBlocks(s, n)[k];
    }
  }

  /** Entries name inodes. */
  lemma NamesInodes(s: Sfs, n: nat, m: nat)
    requires Links(s) && Names(s, n, m)
    ensures m in s.inodes
  {
    assert EntriesKnown(s, n);
  }

  lemma {:induction false} BelowOnDisk(s: Sfs, d: map<nat, Block>, a: nat, n: nat, steps: nat)
    requires Inv(s) && Links(s) && OnDisk(s, d) && a in s.inodes
    requires forall x | x in s.inodes :: s.inodes[x].inode.kind < 0x1_0000
    ensures DiskBelow(d, a, n, steps) <==> Below(s, a, n, steps)
    ensures DiskBelow(d, a, n, steps) ==> n in s.inodes
    decreases steps
  {
    hide Inv, Links, OnDisk, DiskNames, Names;
    if steps != 0 {
      forall m
        ensures DiskNames(d, a, m) <==> Names(s, a, m)
        ensures Names(s, a, m) ==> (DiskBelow(d, m, n, steps - 1) <==> Below(s, m, n, steps - 1))
        ensures Names(s, a, m) && DiskBelow(d, m, n, steps - 1) ==> n in s.inodes
      {
        NamesOnDisk(s, d, a, m);
        if Names(s, a, m) {
          NamesInodes(s, a, m);
          BelowOnDisk(s, d, m, n, steps - 1);
        }
      }
    }
  }

  /** What can be reached on the image are the inodes of the cache. */
  lemma ReachableOnDisk(s: Sfs, d: map<nat, Block>, n: nat)
    requires Inv(s) && Links(s) && OnDisk(s, d)
    requires forall x | x in s.inodes :: s.inodes[x].inode.kind < 0x1_0000 && Under(s, BLKN_ROOT, x)
    ensures n in s.inodes <==> Reachable(d, n)
  {
    hide Inv, Links, OnDisk, DiskBelow, Below;
    InodesBelow(s);
    forall steps: nat
      ensures DiskBelow(d, BLKN_ROOT, n, steps) <==> Below(s, BLKN_ROOT, n, steps)
      ensures DiskBelow(d, BLKN_ROOT, n, steps) ==> n in s.inodes
    {
      BelowOnDisk(s, d, BLKN_ROOT, n, steps);
    }
  }

  /** The count on disk is the number of entries itself exactly if there are fewer than 65536 of them. */
  lemma LinkCountFits(d: map<nat, Block>, nodes: set<nat>, next: nat, n: nat)
    requires LinksExact(d, nodes, next) && n in nodes
    ensures ReadInode(d[n]).nlinks == DiskNaming(d, nodes, n, next) <==> DiskNaming(d, nodes, n, next) < 0x1_0000
  {
    hide ReadInode, DiskNaming, Reachable, EntriesIn;
  }

  /** A flushed state has exact link counts on disk. */
  lemma LinksReadBack(s: Sfs, d: map<nat, Block>)
    requires Inv(s) && Links(s) && OnDisk(s, d)
    requires forall n | n in s.inodes :: s.inodes[n].inode.kind <= TYPE_LINK && Under(s, BLKN_ROOT, n)
    ensures LinksExact(d, s.inodes.Keys, s.nextIno)
  {
    hide Inv, OnDisk, ReadInode, FileBlocks, DiskNaming, Naming, DiskNamed, Named, EntriesIn, EntriesKnown,
         Reachable, Under;
    InodesBelow(s);
    forall n: nat
      ensures n in s.inodes <==> Reachable(d, n)
    {
      ReachableOnDisk(s, d, n);
    }
    forall n | n in s.inodes
      ensures n in d && ReadInode(d[n]).nlinks == DiskNaming(d, s.inodes.Keys, n, s.nextIno) % 0x1_0000
      ensures ReadInode(d[n]).kind == TYPE_DIR ==> EntriesIn(d, s.inodes.Keys, n)
    {
      NodeOnDisk(s, d, n, n);
      NamingOnDisk(s, d, n, s.nextIno);
      assert LinkCountOk(s, n);
      if IsDir(s, n) {
        EntriesOnDisk(s, d, n);
      }
    }
  }

  lemma InodesBelow(s: Sfs)
    requires Inv(s)
    ensures BLKN_ROOT in s.inodes && forall n | n in s.inodes :: n < s.nextIno
  {
  }
}
