/** Every inode of an image hangs, by directory entries, below the root. */
module SfsReach {
  import opened Bytes
  import opened SfsState
  import opened SfsHost
  import opened SfsTree
  import opened SfsLinks
  import opened SfsWalk

  /** Directory n has an entry for inode m. */
  ghost predicate Names(s: Sfs, n: nat, m: nat) {
    IsDir(s, n) && exists k :: 0 <= k < |FileBlocks(s, n)| && EntryFor(s.disk, FileBlocks(s, n)[k], m)
  }

  ghost predicate EntryFor(disk: map<nat, Block>, d: nat, m: nat) {
    d in disk && EntryIno(disk[d]) == m
  }

  /** From inode a, entries lead to inode n in the given number of steps. */
  ghost predicate Below(s: Sfs, a: nat, n: nat, steps: nat)
    decreases steps
  {
    if steps == 0 then a == n else exists m :: Names(s, a, m) && Below(s, m, n, steps - 1)
  }

  ghost predicate Under(s: Sfs, a: nat, n: nat) {
    exists steps: nat :: Below(s, a, n, steps)
  }

  /** The inodes that are new in s' hang below cur. */
  ghost predicate Grafted(s: Sfs, s': Sfs, cur: nat) {
    forall n | n in s'.inodes && n !in s.inodes :: Under(s', cur, n)
  }

  ghost predicate DirsGrow(s: Sfs, s': Sfs) {
    forall n, m | Names(s, n, m) :: Names(s', n, m)
  }

  lemma {:induction false} BelowGrows(s: Sfs, s': Sfs, a: nat, n: nat, steps: nat)
    requires DirsGrow(s, s') && Below(s, a, n, steps)
    ensures Below(s', a, n, steps)
    decreases steps
  {
    hide Names;
    if steps != 0 {
      var m :| Names(s, a, m) && Below(s, m, n, steps - 1);
      BelowGrows(s, s', m, n, steps - 1);
    }
  }

  lemma UnderGrows(s: Sfs, s': Sfs, a: nat, n: nat)
    requires DirsGrow(s, s') && Under(s, a, n)
    ensures Under(s', a, n)
  {
    hide DirsGrow, Below;
    var steps: nat :| Below(s, a, n, steps);
    BelowGrows(s, s', a, n, steps);
  }

  /** One step down, and the rest of the way. */
  lemma UnderStep(s: Sfs, a: nat, m: nat, n: nat)
    requires Names(s, a, m) && Under(s, m, n)
    ensures Under(s, a, n)
  {
    hide Names;
    var steps: nat :| Below(s, m, n, steps);
    assert Below(s, a, n, steps + 1);
  }

  lemma UnderSelf(s: Sfs, a: nat)
    ensures Under(s, a, a)
  {
    assert Below(s, a, a, 0);
  }

  // ---------- what the steps of the walk do ----------

  /** Entries are only added, and at the end. */
  lemma EntriesGrow(s: Sfs, s': Sfs, cur: nat)
    requires Sealed(s, s', {cur}) && IsDir(s, cur)
    requires cur in s'.inodes && FileBlocks(s, cur) <= FileBlocks(s', cur)
    ensures DirsGrow(s, s')
  {
    hide FileBlocks, EntryIno;
    forall n, m | Names(s, n, m)
      ensures Names(s', n, m)
    {
      var k :| 0 <= k < |FileBlocks(s, n)| && EntryFor(s.disk, FileBlocks(s, n)[k], m);
      assert n != cur ==> SameContent(s, s', n);
      assert FileBlocks(s', n)[k] == FileBlocks(s, n)[k] && EntryFor(s'.disk, FileBlocks(s', n)[k], m);
    }
  }

  lemma NodeAddedGrows(
    s: Sfs, s': Sfs, files: Files, open: set<nat>, cur: nat, name: seq<byte>, node: Host)
    requires IsDir(s, cur) && NodeAdded(s, s', files, open, cur, name, node)
    ensures DirsGrow(s, s')
  {
    hide Sealed, FileBlocks, Holds, PlanMet, DirsGrow;
    EntriesGrow(s, s', cur);
  }

  lemma EntryAddedGrows(s: Sfs, s': Sfs, cur: nat, file: nat, name: seq<byte>)
    requires IsDir(s, cur) && file in s.inodes && EntryAdded(s, s', cur, file, name)
    ensures DirsGrow(s, s') && Names(s', cur, file) && s'.inodes.Keys == s.inodes.Keys
  {
    hide FileBlocks, EntryIno, EntryName;
    var k := |FileBlocks(s, cur)|;
    assert EntryFor(s'.disk, FileBlocks(s', cur)[k], file);
    forall n, m | Names(s, n, m)
      ensures Names(s', n, m)
    {
      var j :| 0 <= j < |FileBlocks(s, n)| && EntryFor(s.disk, FileBlocks(s, n)[j], m);
      assert EntryFor(s'.disk, FileBlocks(s', n)[j], m);
    }
  }

  /** A file or a link: at most its own inode c is new, and cur has an entry for that. */
  lemma LeafGrafted(s: Sfs, s2: Sfs, s': Sfs, cur: nat, c: nat, name: seq<byte>)
    requires IsDir(s2, cur) && c in s2.inodes && EntryAdded(s2, s', cur, c, name)
    requires forall n | n in s2.inodes :: n in s.inodes || n == c
    ensures Grafted(s, s', cur)
  {
    hide EntryAdded, Names, Under;
    EntryAddedGrows(s2, s', cur, c, name);
    UnderSelf(s', c);
    UnderStep(s', cur, c, c);
  }

  /** A directory: its inode c, and what hangs below it. */
  lemma DirGrafted(s: Sfs, s1: Sfs, s2: Sfs, s': Sfs, cur: nat, c: nat, name: seq<byte>)
    requires forall n | n in s1.inodes :: n in s.inodes || n == c
    requires Grafted(s1, s2, c) && IsDir(s2, cur) && c in s2.inodes && EntryAdded(s2, s', cur, c, name)
    ensures Grafted(s, s', cur)
  {
    hide EntryAdded, Names, Under, DirsGrow;
    EntryAddedGrows(s2, s', cur, c, name);
    forall n | n in s'.inodes && n !in s.inodes
      ensures Under(s', cur, n)
    {
      if n == c {
        UnderSelf(s', c);
      } else {
        UnderGrows(s2, s', c, n);
      }
      UnderStep(s', cur, c, n);
    }
  }

  lemma GraftedStep(s0: Sfs, s: Sfs, s': Sfs, cur: nat)
    requires Grafted(s0, s, cur) && Grafted(s, s', cur) && DirsGrow(s, s')
    ensures Grafted(s0, s', cur)
  {
    hide Under, DirsGrow;
    forall n | n in s'.inodes && n !in s0.inodes
      ensures Under(s', cur, n)
    {
      if n in s.inodes {
        UnderGrows(s, s', cur, n);
      }
    }
  }

  /** If there was nothing but the root, everything hangs below it. */
  lemma AllUnderRoot(s0: Sfs, s: Sfs)
    requires s0.inodes.Keys == {BLKN_ROOT} && Grafted(s0, s, BLKN_ROOT)
    ensures forall n | n in s.inodes :: Under(s, BLKN_ROOT, n)
  {
    hide Under;
    UnderSelf(s, BLKN_ROOT);
  }
}
