/** Link counts: an inode's nlinks is the number of directory entries that name it. */
module SfsLinks {
  import opened Bytes
  import opened SfsState
  import opened SfsBlockMap
  import opened SfsTree

  /** How many of the entry blocks ds name inode t. */
  function Named(disk: map<nat, Block>, ds: seq<nat>, t: nat): nat {
    if ds == [] then 0 else
      var d := ds[|ds| - 1];
      Named(disk, ds[..|ds| - 1], t) + if d in disk && EntryIno(disk[d]) == t then 1 else 0
  }

  predicate IsDir(s: Sfs, n: nat) {
    n in s.inodes && s.inodes[n].inode.kind == TYPE_DIR
  }

  /** How many entries name inode t in the directories with an inode number below hi. */
  function Naming(s: Sfs, t: nat, hi: nat): nat {
    if hi == 0 then 0 else
      Naming(s, t, hi - 1) + if IsDir(s, hi - 1) then Named(s.disk, FileBlocks(s, hi - 1), t) else 0
  }

  ghost predicate LinkCountOk(s: Sfs, n: nat)
    requires n in s.inodes
  {
    s.inodes[n].inode.nlinks == Naming(s, n, s.nextIno) % 0x1_0000
  }

  ghost predicate EntriesKnown(s: Sfs, n: nat)
    requires n in s.inodes
  {
    forall k | 0 <= k < s.inodes[n].nblks ::
      var d := FileBlocks(s, n)[k];
      d in s.disk && EntryIno(s.disk[d]) in s.inodes
  }

  /** Every nlinks field is right (a uint16_t, so modulo 2^16), and entries name existing inodes. */
  ghost predicate Links(s: Sfs) {
    && (forall n | n in s.inodes :: LinkCountOk(s, n))
    && (forall n | IsDir(s, n) :: EntriesKnown(s, n))
  }

  lemma {:induction false} NamedSame(disk: map<nat, Block>, disk': map<nat, Block>, ds: seq<nat>, t: nat)
    requires forall i | 0 <= i < |ds| :: ds[i] in disk && ds[i] in disk' && disk'[ds[i]] == disk[ds[i]]
    ensures Named(disk', ds, t) == Named(disk, ds, t)
  {
    if ds != [] {
      NamedSame(disk, disk', ds[..|ds| - 1], t);
    }
  }

  lemma {:induction false} NamedNone(disk: map<nat, Block>, ds: seq<nat>, t: nat)
    requires forall i | 0 <= i < |ds| :: ds[i] in disk && EntryIno(disk[ds[i]]) != t
    ensures Named(disk, ds, t) == 0
  {
    if ds != [] {
      NamedNone(disk, ds[..|ds| - 1], t);
    }
  }

  /** Directory n has the same entries in both states. */
  ghost predicate SameDir(s: Sfs, s': Sfs, n: nat) {
    && IsDir(s', n) == IsDir(s, n)
    && (IsDir(s, n) ==> FileBlocks(s', n) == FileBlocks(s, n))
  }

  ghost predicate DiskGrows(s: Sfs, s': Sfs) {
    forall d | d in s.disk :: d in s'.disk && s'.disk[d] == s.disk[d]
  }

  /** Adding directories without entries, and no entry, changes no count. */
  lemma {:induction false} NamingSame(s: Sfs, s': Sfs, t: nat, hi: nat)
    requires DiskGrows(s, s')
    requires forall n | IsDir(s, n) :: EntriesKnown(s, n)
    requires forall n: nat | n < hi :: SameDir(s, s', n) || (!IsDir(s, n) && IsDir(s', n) && FileBlocks(s', n) == [])
    ensures Naming(s', t, hi) == Naming(s, t, hi)
  {
    if hi != 0 {
      NamingSame(s, s', t, hi - 1);
      if IsDir(s, hi - 1) {
        assert EntriesKnown(s, hi - 1);
        assert SameDir(s, s', hi - 1);
        NamedSame(s.disk, s'.disk, FileBlocks(s, hi - 1), t);
      } else {
        assert SameDir(s, s', hi - 1) || FileBlocks(s', hi - 1) == [];
      }
    }
  }

  /** Adding one entry for file to directory cur adds one to the count of file alone. */
  lemma {:induction false} NamingStep(s: Sfs, s': Sfs, cur: nat, d: nat, file: nat, t: nat, hi: nat)
    requires DiskGrows(s, s')
    requires forall n | IsDir(s, n) :: EntriesKnown(s, n)
    requires forall n: nat | n < hi && n != cur :: SameDir(s, s', n)
    requires IsDir(s, cur) && IsDir(s', cur) && FileBlocks(s', cur) == FileBlocks(s, cur) + [d]
    requires d in s'.disk && EntryIno(s'.disk[d]) == file
    ensures Naming(s', t, hi) == Naming(s, t, hi) + if cur < hi && t == file then 1 else 0
  {
    if hi != 0 {
      NamingStep(s, s', cur, d, file, t, hi - 1);
      var n := hi - 1;
      if IsDir(s, n) {
        assert EntriesKnown(s, n);
        NamedSame(s.disk, s'.disk, FileBlocks(s, n), t);
        if n == cur {
          assert FileBlocks(s', n)[..|FileBlocks(s, n)|] == FileBlocks(s, n);
        } else {
          assert SameDir(s, s', n);
        }
      } else {
        assert SameDir(s, s', n);
      }
    }
  }

  /** There is nothing to count where there are no directories. */
  lemma {:induction false} NamingBeyond(s: Sfs, t: nat, lo: nat, hi: nat)
    requires lo <= hi && forall n: nat | lo <= n < hi :: !IsDir(s, n)
    ensures Naming(s, t, hi) == Naming(s, t, lo)
  {
    if lo < hi {
      NamingBeyond(s, t, lo, hi - 1);
    }
  }

  lemma {:induction false} NamingNone(s: Sfs, t: nat, hi: nat)
    requires forall n | IsDir(s, n) :: EntriesKnown(s, n)
    requires t !in s.inodes
    ensures Naming(s, t, hi) == 0
  {
    if hi != 0 {
      NamingNone(s, t, hi - 1);
      if IsDir(s, hi - 1) {
        assert EntriesKnown(s, hi - 1);
        NamedNone(s.disk, FileBlocks(s, hi - 1), t);
      }
    }
  }

  // ---------- the three kinds of step ----------

  /** Steps that leave directories and link counts alone (writing data, appending to a file). */
  lemma LinksKeep(s: Sfs, s': Sfs)
    requires Links(s) && DiskGrows(s, s') && s'.inodes.Keys == s.inodes.Keys
    requires s.nextIno <= s'.nextIno
    requires forall n | n in s.inodes :: n < s.nextIno && s'.inodes[n].inode.nlinks == s.inodes[n].inode.nlinks
    requires forall n: nat :: SameDir(s, s', n)
    ensures Links(s')
  {
    forall n | n in s'.inodes
      ensures LinkCountOk(s', n)
    {
      assert LinkCountOk(s, n);
      NamingSame(s, s', n, s.nextIno);
      NamingBeyond(s', n, s.nextIno, s'.nextIno);
    }
    forall n | IsDir(s', n)
      ensures EntriesKnown(s', n)
    {
      assert SameDir(s, s', n) && EntriesKnown(s, n);
    }
  }

  lemma LinksNewInode(s: Sfs, hostIno: nat, kind: nat)
    requires Inv(s) && Links(s) && s.nextIno < s.ninos
    ensures Links(WithInode(s, hostIno, kind))
  {
    hide Maps, Data, DataDistinct, InodeChains, BlockChains, EntryIno;
    var s' := WithInode(s, hostIno, kind);
    WithInodeSame(s, hostIno, kind);
    forall n: nat | n < s.nextIno
      ensures SameDir(s, s', n)
    {
    }
    forall t
      ensures Naming(s', t, s'.nextIno) == Naming(s, t, s.nextIno)
    {
      NamingSame(s, s', t, s.nextIno);
      assert Naming(s', t, s'.nextIno) == Naming(s', t, s.nextIno);
    }
    NamingNone(s, s.nextIno, s.nextIno);
    forall n | n in s'.inodes
      ensures LinkCountOk(s', n)
    {
      if n != s.nextIno {
        assert LinkCountOk(s, n);
      }
    }
    forall n | IsDir(s', n)
      ensures EntriesKnown(s', n)
    {
      if n != s.nextIno {
        assert EntriesKnown(s, n);
      }
    }
  }

  /** add_entry as a whole: one more entry in cur, one more link to file. */
  lemma LinksNewEntry(s: Sfs, s': Sfs, cur: nat, d: nat, file: nat)
    requires Links(s) && DiskGrows(s, s') && s'.inodes.Keys == s.inodes.Keys
    requires s.nextIno <= s'.nextIno
    requires forall n | n in s.inodes :: n < s.nextIno
    requires forall n: nat | n != cur :: SameDir(s, s', n)
    requires IsDir(s, cur) && IsDir(s', cur) && FileBlocks(s', cur) == FileBlocks(s, cur) + [d]
    requires file in s.inodes && d in s'.disk && EntryIno(s'.disk[d]) == file
    requires forall n | n in s.inodes :: s'.inodes[n].inode.nlinks
               == if n == file then (s.inodes[n].inode.nlinks + 1) % 0x1_0000 else s.inodes[n].inode.nlinks
    ensures Links(s')
  {
    hide FileBlocks, EntryIno, Naming;
    forall n | n in s'.inodes
      ensures LinkCountOk(s', n)
    {
      assert LinkCountOk(s, n);
      NamingStep(s, s', cur, d, file, n, s.nextIno);
      NamingBeyond(s', n, s.nextIno, s'.nextIno);
    }
    forall n | IsDir(s', n)
      ensures EntriesKnown(s', n)
    {
      assert n != cur ==> SameDir(s, s', n);
      assert EntriesKnown(s, n);
    }
  }
}
