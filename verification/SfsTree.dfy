/** How the cached state represents a packed host tree, and why later steps do not disturb it. */
module SfsTree {
  import opened Bytes
  import opened SfsState
  import opened SfsHost

  // ---------- a directory entry on disk ----------

  function EntryIno(b: Block): nat {
    U32(b, 0)
  }

  function EntryName(b: Block): seq<byte> {
    UpToNul(b[4..260])
  }

  predicate EntryAt(disk: map<nat, Block>, d: nat, ino: nat, name: seq<byte>) {
    d in disk && EntryIno(disk[d]) == ino && EntryName(disk[d]) == name
  }

  // ---------- representation ----------

  function Total(chunks: seq<seq<byte>>): nat {
    if chunks == [] then 0 else Total(chunks[..|chunks| - 1]) + |chunks[|chunks| - 1]|
  }

  /** Inode n holds the chunks, one to a block; only the last may be short, so that
      the size of the file says how much of each block counts. */
  ghost predicate ContentHolds(s: Sfs, n: nat, chunks: seq<seq<byte>>)
    requires n in s.inodes
  {
    var bs := FileBlocks(s, n);
    && |bs| == |chunks|
    && s.inodes[n].inode.size == Total(chunks)
    && (forall k | 0 <= k < |chunks| - 1 :: |chunks[k]| == BLKSIZE)
    && forall k | 0 <= k < |chunks| ::
         |chunks[k]| <= BLKSIZE && bs[k] in s.disk && s.disk[bs[k]] == Pad(chunks[k])
  }

  /** Inode n, in a directory with inode p, represents host object t.
      None of the inodes that this relies on is in open. */
  ghost predicate Holds(s: Sfs, files: Files, open: set<nat>, n: nat, p: nat, t: Host)
    decreases t
  {
    && n in s.inodes && n !in open
    && match t
       case File(h) =>
         && s.inodes[n].inode.kind == TYPE_FILE && s.inodes[n].hostIno == h && h in files
         && ContentHolds(s, n, files[h])
       case Link(_, target) =>
         s.inodes[n].inode.kind == TYPE_LINK && ContentHolds(s, n, [target])
       case Dir(_, es) =>
         && s.inodes[n].inode.kind == TYPE_DIR
         && |FileBlocks(s, n)| >= 2
         && DirHead(s, n, p)
         && BodyHolds(s, files, open, n, FileBlocks(s, n)[2..], es)
         && s.inodes[n].inode.size == 256 * |FileBlocks(s, n)|
         && s.inodes[n].inode.nlinks == (2 + Subdirs(es)) % 0x1_0000
       case Special => false
  }

  ghost predicate DirHead(s: Sfs, n: nat, p: nat)
    requires n in s.inodes && |FileBlocks(s, n)| >= 2
  {
    EntryAt(s.disk, FileBlocks(s, n)[0], n, [DOT]) && EntryAt(s.disk, FileBlocks(s, n)[1], p, [DOT, DOT])
  }

  /** The disk blocks ds are the entries, in directory n, of the packed objects of es. */
  ghost predicate BodyHolds(s: Sfs, files: Files, open: set<nat>, n: nat, ds: seq<nat>, es: seq<Entry>)
    decreases es
  {
    if es == [] then ds == [] else
      var e := es[|es| - 1];
      var front := es[..|es| - 1];
      if !Packed(e) then BodyHolds(s, files, open, n, ds, front) else
        && ds != []
        && BodyHolds(s, files, open, n, ds[..|ds| - 1], front)
        && var d := ds[|ds| - 1];
           && d in s.disk
           && EntryName(s.disk[d]) == Truncated(e.name)
           && Holds(s, files, open, EntryIno(s.disk[d]), n, e.node)
  }

  // ---------- frames ----------

  /** From s to s', disk blocks and the contents of every inode outside open stay as they are. */
  ghost predicate Sealed(s: Sfs, s': Sfs, open: set<nat>) {
    && (forall d | d in s.disk :: d in s'.disk && s'.disk[d] == s.disk[d])
    && (forall n | n in s.inodes :: n in s'.inodes && s'.inodes[n].hostIno == s.inodes[n].hostIno
                                   && s'.inodes[n].inode.kind == s.inodes[n].inode.kind)
    && (forall n | n in s.inodes && n !in open :: SameContent(s, s', n))
  }

  ghost predicate SameContent(s: Sfs, s': Sfs, n: nat)
    requires n in s.inodes && n in s'.inodes
  {
    && FileBlocks(s', n) == FileBlocks(s, n)
    && s'.inodes[n].inode.size == s.inodes[n].inode.size
    && (s.inodes[n].inode.kind == TYPE_DIR ==> s'.inodes[n].inode.nlinks == s.inodes[n].inode.nlinks)
  }

  lemma SealedCompose(s0: Sfs, s1: Sfs, s2: Sfs, open1: set<nat>, open2: set<nat>, open: set<nat>)
    requires Sealed(s0, s1, open1) && Sealed(s1, s2, open2)
    requires forall n | n in s0.inodes && (n in open1 || n in open2) :: n in open
    ensures Sealed(s0, s2, open)
  {
    forall n | n in s0.inodes && n !in open
      ensures SameContent(s0, s2, n)
    {
      assert SameContent(s0, s1, n) && SameContent(s1, s2, n);
    }
  }

  lemma {:induction false} HoldsFrame(s: Sfs, s': Sfs, files: Files, open: set<nat>, n: nat, p: nat, t: Host)
    requires Sealed(s, s', open) && Holds(s, files, open, n, p, t)
    ensures Holds(s', files, open, n, p, t)
    decreases t
  {
    assert SameContent(s, s', n);
    if t.Dir? {
      BodyFrame(s, s', files, open, n, FileBlocks(s, n)[2..], t.entries);
    }
  }

  lemma {:induction false} BodyFrame(
    s: Sfs, s': Sfs, files: Files, open: set<nat>, n: nat, ds: seq<nat>, es: seq<Entry>)
    requires Sealed(s, s', open) && BodyHolds(s, files, open, n, ds, es)
    ensures BodyHolds(s', files, open, n, ds, es)
    decreases es
  {
    if es != [] {
      var e := es[|es| - 1];
      if Packed(e) {
        BodyFrame(s, s', files, open, n, ds[..|ds| - 1], es[..|es| - 1]);
        HoldsFrame(s, s', files, open, EntryIno(s.disk[ds[|ds| - 1]]), n, e.node);
      } else {
        BodyFrame(s, s', files, open, n, ds, es[..|es| - 1]);
      }
    }
  }

  /** What avoids more inodes avoids fewer. */
  lemma {:induction false} HoldsClose(s: Sfs, files: Files, open: set<nat>, less: set<nat>, n: nat, p: nat, t: Host)
    requires Holds(s, files, open, n, p, t) && less <= open
    ensures Holds(s, files, less, n, p, t)
    decreases t
  {
    if t.Dir? {
      BodyClose(s, files, open, less, n, FileBlocks(s, n)[2..], t.entries);
    }
  }

  lemma {:induction false} BodyClose(
    s: Sfs, files: Files, open: set<nat>, less: set<nat>, n: nat, ds: seq<nat>, es: seq<Entry>)
    requires BodyHolds(s, files, open, n, ds, es) && less <= open
    ensures BodyHolds(s, files, less, n, ds, es)
    decreases es
  {
    if es != [] {
      var e := es[|es| - 1];
      if Packed(e) {
        BodyClose(s, files, open, less, n, ds[..|ds| - 1], es[..|es| - 1]);
        HoldsClose(s, files, open, less, EntryIno(s.disk[ds[|ds| - 1]]), n, e.node);
      } else {
        BodyClose(s, files, open, less, n, ds, es[..|es| - 1]);
      }
    }
  }
}
