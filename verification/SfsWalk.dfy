/** What one file, one link and one directory entry add to the state. */
module SfsWalk {
  import opened Bytes
  import opened SfsState
  import opened SfsBlockMap
  import opened SfsAppend
  import opened SfsHost
  import opened SfsTree
  import opened SfsLinks
  import opened SfsPlan

  // ---------- file contents ----------

  /** From s0 to s, file f was filled with the chunks cs and nothing else changed. */
  ghost predicate Filled(s0: Sfs, s: Sfs, f: nat, cs: seq<seq<byte>>)
    requires f in s0.inodes
  {
    && s.inodes.Keys == s0.inodes.Keys && s.ninos == s0.ninos
    && (forall n | n in s0.inodes && n != f ::
          s.inodes[n] == s0.inodes[n] && FileBlocks(s, n) == FileBlocks(s0, n))
    && s.inodes[f].hostIno == s0.inodes[f].hostIno
    && s.inodes[f].inode.kind == s0.inodes[f].inode.kind
    && s.inodes[f].inode.nlinks == s0.inodes[f].inode.nlinks
    && DiskGrows(s0, s)
    && ContentHolds(s, f, cs)
    && s.nextIno == s0.nextIno + |cs| + Tables(|cs|)
  }

  /** Writing a block to a fresh number changes no file. */
  lemma WithDataEffect(s: Sfs, b: Block)
    requires Inv(s)
    ensures forall n | n in s.inodes :: FileBlocks(WithData(s, b), n) == FileBlocks(s, n)
    ensures DiskGrows(s, WithData(s, b))
  {
    WithDataSame(s, b);
  }

  lemma FilledStep(s0: Sfs, s: Sfs, s2: Sfs, f: nat, cs: seq<seq<byte>>, chunk: seq<byte>)
    requires Inv(s) && f in s0.inodes && Filled(s0, s, f, cs) && |chunk| <= BLKSIZE
    requires cs == [] || |cs[|cs| - 1]| == BLKSIZE
    requires f in s.inodes && Appended(WithData(s, Pad(chunk)), s2, f, |chunk|, s.nextIno)
    ensures Filled(s0, s2, f, cs + [chunk])
  {
    hide Inv, FileBlocks, ContentHolds, Tables, Pad;
    WithDataEffect(s, Pad(chunk));
    FilledStepContent(s, s2, f, cs, chunk);
    FilledCount(s, f, cs);
    assert forall n | n in s0.inodes && n != f :: FileBlocks(s2, n) == FileBlocks(s, n);
  }

  lemma FilledCount(s: Sfs, f: nat, cs: seq<seq<byte>>)
    requires f in s.inodes && ContentHolds(s, f, cs)
    ensures s.inodes[f].nblks == |cs|
  {
  }

  lemma FilledStepContent(s: Sfs, s2: Sfs, f: nat, cs: seq<seq<byte>>, chunk: seq<byte>)
    requires f in s.inodes && ContentHolds(s, f, cs) && |chunk| <= BLKSIZE
    requires cs == [] || |cs[|cs| - 1]| == BLKSIZE
    requires FileBlocks(WithData(s, Pad(chunk)), f) == FileBlocks(s, f) && DiskGrows(s, WithData(s, Pad(chunk)))
    requires Appended(WithData(s, Pad(chunk)), s2, f, |chunk|, s.nextIno)
    ensures ContentHolds(s2, f, cs + [chunk])
  {
    hide FileBlocks;
    assert (cs + [chunk])[..|cs|] == cs;
  }

  lemma FilledNothing(s0: Sfs, f: nat)
    requires f in s0.inodes && s0.inodes[f].nblks == 0 && s0.inodes[f].inode.size == 0
    ensures Filled(s0, s0, f, [])
  {
  }

  lemma FilledLength(s0: Sfs, s: Sfs, f: nat, cs: seq<seq<byte>>)
    requires f in s0.inodes && Filled(s0, s, f, cs)
    ensures f in s.inodes && s.inodes[f].nblks == |cs| && s.ninos == s0.ninos
    ensures s.nextIno == s0.nextIno + |cs| + Tables(|cs|)
  {
  }

  lemma TablesStep(i: nat, n: nat)
    requires i < n
    ensures Tables(i + 1) == Tables(i) + NewTables(i) <= Tables(n)
  {
    TablesMonotone(i + 1, n);
  }

  /** Filling a file that is not a directory keeps the link counts. */
  lemma FilledLinks(s0: Sfs, s: Sfs, f: nat, cs: seq<seq<byte>>)
    requires Inv(s0) && Links(s0) && f in s0.inodes && !IsDir(s0, f) && Filled(s0, s, f, cs)
    ensures Links(s)
  {
    hide Maps, TablesDistinct, Data, InodeChains, BlockChains, DataDistinct, Links, ContentHolds, Tables;
    assert forall n: nat :: SameDir(s0, s, n);
    LinksKeep(s0, s);
  }

  // ---------- directory entries ----------

  lemma InodeNumbers(s: Sfs, n: nat)
    requires Inv(s) && n in s.inodes
    ensures n < s.nextIno <= s.ninos < 0x1_0000_0000 && Counters(s) && Owned(s)
    ensures 0 !in s.inodes && InodeChains(s)
    ensures s.inodes[n].inode.nlinks < 0x1_0000
  {
    assert MapOk(s, n);
  }

  /** What the final loop relies on. */
  lemma FlushFacts(s: Sfs)
    requires Inv(s)
    ensures InodeChains(s) && BlockChains(s)
    ensures forall n | n in s.inodes :: n !in s.blocks && n < s.ninos && |s.inodes[n].inode.direct| == NDIRECT
    ensures forall b | b in s.blocks :: b !in s.inodes && b < s.ninos && |s.blocks[b]| == BLK_NENTRY
  {
    assert forall n | n in s.inodes :: MapOk(s, n);
  }

  /** The 256 bytes that add_entry writes: the inode number and the start of the name buffer. */
  function EntryBytes(ino: nat, nameBuf: seq<byte>): (b: seq<byte>)
    requires |nameBuf| == MAX_FNAME_LEN + 1
    ensures |b| == 256
  {
    (Le32(ino) + nameBuf)[..256]
  }

  /** strcpy into the name buffer: bytes after the NUL keep what an earlier name left there. */
  function CopyName(nameBuf: seq<byte>, name: seq<byte>): (b: seq<byte>)
    requires |nameBuf| == MAX_FNAME_LEN + 1 && |name| <= MAX_FNAME_LEN
    ensures |b| == MAX_FNAME_LEN + 1
  {
    name + [0] + nameBuf[|name| + 1..]
  }

  /** Whatever the buffer held before, the block reads back as the number and at most 252 bytes of name. */
  lemma EntryReadsBack(ino: nat, nameBuf: seq<byte>, name: seq<byte>)
    requires |nameBuf| == MAX_FNAME_LEN + 1 && |name| <= MAX_FNAME_LEN
    requires 0 !in name && ino < 0x1_0000_0000
    ensures var b := Pad(EntryBytes(ino, CopyName(nameBuf, name)));
            EntryIno(b) == ino && EntryName(b) == Truncated(name)
  {
    var buf := CopyName(nameBuf, name);
    var b := Pad(EntryBytes(ino, buf));
    assert b[0..4] == Le32(ino);
    U32OfSlice(b, 0, ino);
    var r := b[4..260];
    assert r == buf[..252] + [0, 0, 0, 0];
    UpToNulUnique(r, Truncated(name));
  }

  /** From s to s', directory cur gained an entry that names file, and file gained a link. */
  ghost predicate EntryAdded(s: Sfs, s': Sfs, cur: nat, file: nat, name: seq<byte>)
    requires cur in s.inodes && file in s.inodes
  {
    && s'.ninos == s.ninos
    && s'.nextIno == s.nextIno + 1 + NewTables(s.inodes[cur].nblks)
    && s'.inodes.Keys == s.inodes.Keys
    && DiskGrows(s, s')
    && EntryFields(s, s', cur, file)
    && EntryBlocks(s, s', cur, file, name)
  }

  ghost predicate EntryFields(s: Sfs, s': Sfs, cur: nat, file: nat)
    requires s'.inodes.Keys == s.inodes.Keys
  {
    forall n | n in s.inodes ::
      && s'.inodes[n].hostIno == s.inodes[n].hostIno
      && s'.inodes[n].inode.kind == s.inodes[n].inode.kind
      && s'.inodes[n].inode.size == s.inodes[n].inode.size + (if n == cur then 256 else 0)
      && s'.inodes[n].inode.nlinks == (if n == file then (s.inodes[n].inode.nlinks + 1) % 0x1_0000
                                       else s.inodes[n].inode.nlinks)
  }

  ghost predicate EntryBlocks(s: Sfs, s': Sfs, cur: nat, file: nat, name: seq<byte>)
    requires s'.inodes.Keys == s.inodes.Keys && cur in s.inodes
  {
    && (forall n | n in s.inodes && n != cur :: FileBlocks(s', n) == FileBlocks(s, n))
    && |FileBlocks(s', cur)| == |FileBlocks(s, cur)| + 1
    && var d := FileBlocks(s', cur)[|FileBlocks(s, cur)|];
       FileBlocks(s', cur) == FileBlocks(s, cur) + [d] && EntryAt(s'.disk, d, file, Truncated(name))
  }

  /** inode->nlinks ++, on a uint16_t. */
  function OneMoreLink(c: CacheInode): CacheInode {
    c.(inode := c.inode.(nlinks := (c.inode.nlinks + 1) % 0x1_0000))
  }

  function Linked(s: Sfs, file: nat): Sfs
    requires file in s.inodes
  {
    s.(inodes := s.inodes[file := OneMoreLink(s.inodes[file])])
  }

  lemma LinkedSame(s: Sfs, file: nat)
    requires file in s.inodes
    ensures forall n, a | n in s.inodes :: Table(Linked(s, file), n, a) == Table(s, n, a)
    ensures forall n, k | n in s.inodes :: BlockAt(Linked(s, file), n, k) == BlockAt(s, n, k)
    ensures forall n | n in s.inodes :: FileBlocks(Linked(s, file), n) == FileBlocks(s, n)
  {
  }

  lemma LinkedMaps(s: Sfs, file: nat)
    requires Maps(s) && file in s.inodes
    ensures Maps(Linked(s, file))
  {
    hide Table, BlockAt, FileBlocks, MapOk;
    LinkedSame(s, file);
    var own :| TableOwners(s, own);
    assert TableOwners(Linked(s, file), own);
    forall n | n in s.inodes
      ensures MapOk(Linked(s, file), n)
    {
      LinkedMapOk(s, file, n);
    }
  }

  lemma LinkedMapOk(s: Sfs, file: nat, n: nat)
    requires file in s.inodes && n in s.inodes && MapOk(s, n)
    ensures MapOk(Linked(s, file), n)
  {
    hide BlockAt, FileBlocks;
    LinkedSame(s, file);
  }

  lemma LinkedChains(s: Sfs, file: nat)
    requires InodeChains(s) && file in s.inodes
    ensures InodeChains(Linked(s, file))
  {
    var s' := Linked(s, file);
    forall h, n | 0 <= h < HASH_LIST_SIZE && n in s'.inodeChains[h]
      ensures InBucket(s', n, h)
    {
      assert InBucket(s, n, h);
    }
  }

  lemma LinkedData(s: Sfs, file: nat)
    requires Data(s) && DataDistinct(s) && file in s.inodes
    ensures Data(Linked(s, file)) && DataDistinct(Linked(s, file))
  {
    LinkedSame(s, file);
    hide Table, BlockAt;
    var own :| DataOwners(s, own);
    assert DataOwners(Linked(s, file), own);
  }

  lemma LinkedInv(s: Sfs, file: nat)
    requires Inv(s) && file in s.inodes
    ensures Inv(Linked(s, file))
  {
    hide Maps, InodeChains, Data, DataDistinct;
    LinkedMaps(s, file);
    LinkedChains(s, file);
    LinkedData(s, file);
  }

  lemma EntryAddedStep(s: Sfs, s2: Sfs, cur: nat, file: nat, name: seq<byte>, b: Block)
    requires Inv(s) && cur in s.inodes && file in s.inodes
    requires EntryIno(b) == file && EntryName(b) == Truncated(name)
    requires Appended(WithData(s, b), s2, cur, 256, s.nextIno)
    ensures EntryAdded(s, Linked(s2, file), cur, file, name)
  {
    hide Inv, FileBlocks, EntryName, EntryIno, EntryFields, EntryBlocks;
    WithDataEffect(s, b);
    EntryFieldsStep(WithData(s, b), s2, cur, file, s.nextIno);
    SameEntryFields(s, WithData(s, b), Linked(s2, file), cur, file);
    EntryBlocksStep(s, s2, cur, file, name, b);
    assert NewTables(s.inodes[cur].nblks) >= 0;
  }

  lemma SameEntryFields(s: Sfs, t: Sfs, s': Sfs, cur: nat, file: nat)
    requires t.inodes == s.inodes && s'.inodes.Keys == s.inodes.Keys && EntryFields(t, s', cur, file)
    ensures EntryFields(s, s', cur, file)
  {
  }

  lemma EntryFieldsStep(s: Sfs, s2: Sfs, cur: nat, file: nat, d: nat)
    requires cur in s.inodes && file in s.inodes && Appended(s, s2, cur, 256, d)
    ensures EntryFields(s, Linked(s2, file), cur, file)
  {
    hide FileBlocks;
  }

  lemma EntryBlocksStep(s: Sfs, s2: Sfs, cur: nat, file: nat, name: seq<byte>, b: Block)
    requires Inv(s) && cur in s.inodes && file in s.inodes
    requires EntryIno(b) == file && EntryName(b) == Truncated(name)
    requires Appended(WithData(s, b), s2, cur, 256, s.nextIno)
    ensures EntryBlocks(s, Linked(s2, file), cur, file, name)
  {
    hide Inv, FileBlocks, EntryName, EntryIno;
    WithDataEffect(s, b);
    LinkedSame(s2, file);
  }

  lemma EntryAddedLinks(s: Sfs, s': Sfs, cur: nat, file: nat, name: seq<byte>)
    requires Counters(s) && Owned(s) && Links(s) && IsDir(s, cur) && file in s.inodes
    requires EntryAdded(s, s', cur, file, name)
    ensures Links(s')
  {
    hide FileBlocks, Links;
    assert forall n: nat | n != cur :: SameDir(s, s', n);
    LinksNewEntry(s, s', cur, FileBlocks(s', cur)[|FileBlocks(s, cur)|], file);
  }

  lemma EntryAddedSealed(s: Sfs, s': Sfs, cur: nat, file: nat, name: seq<byte>, open: set<nat>)
    requires cur in s.inodes && file in s.inodes && EntryAdded(s, s', cur, file, name)
    requires cur in open && (file in open || !IsDir(s, file))
    ensures Sealed(s, s', open)
  {
    hide FileBlocks;
  }

  // ---------- the recursive walk ----------

  /** The host numbers that have an inode. */
  ghost function Seen(s: Sfs): set<nat> {
    set n | n in s.inodes :: s.inodes[n].hostIno
  }

  /** A regular file has at most one inode, however many entries name it. */
  ghost predicate OneInodeEach(s: Sfs, files: Files) {
    forall n, m | n in s.inodes && m in s.inodes && s.inodes[n].hostIno == s.inodes[m].hostIno ::
      n == m || s.inodes[n].hostIno !in files
  }

  /** Inodes of type FILE are those of regular files, and each holds its file's contents. */
  ghost predicate FilesDone(s: Sfs, files: Files) {
    && OneInodeEach(s, files)
    && forall n | n in s.inodes ::
      && s.inodes[n].inode.kind <= TYPE_LINK
      && (s.inodes[n].inode.kind == TYPE_FILE <==> s.inodes[n].hostIno in files)
      && (s.inodes[n].hostIno in files ==> ContentHolds(s, n, files[s.inodes[n].hostIno]))
  }

  /** What holds between two calls of add_file, add_link and add_dir. */
  ghost predicate Good(s: Sfs, files: Files) {
    Inv(s) && Links(s) && FilesDone(s, files)
  }

  lemma ContentFrame(s: Sfs, s': Sfs, n: nat, cs: seq<seq<byte>>)
    requires n in s.inodes && n in s'.inodes && ContentHolds(s, n, cs) && SameContent(s, s', n) && DiskGrows(s, s')
    ensures ContentHolds(s', n, cs)
  {
  }

  lemma FilesDoneFrame(s: Sfs, s': Sfs, files: Files, open: set<nat>)
    requires FilesDone(s, files) && Sealed(s, s', open)
    requires forall n | n in open && n in s.inodes :: IsDir(s, n)
    requires forall n | n in s'.inodes && n !in s.inodes ::
               && n == s.nextIno && (s'.inodes[n].hostIno in files ==> s'.inodes[n].hostIno !in Seen(s))
               && s'.inodes[n].inode.kind <= TYPE_LINK
               && (s'.inodes[n].inode.kind == TYPE_FILE <==> s'.inodes[n].hostIno in files)
               && (s'.inodes[n].hostIno in files ==> ContentHolds(s', n, files[s'.inodes[n].hostIno]))
    ensures FilesDone(s', files)
  {
    forall n | n in s'.inodes && n in s.inodes && s'.inodes[n].hostIno in files
      ensures ContentHolds(s', n, files[s'.inodes[n].hostIno])
    {
      assert SameContent(s, s', n);
      ContentFrame(s, s', n, files[s.inodes[n].hostIno]);
    }
  }

  lemma SeenSame(s: Sfs, s': Sfs)
    requires s'.inodes.Keys == s.inodes.Keys
    requires forall n | n in s.inodes :: s'.inodes[n].hostIno == s.inodes[n].hostIno
    ensures Seen(s') == Seen(s)
  {
  }

  lemma SeenNew(s: Sfs, hostIno: nat, kind: nat)
    requires |s.inodeChains| == HASH_LIST_SIZE && s.nextIno !in s.inodes
    ensures Seen(WithInode(s, hostIno, kind)) == Seen(s) + {hostIno}
  {
    var s' := WithInode(s, hostIno, kind);
    assert s'.inodes[s.nextIno].hostIno == hostIno;
    forall h | h in Seen(s)
      ensures h in Seen(s')
    {
      var n :| n in s.inodes && s.inodes[n].hostIno == h;
      assert s'.inodes[n].hostIno == h;
    }
  }

  lemma NewInodeSealed(s: Sfs, hostIno: nat, kind: nat)
    requires Inv(s) && s.nextIno < s.ninos
    ensures var s' := WithInode(s, hostIno, kind);
            && Inv(s') && Sealed(s, s', {}) && s.nextIno !in s.inodes
            && Seen(s') == Seen(s) + {hostIno} && FileBlocks(s', s.nextIno) == []
  {
    var s' := WithInode(s, hostIno, kind);
    hide Inv, Seen;
    WithInodeSame(s, hostIno, kind);
    WithInodeInv(s, hostIno, kind);
    InodeNumbers(s, BLKN_ROOT);
    SeenNew(s, hostIno, kind);
    hide FileBlocks, WithInode;
    forall n | n in s.inodes
      ensures SameContent(s, s', n)
    {
    }
  }

  lemma FilledIsSealed(s0: Sfs, s: Sfs, f: nat, cs: seq<seq<byte>>)
    requires f in s0.inodes && Filled(s0, s, f, cs)
    ensures Sealed(s0, s, {f}) && Seen(s) == Seen(s0)
  {
    hide FileBlocks, ContentHolds, Tables, Seen;
    SeenSame(s0, s);
  }

  /** A new file or link: its inode was allocated in s, filled, and is now at s2. */
  lemma FilledSealed(s: Sfs, s2: Sfs, hostIno: nat, kind: nat, cs: seq<seq<byte>>)
    requires Inv(s) && s.nextIno < s.ninos
    requires Filled(WithInode(s, hostIno, kind), s2, s.nextIno, cs)
    ensures Sealed(s, s2, {}) && s.nextIno !in s.inodes && s.nextIno in s2.inodes
    ensures s2.inodes.Keys == s.inodes.Keys + {s.nextIno}
    ensures s2.inodes[s.nextIno].inode.kind == kind && s2.inodes[s.nextIno].hostIno == hostIno
    ensures ContentHolds(s2, s.nextIno, cs) && Seen(s2) == Seen(s) + {hostIno}
  {
    var s1 := WithInode(s, hostIno, kind);
    hide Inv, FileBlocks, ContentHolds, Tables, Sealed, Seen, DiskGrows;
    NewInodeSealed(s, hostIno, kind);
    FilledIsSealed(s1, s2, s.nextIno, cs);
    SealedCompose(s, s1, s2, {}, {s.nextIno}, {});
  }

  /** The plan for node was carried out from s to s', with extra further blocks. */
  ghost predicate PlanMet(s: Sfs, s': Sfs, files: Files, node: Host, extra: nat) {
    var q := PlanNode(node, files, Seen(s));
    q.Needs? && Seen(s') == q.seen && s'.nextIno == s.nextIno + q.blocks + extra
  }

  /** Directory cur has one more entry, for node, which is now represented. */
  ghost predicate NewEntry(
    s: Sfs, s': Sfs, files: Files, open: set<nat>, cur: nat, name: seq<byte>, node: Host)
    requires cur in s.inodes && cur in s'.inodes
  {
    && |FileBlocks(s', cur)| == |FileBlocks(s, cur)| + 1
    && var d := FileBlocks(s', cur)[|FileBlocks(s, cur)|];
       && FileBlocks(s', cur) == FileBlocks(s, cur) + [d]
       && d in s'.disk && EntryName(s'.disk[d]) == Truncated(name)
       && Holds(s', files, open, EntryIno(s'.disk[d]), cur, node)
  }

  /** From s to s', node was packed into directory cur. */
  ghost predicate NodeAdded(
    s: Sfs, s': Sfs, files: Files, open: set<nat>, cur: nat, name: seq<byte>, node: Host)
    requires cur in s.inodes
  {
    && s'.ninos == s.ninos
    && Sealed(s, s', {cur})
    && cur in s'.inodes
    && s'.inodes[cur].inode.size == s.inodes[cur].inode.size + 256
    && s'.inodes[cur].inode.nlinks == (s.inodes[cur].inode.nlinks + if node.Dir? then 1 else 0) % 0x1_0000
    && NewEntry(s, s', files, open, cur, name, node)
    && PlanMet(s, s', files, node, 1 + NewTables(s.inodes[cur].nblks))
  }

  /** From s to s2, an inode for node was built, while directory cur at most gained links. */
  ghost predicate Built(s: Sfs, s2: Sfs, files: Files, cur: nat, node: Host)
    requires cur in s.inodes
  {
    && Sealed(s, s2, {cur}) && s2.ninos == s.ninos && cur in s2.inodes
    && FileBlocks(s2, cur) == FileBlocks(s, cur)
    && s2.inodes[cur].nblks == s.inodes[cur].nblks
    && s2.inodes[cur].inode.size == s.inodes[cur].inode.size
    && s2.inodes[cur].inode.nlinks == (s.inodes[cur].inode.nlinks + if node.Dir? then 1 else 0) % 0x1_0000
    && PlanMet(s, s2, files, node, 0)
  }

  /** The last step of add_file, add_link and add_dir: add_entry, from s2 to s'. */
  lemma Finish(s: Sfs, s2: Sfs, s': Sfs, files: Files, open: set<nat>, cur: nat, name: seq<byte>, node: Host, c: nat)
    requires cur in s.inodes && cur in open && Built(s, s2, files, cur, node)
    requires c in s2.inodes && c != cur && EntryAdded(s2, s', cur, c, name)
    requires Holds(s', files, open, c, cur, node)
    requires c in s.inodes ==> !IsDir(s, c)
    ensures NodeAdded(s, s', files, open, cur, name, node)
  {
    hide FileBlocks, Holds, PlanNode, NewTables, EntryName, EntryIno, Truncated, Seen;
    SeenSame(s2, s');
    assert Sealed(s, s', {cur}) by {
      EntryAddedSealed(s2, s', cur, c, name, {cur, c});
      FinishSealed(s, s2, s', cur, c);
    }
    hide Sealed, DiskGrows;
  }

  lemma FinishSealed(s: Sfs, s2: Sfs, s': Sfs, cur: nat, c: nat)
    requires Sealed(s, s2, {cur}) && Sealed(s2, s', {cur, c})
    requires c in s2.inodes && (c in s.inodes ==> !IsDir(s, c) && SameContent(s2, s', c))
    ensures Sealed(s, s', {cur})
  {
    hide FileBlocks;
    forall n | n in s.inodes && n != cur
      ensures SameContent(s, s', n)
    {
      assert SameContent(s, s2, n);
      assert SameContent(s2, s', n);
    }
  }

  /** add_file and add_link: inode c represents node before its entry is added. */
  lemma FinishLeaf(
    s: Sfs, s2: Sfs, s': Sfs, files: Files, open: set<nat>, cur: nat, name: seq<byte>, node: Host, c: nat)
    requires IsDir(s, cur) && cur in open && Sealed(s, s2, {}) && s2.ninos == s.ninos
    requires s.inodes[cur].inode.nlinks < 0x1_0000
    requires node.File? || node.Link?
    requires c in s2.inodes && !IsDir(s2, c) && EntryAdded(s2, s', cur, c, name)
    requires Holds(s2, files, open, c, cur, node)
    requires PlanMet(s, s2, files, node, 0)
    ensures NodeAdded(s, s', files, open, cur, name, node)
  {
    hide PlanMet, Holds, NodeAdded, EntryAdded, DiskGrows;
    assert SameContent(s, s2, cur);
    assert s2.inodes[cur].nblks == |FileBlocks(s2, cur)| && s.inodes[cur].nblks == |FileBlocks(s, cur)|;
    hide FileBlocks;
    assert Built(s, s2, files, cur, node);
    assert cur in s2.inodes && IsDir(s2, cur) && (c in s.inodes ==> !IsDir(s, c));
    hide Sealed, Built;
    EntryAddedSealed(s2, s', cur, c, name, open);
    HoldsFrame(s2, s', files, open, c, cur, node);
    Finish(s, s2, s', files, open, cur, name, node, c);
  }

  /** The blocks that packing node into directory cur takes are there. */
  ghost predicate StepFits(s: Sfs, files: Files, cur: nat, node: Host)
    requires cur in s.inodes
  {
    var q := PlanNode(node, files, Seen(s));
    && q.Needs? && s.inodes[cur].nblks < LN_NBLKS
    && s.nextIno + q.blocks + 1 + NewTables(s.inodes[cur].nblks) <= s.ninos
  }

  lemma DirFits(s: Sfs, files: Files, cur: nat, h: nat, es: seq<Entry>)
    requires cur in s.inodes
    ensures var p := PlanDir(es, files, Seen(s) + {h});
            StepFits(s, files, cur, Dir(h, es)) <==>
              && h !in Seen(s) && p.Needs? && s.inodes[cur].nblks < LN_NBLKS
              && s.nextIno + 1 + p.blocks + 1 + NewTables(s.inodes[cur].nblks) <= s.ninos
  {
    hide PlanDir, Seen, NewTables;
  }

  lemma SeenIff(s: Sfs, hostIno: nat)
    ensures hostIno in Seen(s) <==> exists n :: n in s.inodes && s.inodes[n].hostIno == hostIno
  {
  }

  lemma SealedSelf(s: Sfs)
    ensures Sealed(s, s, {})
  {
  }

  lemma CurStays(s: Sfs, s2: Sfs, cur: nat)
    requires IsDir(s, cur) && Sealed(s, s2, {})
    ensures IsDir(s2, cur) && s2.inodes[cur].nblks == s.inodes[cur].nblks
  {
    assert SameContent(s, s2, cur);
    assert |FileBlocks(s2, cur)| == |FileBlocks(s, cur)|;
  }

  lemma NewInodeGood(s: Sfs, hostIno: nat, kind: nat)
    requires Inv(s) && Links(s) && s.nextIno < s.ninos
    ensures Inv(WithInode(s, hostIno, kind)) && Links(WithInode(s, hostIno, kind))
  {
    WithInodeInv(s, hostIno, kind);
    LinksNewInode(s, hostIno, kind);
  }

  lemma EntryAddedGood(s: Sfs, s': Sfs, files: Files, cur: nat, file: nat, name: seq<byte>)
    requires IsDir(s, cur) && file in s.inodes && EntryAdded(s, s', cur, file, name) && FilesDone(s, files)
    ensures FilesDone(s', files)
  {
    hide FileBlocks, ContentHolds;
    if IsDir(s, file) {
      EntryAddedSealed(s, s', cur, file, name, {cur, file});
      FilesDoneFrame(s, s', files, {cur, file});
    } else {
      EntryAddedSealed(s, s', cur, file, name, {cur});
      FilesDoneFrame(s, s', files, {cur});
    }
  }

  /** A leaf is built at inode c in state s2 and can be entered into cur. */
  ghost predicate LeafReady(s: Sfs, s2: Sfs, files: Files, open: set<nat>, cur: nat, node: Host, c: nat) {
    && Sealed(s, s2, {}) && s2.ninos == s.ninos
    && IsDir(s, cur) && IsDir(s2, cur) && s2.inodes[cur].nblks == s.inodes[cur].nblks
    && c in s2.inodes && !IsDir(s2, c) && Holds(s2, files, open, c, cur, node)
    && PlanMet(s, s2, files, node, 0) && FilesDone(s2, files)
    && forall n | n in s2.inodes :: n in s.inodes || n == c
  }

  /** Link inodes and new file inodes are ready once they are filled. */
  lemma FilledReady(s: Sfs, s2: Sfs, files: Files, open: set<nat>, cur: nat, node: Host, cs: seq<seq<byte>>)
    requires Good(s, files) && s.nextIno < s.ninos && IsDir(s, cur) && s.nextIno !in open
    requires node.File? || node.Link?
    requires node.File? ==>
      node.hostIno in files && cs == files[node.hostIno] && node.hostIno !in Seen(s) && ReadsOk(cs)
    requires node.Link? ==> node.hostIno !in files && cs == [node.target] && |node.target| < BLKSIZE
    requires Filled(WithInode(s, node.hostIno, if node.File? then TYPE_FILE else TYPE_LINK), s2, s.nextIno, cs)
    ensures LeafReady(s, s2, files, open, cur, node, s.nextIno)
  {
    hide Inv, Links, FileBlocks, ContentHolds, Tables, Seen, Sealed, DiskGrows, ReadsOk, Filled, PlanMet, FilesDone;
    InodeNumbers(s, cur);
    var kind := if node.File? then TYPE_FILE else TYPE_LINK;
    FilledLength(WithInode(s, node.hostIno, kind), s2, s.nextIno, cs);
    FilledSealed(s, s2, node.hostIno, kind, cs);
    CurStays(s, s2, cur);
    FilledPlan(s, s2, files, node, cs);
    FilledDone(s, s2, files, node, cs);
  }

  lemma FilledDone(s: Sfs, s2: Sfs, files: Files, node: Host, cs: seq<seq<byte>>)
    requires FilesDone(s, files) && Sealed(s, s2, {}) && s2.inodes.Keys == s.inodes.Keys + {s.nextIno}
    requires node.File? ==> node.hostIno in files && cs == files[node.hostIno] && node.hostIno !in Seen(s)
    requires node.Link? ==> node.hostIno !in files
    requires node.File? || node.Link?
    requires s2.inodes[s.nextIno].hostIno == node.hostIno && ContentHolds(s2, s.nextIno, cs)
    requires s2.inodes[s.nextIno].inode.kind == if node.File? then TYPE_FILE else TYPE_LINK
    ensures FilesDone(s2, files)
  {
    hide FileBlocks, ContentHolds, Sealed, Seen;
    FilesDoneFrame(s, s2, files, {});
  }

  lemma FilledPlan(s: Sfs, s2: Sfs, files: Files, node: Host, cs: seq<seq<byte>>)
    requires node.File? || node.Link?
    requires node.File? ==>
      node.hostIno in files && cs == files[node.hostIno] && node.hostIno !in Seen(s) && ReadsOk(cs)
    requires node.Link? ==> cs == [node.target] && |node.target| < BLKSIZE
    requires Seen(s2) == Seen(s) + {node.hostIno} && s2.nextIno == s.nextIno + 1 + |cs| + Tables(|cs|)
    ensures PlanMet(s, s2, files, node, 0)
  {
    hide Seen, ReadsOk;
  }

  /** A regular file that was packed before is ready as it is. */
  lemma SharedReady(s: Sfs, files: Files, open: set<nat>, cur: nat, hostIno: nat, c: nat)
    requires FilesDone(s, files) && IsDir(s, cur) && hostIno in files && c in s.inodes && s.inodes[c].hostIno == hostIno
    requires forall o | o in open :: IsDir(s, o)
    ensures LeafReady(s, s, files, open, cur, File(hostIno), c)
  {
    SealedSelf(s);
    hide FileBlocks, ContentHolds, Sealed;
    SeenIff(s, hostIno);
  }

  lemma LeafEntered(
    s: Sfs, s2: Sfs, s': Sfs, files: Files, open: set<nat>, cur: nat, name: seq<byte>, node: Host, c: nat)
    requires Inv(s) && cur in open && (node.File? || node.Link?) && LeafReady(s, s2, files, open, cur, node, c)
    requires EntryAdded(s2, s', cur, c, name)
    ensures NodeAdded(s, s', files, open, cur, name, node) && FilesDone(s', files)
  {
    hide Inv, FileBlocks, Holds, Sealed, PlanMet, NodeAdded, EntryAdded, FilesDone;
    InodeNumbers(s, cur);
    FinishLeaf(s, s2, s', files, open, cur, name, node, c);
    EntryAddedGood(s2, s', files, cur, c, name);
  }
}
