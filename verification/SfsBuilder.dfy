/** mksfs itself: the operations of lab8/tools/mksfs.c on struct sfs_fs. A run that reaches bug()
    or a failing assert is one in which an operation returns ok == false; the program has then exited,
    and nothing is said about the state. */
module SfsBuilder {
  import opened Bytes
  import opened SfsState
  import opened SfsBlockMap
  import opened SfsAppend
  import opened SfsHost
  import opened SfsTree
  import opened SfsLinks
  import opened SfsPlan
  import opened SfsWalk
  import opened SfsReach
  import opened SfsDir
  import opened FreeMap
  import opened SfsClose

  class Builder {
    const ninos: nat
    var nextIno: nat
    var unused: int
    var inodes: map<nat, CacheInode>
    var inodeChains: seq<seq<nat>>
    var blocks: map<nat, seq<nat>>
    var blockChains: seq<seq<nat>>
    var disk: map<nat, Block>
    // super.info: the label, a NUL, and whatever malloc left behind it
    const info: seq<byte>
    // the static buffer of add_entry, which keeps the tail of longer earlier names
    var entryName: seq<byte>

    ghost function Model(): Sfs
      reads this
    {
      Sfs(ninos, nextIno, unused, inodes, inodeChains, blocks, blockChains, disk)
    }

    ghost predicate Valid()
      reads this
    {
      Inv(Model()) && |entryName| == MAX_FNAME_LEN + 1
    }

    /** create_sfs, once the size of the image is known to be sufficient. */
    constructor (ninos: nat, info: seq<byte>)
      requires FirstFree(ninos) < ninos <= MAX_NBLKS && |info| == INFO_LEN
      ensures this.ninos == ninos && this.info == info && Model() == InitialState(ninos)
      ensures |entryName| == MAX_FNAME_LEN + 1
    {
      this.ninos, this.info := ninos, info;
      nextIno, unused := FirstFree(ninos), ninos - FirstFree(ninos);
      inodes := map[BLKN_ROOT := NewInode(0, TYPE_DIR)];
      var empty: seq<seq<nat>> := seq(HASH_LIST_SIZE, _ => []);
      blocks, blockChains, disk := map[], empty, map[];
      inodeChains := empty[Hash32(0) := [BLKN_ROOT]];
      entryName := seq(MAX_FNAME_LEN + 1, _ => 0);
    }

    /** sfs_alloc_ino: the next block, if there is one. */
    method AllocIno() returns (ok: bool, ino: nat)
      modifies `nextIno, `unused
      ensures ok == (old(nextIno) < ninos)
      ensures ok ==> ino == old(nextIno) && nextIno == ino + 1 && unused == old(unused) - 1
    {
      if nextIno < ninos {
        unused := unused - 1;
        ino := nextIno;
        nextIno := nextIno + 1;
        return true, ino;
      }
      return false, 0;
    }

    /** alloc_cache_block: the bucket is chosen by the parameter, not by the number allocated. */
    method AllocCacheBlock(ino: nat) returns (ok: bool, cb: nat)
      requires |blockChains| == HASH_LIST_SIZE
      modifies `nextIno, `unused, `blocks, `blockChains
      ensures ino == 0 ==> ok == (old(nextIno) < ninos)
      ensures ino == 0 && ok ==> cb == old(nextIno) && Model() == WithBlock(old(Model()))
      ensures ino != 0 ==> ok && cb == ino && nextIno == old(nextIno) && unused == old(unused)
      ensures ino != 0 ==> blocks == old(blocks)[ino := ZeroTable()]
      ensures ino != 0 ==> blockChains == old(blockChains)[Hash32(ino) := [ino] + old(blockChains)[Hash32(ino)]]
    {
      ok, cb := true, ino;
      if ino == 0 {
        ok, cb := AllocIno();
        if !ok { return; }
      }
      blocks := blocks[cb := ZeroTable()];
      var h := Hash32(ino);
      blockChains := blockChains[h := [cb] + blockChains[h]];
    }

    /** search_cache_block: walks the bucket of the number it looks for. */
    method SearchCacheBlock(ino: nat) returns (cb: nat)
      requires |blockChains| == HASH_LIST_SIZE && ino != 0
      ensures cb == if ino in blockChains[Hash32(ino)] then ino else 0
    {
      var chain := blockChains[Hash32(ino)];
      var i := 0;
      while i < |chain| && chain[i] != ino
        invariant 0 <= i <= |chain| && ino !in chain[..i]
      {
        i := i + 1;
      }
      cb := if i < |chain| then chain[i] else 0;
    }

    /** update_cache on a cached pointer and the number stored for it. */
    method UpdateCache(cb: nat, ino: nat) returns (ok: bool, cb': nat, ino': nat)
      requires |blockChains| == HASH_LIST_SIZE
      modifies `nextIno, `unused, `blocks, `blockChains
      ensures ino == 0 ==> ok == (old(nextIno) < ninos)
      ensures ino == 0 && ok ==> cb' == ino' == old(nextIno) && Model() == WithBlock(old(Model()))
      ensures ino != 0 ==> Model() == old(Model()) && ok == (cb == ino || ino in blockChains[Hash32(ino)])
      ensures ino != 0 && ok ==> cb' == ino' == ino
    {
      ok, cb', ino' := true, cb, ino;
      if ino == 0 {
        ok, cb' := AllocCacheBlock(0);
        ino' := cb';
      } else if cb == 0 || cb != ino {
        cb' := SearchCacheBlock(ino);
        ok := cb' != 0 && cb' == ino;
      }
    }

    /** The single-indirect branch of append_block. */
    method StoreSingle(f: nat, blk: nat, ghost size: nat) returns (ok: bool)
      requires Inv(Model()) && f in inodes && NDIRECT <= inodes[f].nblks < L1_NBLKS
      modifies `nextIno, `unused, `blocks, `blockChains, `inodes
      ensures ok == (old(nextIno) + NewTables(old(inodes[f].nblks)) <= ninos)
      ensures ok ==> f in inodes && Grown(Model(), f, size) == AppendResult(old(Model()), f, size, blk)
    {
      hide Inv;
      TableLengths(Model(), f);
      CachedTablesAreCurrent(Model(), f);
      var cb, ino;
      ok, cb, ino := UpdateCache(inodes[f].l1, inodes[f].inode.indirect);
      if !ok { return; }
      var c := inodes[f];
      inodes := inodes[f := c.(l1 := cb, inode := c.inode.(indirect := ino))];
      blocks := blocks[cb := Put(blocks[cb], c.nblks - NDIRECT, blk)];
    }

    /** The two update_cache calls of the double-indirect branch. */
    method FindDouble(f: nat) returns (ok: bool, cb2: nat, cb1: nat)
      requires Inv(Model()) && f in inodes && L1_NBLKS <= inodes[f].nblks < LN_NBLKS
      modifies `nextIno, `unused, `blocks, `blockChains, `inodes
      ensures ok == (old(nextIno) + NewTables(old(inodes[f].nblks)) <= ninos)
      ensures ok ==>
        inodes == old(inodes)[f := old(inodes)[f].(l2 := cb2, inode := old(inodes)[f].inode.(dbIndirect := cb2))]
      ensures ok ==> DoubleFound(old(Model()), Model().(inodes := old(inodes)), f, cb2, cb1)
    {
      ghost var s := Model();
      hide Inv;
      CachedTablesAreCurrent(s, f);
      TableLengths(s, f);
      var m := inodes[f].nblks - L1_NBLKS;
      var ino1, ino2;
      cb1 := 0;
      ok, cb2, ino2 := UpdateCache(inodes[f].l2, inodes[f].inode.dbIndirect);
      if !ok { return; }
      inodes := inodes[f := inodes[f].(l2 := cb2, inode := inodes[f].inode.(dbIndirect := ino2))];
      ok, cb1, ino1 := UpdateCache(inodes[f].l1, blocks[cb2][m / BLK_NENTRY]);
    }

    /** The double-indirect branch of append_block. */
    method StoreDouble(f: nat, blk: nat, ghost size: nat) returns (ok: bool)
      requires Inv(Model()) && f in inodes && L1_NBLKS <= inodes[f].nblks < LN_NBLKS
      modifies `nextIno, `unused, `blocks, `blockChains, `inodes
      ensures ok == (old(nextIno) + NewTables(old(inodes[f].nblks)) <= ninos)
      ensures ok ==> f in inodes && Grown(Model(), f, size) == AppendResult(old(Model()), f, size, blk)
    {
      ghost var s := Model();
      hide Inv, AppendResult, DoubleFound;
      var m := inodes[f].nblks - L1_NBLKS;
      var cb1, cb2;
      ok, cb2, cb1 := FindDouble(f);
      if !ok { return; }
      DoubleResult(s, Model().(inodes := s.inodes), f, size, blk, cb2, cb1);
      inodes := inodes[f := inodes[f].(l1 := cb1)];
      blocks := blocks[cb2 := Put(blocks[cb2], m / BLK_NENTRY, cb1)];
      blocks := blocks[cb1 := Put(blocks[cb1], m % BLK_NENTRY, blk)];
    }

    /** append_block: file f grows by block blk; every other file and every disk block is untouched. */
    method AppendBlock(f: nat, size: nat, blk: nat) returns (ok: bool)
      requires Valid() && f in inodes && size <= BLKSIZE
      requires blk in disk && forall n | n in inodes :: blk !in FileBlocks(Model(), n)
      modifies `nextIno, `unused, `blocks, `blockChains, `inodes
      ensures ok <==> (old(inodes[f].nblks) < LN_NBLKS
                && old(nextIno) + NewTables(old(inodes[f].nblks)) <= ninos)
      ensures ok ==> inodes.Keys == old(inodes.Keys)
      ensures ok ==> Valid() && Appended(old(Model()), Model(), f, size, blk)
    {
      ghost var s := Model();
      hide Inv, FileBlocks, Tables;
      var nblks := inodes[f].nblks;
      if nblks >= LN_NBLKS {
        return false;
      }
      TableLengths(s, f);
      assert Tables(nblks + 1) == Tables(nblks) + NewTables(nblks);
      if nblks < NDIRECT {
        var c := inodes[f];
        inodes := inodes[f := c.(inode := c.inode.(direct := c.inode.direct[nblks := blk]))];
        assert Grown(Model(), f, size) == AppendResult(s, f, size, blk);
      } else if nblks < L1_NBLKS {
        ok := StoreSingle(f, blk, size);
        if !ok { return; }
      } else {
        ok := StoreDouble(f, blk, size);
        if !ok { return; }
      }
      ghost var s2 := Model();
      inodes := inodes[f := Grow(inodes[f], size)];
      assert Model() == Grown(s2, f, size);
      AppendRefinesSequence(s, f, size, blk);
      return true;
    }

    /** alloc_cache_inode: a fresh inode at the head of the bucket of its host number. */
    method AllocCacheInode(hostIno: nat, ino: nat, kind: nat) returns (ok: bool, ci: nat)
      requires |inodeChains| == HASH_LIST_SIZE
      modifies `nextIno, `unused, `inodes, `inodeChains
      ensures ino == 0 ==> ok == (old(nextIno) < ninos)
      ensures ino == 0 && ok ==> ci == old(nextIno) && Model() == WithInode(old(Model()), hostIno, kind)
      ensures ino != 0 ==> ok && ci == ino && nextIno == old(nextIno) && unused == old(unused)
      ensures ino != 0 ==> inodes == old(inodes)[ino := NewInode(hostIno, kind)]
      ensures ino != 0 ==>
        inodeChains == old(inodeChains)[Hash32(hostIno) := [ino] + old(inodeChains)[Hash32(hostIno)]]
    {
      ok, ci := true, ino;
      if ino == 0 {
        ok, ci := AllocIno();
        if !ok { return; }
      }
      inodes := inodes[ci := NewInode(hostIno, kind)];
      var h := Hash32(hostIno);
      inodeChains := inodeChains[h := [ci] + inodeChains[h]];
    }

    /** search_cache_inode: the newest inode for a host number, or 0 if there is none. */
    method SearchCacheInode(hostIno: nat) returns (ci: nat)
      requires InodeChains(Model()) && 0 !in inodes
      ensures ci == 0 <==> forall n | n in inodes :: inodes[n].hostIno != hostIno
      ensures ci != 0 ==> ci in inodes && inodes[ci].hostIno == hostIno
      ensures ci != 0 ==> forall n | n in inodes && inodes[n].hostIno == hostIno :: n <= ci
    {
      hide Hash32;
      var chain := inodeChains[Hash32(hostIno)];
      assert Descending(chain);
      assert forall i | 0 <= i < |chain| :: InBucket(Model(), chain[i], Hash32(hostIno));
      var i := 0;
      while i < |chain| && inodes[chain[i]].hostIno != hostIno
        invariant 0 <= i <= |chain|
        invariant forall j | 0 <= j < i :: inodes[chain[j]].hostIno != hostIno
      {
        i := i + 1;
      }
      ci := if i < |chain| then chain[i] else 0;
    }

    /** write_block: data, zero-filled to a whole block. */
    method WriteBlock(data: seq<byte>, ino: nat)
      requires |data| <= BLKSIZE && ino < ninos
      modifies `disk
      ensures disk == old(disk)[ino := Pad(data)]
    {
      var buffer := data;
      if |data| != BLKSIZE {
        buffer := data + seq(BLKSIZE - |data|, _ => 0);
      }
      assert buffer == Pad(data);
      var block: Block := buffer;
      disk := disk[ino := block];
    }

    /** sfs_alloc_ino and write_block on the number it gave: a block that no file has yet. */
    method WriteNewBlock(data: seq<byte>) returns (ok: bool, d: nat)
      requires Inv(Model()) && |data| <= BLKSIZE
      modifies `nextIno, `unused, `disk
      ensures ok == (old(nextIno) < ninos)
      ensures ok ==> d == old(nextIno) && Model() == WithData(old(Model()), Pad(data)) && Inv(Model())
      ensures ok ==> d in disk && forall n | n in inodes :: d !in FileBlocks(Model(), n)
    {
      ghost var s := Model();
      hide Inv, FileBlocks;
      ok, d := AllocIno();
      if !ok { return; }
      WriteBlock(data, d);
      WithDataFresh(s, Pad(data));
    }

    /** add_entry: one more entry in directory cur, naming file. */
    method AddEntry(cur: nat, file: nat, name: seq<byte>) returns (ok: bool)
      requires Valid() && Links(Model())
      requires IsDir(Model(), cur) && file in inodes && |name| <= MAX_FNAME_LEN && 0 !in name
      modifies `nextIno, `unused, `blocks, `blockChains, `inodes, `disk, `entryName
      ensures ok <==> (old(inodes[cur].nblks) < LN_NBLKS
                && old(nextIno) + 1 + NewTables(old(inodes[cur].nblks)) <= ninos)
      ensures ok ==> Valid() && Links(Model()) && EntryAdded(old(Model()), Model(), cur, file, name)
    {
      ghost var s := Model();
      hide Inv, Links, Tables, Table, BlockAt, FileBlocks, Appended, EntryAdded, EntryIno, EntryName, NewTables;
      InodeNumbers(s, file);
      EntryReadsBack(file, entryName, name);
      entryName := CopyName(entryName, name);
      var data := EntryBytes(file, entryName);
      var d;
      ok, d := WriteNewBlock(data);
      if !ok { return; }
      ok := AppendBlock(cur, 256, d);
      if !ok { return; }
      ghost var s2 := Model();
      inodes := inodes[file := OneMoreLink(inodes[file])];
      assert Model() == Linked(s2, file);
      LinkedInv(s2, file);
      EntryAddedStep(s, s2, cur, file, name, Pad(data));
      EntryAddedLinks(s, Model(), cur, file, name);
    }

    /** open_file: the file is filled with what the reads return. */
    method OpenFile(f: nat, chunks: seq<seq<byte>>) returns (ok: bool)
      requires Valid() && Links(Model()) && f in inodes && !IsDir(Model(), f)
      requires inodes[f].nblks == 0 && inodes[f].inode.size == 0
      requires forall i | 0 <= i < |chunks| :: |chunks[i]| <= BLKSIZE
      modifies `nextIno, `unused, `blocks, `blockChains, `inodes, `disk
      ensures ok <==> (ReadsOk(chunks) && old(nextIno) + |chunks| + Tables(|chunks|) <= ninos)
      ensures ok ==> Valid() && Links(Model()) && Filled(old(Model()), Model(), f, chunks)
    {
      ghost var s0 := Model();
      hide Inv, Links, Filled, Appended, FileBlocks, ContentHolds, Tables, NewTables;
      var last := BLKSIZE;
      var i := 0;
      FilledNothing(s0, f);
      while i < |chunks|
        invariant 0 <= i <= |chunks| && i <= LN_NBLKS
        invariant Valid() && f in inodes && inodes[f].nblks == i && ninos == s0.ninos
        invariant Filled(s0, Model(), f, chunks[..i])
        invariant nextIno == s0.nextIno + i + Tables(i)
        invariant last == if i == 0 then BLKSIZE else |chunks[i - 1]|
        invariant forall j | 0 <= j < i - 1 :: |chunks[j]| == BLKSIZE
      {
        ghost var s := Model();
        if last != BLKSIZE {
          return false;
        }
        TablesStep(i, |chunks|);
        var ino;
        ok, ino := WriteNewBlock(chunks[i]);
        if !ok { return; }
        ok := AppendBlock(f, |chunks[i]|, ino);
        if !ok { return; }
        FilledStep(s0, s, Model(), f, chunks[..i], chunks[i]);
        assert chunks[..i] + [chunks[i]] == chunks[..i + 1];
        FilledLength(s0, Model(), f, chunks[..i + 1]);
        last := |chunks[i]|;
        i := i + 1;
      }
      assert chunks[..i] == chunks;
      FilledLinks(s0, Model(), f, chunks);
      InodeNumbers(Model(), f);
      return true;
    }

    /** open_link: the target fills the link's only block. */
    method OpenLink(f: nat, target: seq<byte>) returns (ok: bool)
      requires Valid() && Links(Model()) && f in inodes && !IsDir(Model(), f)
      requires inodes[f].nblks == 0 && inodes[f].inode.size == 0
      modifies `nextIno, `unused, `blocks, `blockChains, `inodes, `disk
      ensures ok <==> |target| < BLKSIZE && old(nextIno) < ninos
      ensures ok ==> Valid() && Links(Model()) && Filled(old(Model()), Model(), f, [target])
    {
      ghost var s0 := Model();
      hide Inv, Links, Filled, Appended, FileBlocks, ContentHolds;
      if |target| >= BLKSIZE {
        return false;
      }
      FilledNothing(s0, f);
      var ino;
      ok, ino := WriteNewBlock(target);
      if !ok { return; }
      ok := AppendBlock(f, |target|, ino);
      if !ok { return; }
      FilledStep(s0, s0, Model(), f, [], target);
      assert [] + [target] == [target];
      FilledLinks(s0, Model(), f, [target]);
    }

    /** add_file: a regular file is packed once, however many entries name it. */
    method AddFile(cur: nat, name: seq<byte>, hostIno: nat, files: Files, ghost open: set<nat>) returns (ok: bool)
      requires Valid() && Good(Model(), files) && FilesOk(files) && hostIno in files
      requires IsDir(Model(), cur) && cur in open && |name| <= MAX_FNAME_LEN && 0 !in name
      requires forall o | o in open :: IsDir(Model(), o)
      modifies this
      ensures ok <==> StepFits(old(Model()), files, cur, File(hostIno))
      ensures ok ==> Valid() && Good(Model(), files)
      ensures ok ==> NodeAdded(old(Model()), Model(), files, open, cur, name, File(hostIno))
      ensures ok ==> Grafted(old(Model()), Model(), cur)
    {
      ghost var s := Model();
      hide Inv, Links, FilesDone, FileBlocks, Tables, NewTables, Seen, Sealed, Filled, EntryAdded, NodeAdded, Holds,
           Grafted;
      InodeNumbers(s, cur);
      var file := SearchCacheInode(hostIno);
      SeenIff(s, hostIno);
      if file == 0 {
        ok, file := AllocCacheInode(hostIno, 0, TYPE_FILE);
        if !ok { return; }
        NewInodeGood(s, hostIno, TYPE_FILE);
        ok := OpenFile(file, files[hostIno]);
        if !ok { return; }
        FilledReady(s, Model(), files, open, cur, File(hostIno), files[hostIno]);
      } else {
        SharedReady(s, files, open, cur, hostIno, file);
      }
      ghost var s2 := Model();
      ok := AddEntry(cur, file, name);
      if !ok { return; }
      LeafEntered(s, s2, Model(), files, open, cur, name, File(hostIno), file);
      LeafGrafted(s, s2, Model(), cur, file, name);
    }

    /** add_link: every symbolic link gets an inode of its own. */
    method AddLink(cur: nat, name: seq<byte>, hostIno: nat, target: seq<byte>, ghost files: Files, ghost open: set<nat>)
      returns (ok: bool)
      requires Valid() && Good(Model(), files) && hostIno !in files
      requires IsDir(Model(), cur) && cur in open && |name| <= MAX_FNAME_LEN && 0 !in name
      requires forall o | o in open :: IsDir(Model(), o)
      modifies this
      ensures ok <==> StepFits(old(Model()), files, cur, Link(hostIno, target))
      ensures ok ==> Valid() && Good(Model(), files)
      ensures ok ==> NodeAdded(old(Model()), Model(), files, open, cur, name, Link(hostIno, target))
      ensures ok ==> Grafted(old(Model()), Model(), cur)
    {
      ghost var s := Model();
      hide Inv, Links, FilesDone, FileBlocks, Tables, NewTables, Seen, Sealed, Filled, EntryAdded, NodeAdded, Holds,
           Grafted;
      InodeNumbers(s, cur);
      var file;
      ok, file := AllocCacheInode(hostIno, 0, TYPE_LINK);
      if !ok { return; }
      NewInodeGood(s, hostIno, TYPE_LINK);
      ok := OpenLink(file, target);
      if !ok { return; }
      ghost var s2 := Model();
      FilledReady(s, s2, files, open, cur, Link(hostIno, target), [target]);
      ok := AddEntry(cur, file, name);
      if !ok { return; }
      LeafEntered(s, s2, Model(), files, open, cur, name, Link(hostIno, target), file);
      LeafGrafted(s, s2, Model(), cur, file, name);
    }

    /** add_dir: the directory is packed first, and only then entered into its parent. */
    method AddDir(cur: nat, name: seq<byte>, hostIno: nat, es: seq<Entry>, files: Files, ghost open: set<nat>)
      returns (ok: bool)
      requires Valid() && Good(Model(), files) && FilesOk(files) && hostIno !in files && EntriesOk(es, files)
      requires IsDir(Model(), cur) && cur in open && |name| <= MAX_FNAME_LEN && 0 !in name
      requires forall o | o in open :: IsDir(Model(), o)
      modifies this
      ensures ok <==> StepFits(old(Model()), files, cur, Dir(hostIno, es))
      ensures ok ==> Valid() && Good(Model(), files)
      ensures ok ==> NodeAdded(old(Model()), Model(), files, open, cur, name, Dir(hostIno, es))
      ensures ok ==> Grafted(old(Model()), Model(), cur)
      decreases es, 1
    {
      ghost var s := Model();
      hide Inv, Links, FilesDone, FileBlocks, Tables, NewTables, Seen, EntryAdded, NodeAdded, Opened, PlanDir, StepFits,
           Grafted;
      InodeNumbers(s, cur);
      DirFits(s, files, cur, hostIno, es);
      var found := SearchCacheInode(hostIno);
      SeenIff(s, hostIno);
      if found != 0 {
        return false;
      }
      var c;
      ok, c := AllocCacheInode(hostIno, 0, TYPE_DIR);
      if !ok { return; }
      ghost var s1 := Model();
      NewDirReady(s, files, open, cur, hostIno);
      ok := OpenDir(c, cur, es, files, open + {c});
      if !ok { return; }
      ghost var s2 := Model();
      OpenedFacts(s1, s2, files, open + {c}, c, cur, es);
      ok := AddEntry(cur, c, name);
      if !ok { return; }
      DirEntered(s, s2, Model(), files, open, cur, name, hostIno, es);
      DirGrafted(s, s1, s2, Model(), cur, c, name);
    }

    /** open_dir: "." and ".." first, then the entries in the order readdir gives them. */
    method OpenDir(cur: nat, par: nat, es: seq<Entry>, files: Files, ghost open: set<nat>) returns (ok: bool)
      requires Valid() && Good(Model(), files) && FilesOk(files) && EntriesOk(es, files)
      requires IsDir(Model(), cur) && IsDir(Model(), par) && cur in open && par in open
      requires forall o | o in open :: IsDir(Model(), o)
      requires inodes[cur].nblks == 0 && inodes[cur].inode.size == 0
      modifies this
      ensures ok <==> Fits(PlanDir(es, files, Seen(old(Model()))), old(nextIno), ninos)
      ensures ok ==> Valid() && Good(Model(), files)
      ensures ok ==> Opened(old(Model()), Model(), files, open, cur, par, es) && Grafted(old(Model()), Model(), cur)
      decreases es, 0
    {
      ghost var s0 := Model();
      hide Inv, Links, FilesDone, FileBlocks, Tables, NewTables, Seen, EntryAdded, NodeAdded, Opened, PlanDir;
      PlanOfDots(files, Seen(s0));
      assert es[..0] == [];
      if s0.nextIno + 2 > ninos {
        PrefixFails(es, 0, files, Seen(s0), s0.nextIno, ninos);
      }
      ok := AddEntry(cur, cur, [DOT]);
      if !ok { return; }
      ghost var s1 := Model();
      DotAdded(s0, s1, files, cur, par, [DOT]);
      ok := AddEntry(cur, par, [DOT, DOT]);
      if !ok { return; }
      EntryAddedGood(s1, Model(), files, cur, par, [DOT, DOT]);
      OpenedStart(s0, s1, Model(), files, open, cur, par);
      EntryAddedKeys(s0, s1, cur, cur, [DOT]);
      EntryAddedKeys(s1, Model(), cur, par, [DOT, DOT]);
      var i := 0;
      while i < |es|
        invariant 0 <= i <= |es|
        invariant Valid() && Good(Model(), files) && Opened(s0, Model(), files, open, cur, par, es[..i])
        invariant Grafted(s0, Model(), cur)
      {
        var e := es[i];
        ghost var s := Model();
        OpenedKinds(s0, s, files, open, cur, par, es[..i]);
        assert es[..i + 1] == es[..i] + [e];
        if Hidden(e) {
          OpenedSkip(s0, s, files, open, cur, par, es[..i], e);
        } else if |e.name| > MAX_FNAME_LEN {
          LongNameFails(es, i, files, Seen(s0));
          return false;
        } else if e.node.Special? {
          OpenedSkip(s0, s, files, open, cur, par, es[..i], e);
        } else {
          StepFitsIff(s0, s, files, open, cur, par, es, i);
          if !StepFits(s, files, cur, e.node) {
            PrefixFails(es, i + 1, files, Seen(s0), s0.nextIno, ninos);
          }
          match e.node {
            case Link(h, target) =>
              ok := AddLink(cur, e.name, h, target, files, open);
            case Dir(h, es') =>
              ok := AddDir(cur, e.name, h, es', files, open);
            case File(h) =>
              ok := AddFile(cur, e.name, h, files, open);
          }
          if !ok { return; }
          OpenedStep(s0, s, Model(), files, open, cur, par, es[..i], e);
          NodeAddedGrows(s, Model(), files, open, cur, e.name, e.node);
          GraftedStep(s0, s, Model(), cur);
        }
        i := i + 1;
      }
      assert es[..i] == es;
      OpenedKinds(s0, Model(), files, open, cur, par, es);
      InodeNumbers(Model(), cur);
      return true;
    }

    /** The first loop of close_sfs. */
    method WriteFreeMap()
      requires Inv(Model())
      modifies `disk
      ensures FreeMapExact(disk, nextIno, ninos)
      ensures forall x: nat :: x in disk <==> x in old(disk) || BLKN_FREEMAP <= x < FirstFree(ninos)
      ensures forall x | x in old(disk) :: disk[x] == old(disk)[x]
    {
      InodeNumbers(Model(), BLKN_ROOT);
      hide Inv, Bit, BlockBit, FreeBit;
      var i, ino := 0, BLKN_FREEMAP;
      while i < ninos
        invariant ino >= BLKN_FREEMAP && i == BLKBITS * (ino - BLKN_FREEMAP)
        invariant ino <= FirstFree(ninos)
        invariant MapWritten(disk, nextIno, ninos, i)
        invariant forall x: nat :: x in disk <==> x in old(disk) || BLKN_FREEMAP <= x < ino
        invariant forall x | x in old(disk) :: disk[x] == old(disk)[x]
      {
        var ws := FreeMapWords(i, nextIno, ninos);
        MapStep(disk, nextIno, ninos, ws, ino);
        WriteBlock(WordBytes(ws), ino);
        ino, i := ino + 1, i + BLKBITS;
      }
    }

    /** The caches are those of state s. */
    ghost predicate Caches(s: Sfs)
      reads this
    {
      && inodes == s.inodes && inodeChains == s.inodeChains && ninos == s.ninos
      && blocks == s.blocks && blockChains == s.blockChains
      && |s.inodeChains| == |s.blockChains| == HASH_LIST_SIZE
    }

    /** One bucket of cached blocks. */
    method FlushBlocks(h: nat, ghost s: Sfs, ghost d0: map<nat, Block>)
      requires Inv(s) && Caches(s) && h < HASH_LIST_SIZE && Flushing(s, d0, disk)
      modifies `disk
      ensures Flushing(s, d0, disk)
      ensures forall x | x in old(disk) :: x in disk
      ensures forall b | b in s.blockChains[h] :: b in disk
    {
      hide Inv, InodeBytes, WordBytes, Flushing;
      FlushFacts(s);
      var chain := blockChains[h];
      for j := 0 to |chain|
        invariant Flushing(s, d0, disk)
        invariant forall x | x in old(disk) :: x in disk
        invariant forall k | 0 <= k < j :: chain[k] in disk
      {
        assert chain[j] in blocks;
        FlushTable(s, d0, disk, chain[j]);
        WriteBlock(WordBytes(blocks[chain[j]]), chain[j]);
      }
    }

    /** One bucket of cached inodes. */
    method FlushInodes(h: nat, ghost s: Sfs, ghost d0: map<nat, Block>)
      requires Inv(s) && Caches(s) && h < HASH_LIST_SIZE && Flushing(s, d0, disk)
      modifies `disk
      ensures Flushing(s, d0, disk)
      ensures forall x | x in old(disk) :: x in disk
      ensures forall n | n in s.inodeChains[h] :: n in disk
    {
      hide Inv, InodeBytes, WordBytes, Flushing;
      FlushFacts(s);
      var chain := inodeChains[h];
      for j := 0 to |chain|
        invariant Flushing(s, d0, disk)
        invariant forall x | x in old(disk) :: x in disk
        invariant forall k | 0 <= k < j :: chain[k] in disk
      {
        assert InBucket(s, chain[j], h);
        FlushInode(s, d0, disk, chain[j]);
        WriteBlock(InodeBytes(inodes[chain[j]].inode), chain[j]);
      }
    }

    /** close_sfs: the free map, the superblock, and every cached block and inode. */
    method Close()
      requires Inv(Model()) && |info| == INFO_LEN
      modifies `disk
      ensures Flushed(old(Model()), info, disk)
    {
      ghost var s := Model();
      hide Inv, Flushing, Flushed, FreeMapExact, SuperBytes, Counters, Owned, InodeChains, BlockChains, MapAndSuper;
      CloseFacts(s);
      WriteFreeMap();
      SuperWritten(s, disk, info);
      WriteBlock(SuperBytes(ninos, unused, info), BLKN_SUPER);
      ghost var d0 := disk;
      FlushStart(s, d0, info);
      for h := 0 to HASH_LIST_SIZE
        invariant Flushing(s, d0, disk) && Covered(s, disk, h)
      {
        ghost var d := disk;
        FlushBlocks(h, s, d0);
        FlushInodes(h, s, d0);
        hide Covered;
        CoveredStep(s, d, disk, h);
      }
      FlushEnd(s, d0, disk, info);
    }
  }
}
