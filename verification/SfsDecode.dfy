/** Reading an image back, from its bytes alone, and the round trip. */
module SfsDecode {
  import opened Options
  import opened Bytes
  import opened SfsState
  import opened SfsBlockMap
  import opened SfsHost
  import opened SfsTree
  import opened SfsClose

  // ---------- the decoder ----------

  function ReadInode(b: Block): Inode {
    Inode(U32(b, 0), U16(b, 4), U16(b, 6), U32(b, 8),
          seq(NDIRECT, k requires 0 <= k < NDIRECT => U32(b, 12 + 4 * k)), U32(b, 60), U32(b, 64))
  }

  function DiskWord(d: map<nat, Block>, t: nat, i: nat): nat {
    if t in d && i < BLK_NENTRY then U32(d[t], 4 * i) else 0
  }

  /** Block k of a file, found through the direct, indirect and double-indirect tables. */
  function DiskBlockAt(d: map<nat, Block>, ino: Inode, k: nat): nat {
    if k < NDIRECT then
      if k < |ino.direct| then ino.direct[k] else 0
    else if k < L1_NBLKS then DiskWord(d, ino.indirect, k - NDIRECT)
    else
      var m := k - L1_NBLKS;
      DiskWord(d, DiskWord(d, ino.dbIndirect, m / BLK_NENTRY), m % BLK_NENTRY)
  }

  /** How many bytes of block k belong to a file of the given size. */
  function BytesIn(size: nat, k: nat): (n: nat)
    ensures n <= BLKSIZE
  {
    if size <= BLKSIZE * k then 0 else if size - BLKSIZE * k < BLKSIZE then size - BLKSIZE * k else BLKSIZE
  }

  /** The contents of the first k blocks of a file. */
  function ReadContent(d: map<nat, Block>, ino: Inode, k: nat): Option<seq<byte>> {
    if k == 0 then Some([]) else
      var front := ReadContent(d, ino, k - 1);
      var b := DiskBlockAt(d, ino, k - 1);
      if front.None? || b !in d then None
      else Some(front.value + d[b][..BytesIn(ino.size, k - 1)])
  }

  /** The tree below the inode in block n, whose directory is p, to at most the given depth of directories.
      A directory must begin with correct "." and ".." entries and be linked 2 times plus once for each
      subdirectory. */
  function Decode(d: map<nat, Block>, n: nat, p: nat, depth: nat): Option<Tree>
    decreases depth, 0
  {
    if n !in d then None else
      var ino := ReadInode(d[n]);
      if ino.kind == TYPE_FILE then
        var c := ReadContent(d, ino, ino.blocks);
        if c.Some? then Some(TFile(n, c.value)) else None
      else if ino.kind == TYPE_LINK then
        var c := ReadContent(d, ino, ino.blocks);
        if c.Some? then Some(TLink(c.value)) else None
      else if ino.kind == TYPE_DIR then
        if depth > 0 && ino.blocks >= 2
           && EntryAt(d, DiskBlockAt(d, ino, 0), n, [DOT]) && EntryAt(d, DiskBlockAt(d, ino, 1), p, [DOT, DOT]) then
          var es := DecodeEntries(d, n, ino, ino.blocks, depth - 1);
          if es.Some? && ino.nlinks == (2 + TreeSubdirs(es.value)) % 0x1_0000 then Some(TDir(es.value)) else None
        else None
      else None
  }

  /** The entries at positions 2 up to k of directory n. */
  function DecodeEntries(d: map<nat, Block>, n: nat, ino: Inode, k: nat, depth: nat): Option<seq<TEntry>>
    decreases depth, k
  {
    if k <= 2 then Some([]) else
      var front := DecodeEntries(d, n, ino, k - 1, depth);
      var b := DiskBlockAt(d, ino, k - 1);
      if front.None? || b !in d then None else
        var t := Decode(d, EntryIno(d[b]), n, depth);
        if t.Some? then Some(front.value + [TEntry(EntryName(d[b]), t.value)]) else None
  }

  function TreeSubdirs(es: seq<TEntry>): nat {
    if es == [] then 0 else
      TreeSubdirs(es[..|es| - 1]) + if es[|es| - 1].tree.TDir? then 1 else 0
  }

  // ---------- how deep a host tree is ----------

  function Height(t: Host): nat
    decreases t
  {
    if t.Dir? then 1 + EntriesHeight(t.entries) else 0
  }

  function EntriesHeight(es: seq<Entry>): nat
    decreases es
  {
    if es == [] then 0 else
      var h := EntriesHeight(es[..|es| - 1]);
      var h' := Height(es[|es| - 1].node);
      if h < h' then h' else h
  }

  // ---------- inodes and block maps read back ----------

  lemma InodeReads(i: Inode)
    requires |i.direct| == NDIRECT
    requires i.size < 0x1_0000_0000 && i.kind < 0x1_0000 && i.nlinks < 0x1_0000 && i.blocks < 0x1_0000_0000
    requires i.indirect < 0x1_0000_0000 && i.dbIndirect < 0x1_0000_0000
    ensures var r := ReadInode(Pad(InodeBytes(i)));
            && r.size == i.size && r.kind == i.kind && r.nlinks == i.nlinks && r.blocks == i.blocks
            && r.indirect == i.indirect && r.dbIndirect == i.dbIndirect
            && forall k | 0 <= k < NDIRECT && i.direct[k] < 0x1_0000_0000 :: r.direct[k] == i.direct[k]
  {
    var b := Pad(InodeBytes(i));
    InodeFields(i);
    U32OfSlice(b, 0, i.size);
    U16OfSlice(b, 4, i.kind);
    U16OfSlice(b, 6, i.nlinks);
    U32OfSlice(b, 8, i.blocks);
    U32OfSlice(b, 60, i.indirect);
    U32OfSlice(b, 64, i.dbIndirect);
    forall k | 0 <= k < NDIRECT && i.direct[k] < 0x1_0000_0000
      ensures U32(b, 12 + 4 * k) == i.direct[k]
    {
      assert b[12..60][4 * k..4 * k + 4] == b[12 + 4 * k..12 + 4 * k + 4];
      U32OfSlice(b, 12 + 4 * k, i.direct[k]);
    }
  }

  /** Where the fields of an inode lie in its block. */
  lemma InodeFields(i: Inode)
    requires |i.direct| == NDIRECT
    ensures var b := Pad(InodeBytes(i));
            && b[0..4] == Le32(i.size) && b[4..6] == Le16(i.kind) && b[6..8] == Le16(i.nlinks)
            && b[8..12] == Le32(i.blocks) && b[12..60] == WordBytes(i.direct)
            && b[60..64] == Le32(i.indirect) && b[64..68] == Le32(i.dbIndirect)
  {
    var b := Pad(InodeBytes(i));
    assert b[..68] == InodeBytes(i);
    hide Le32, Le16, WordBytes, Pad;
    var x := InodeBytes(i);
    assert x[0..4] == Le32(i.size);
    assert x[4..6] == Le16(i.kind);
    assert x[6..8] == Le16(i.nlinks);
    assert x[8..12] == Le32(i.blocks);
    assert x[12..60] == WordBytes(i.direct);
    assert x[60..64] == Le32(i.indirect);
    assert x[64..68] == Le32(i.dbIndirect);
    assert forall lo, hi | 0 <= lo <= hi <= 68 :: b[lo..hi] == b[..68][lo..hi];
  }

  /** The on-disk inode of n and the cached one agree on everything the decoder looks at. */
  ghost predicate SameInode(s: Sfs, r: Inode, n: nat)
    requires n in s.inodes
  {
    var i := s.inodes[n].inode;
    && r.size == i.size && r.kind == i.kind && r.nlinks == i.nlinks && r.blocks == i.blocks == s.inodes[n].nblks
    && r.indirect == i.indirect && r.dbIndirect == i.dbIndirect
    && |r.direct| == |i.direct| == NDIRECT
    && forall k | 0 <= k < NDIRECT && k < s.inodes[n].nblks :: r.direct[k] == i.direct[k]
  }

  /** Numbers in use fit into a uint32_t. */
  lemma Small(s: Sfs, n: nat)
    requires Inv(s) && n in s.inodes
    ensures forall k: nat | k < s.inodes[n].nblks :: BlockAt(s, n, k) in s.disk && BlockAt(s, n, k) < 0x1_0000_0000
    ensures forall b | b in s.blocks :: b < 0x1_0000_0000
    ensures MapOk(s, n) && forall a :: Table(s, n, a) == 0 || Table(s, n, a) in s.blocks
  {
    hide DataDistinct, InodeChains, BlockChains;
    assert MapOk(s, n);
    forall a
      ensures Table(s, n, a) == 0 || Table(s, n, a) in s.blocks
    {
      TableIsCached(s, n, a);
    }
  }

  lemma InodeReadsBack(s: Sfs, d: map<nat, Block>, n: nat)
    requires Inv(s) && n in s.inodes && InodeOnDisk(s, d, n) && s.inodes[n].inode.kind < 0x1_0000
    ensures SameInode(s, ReadInode(d[n]), n)
  {
    hide Inv, ReadInode, InodeBytes, Pad;
    Small(s, n);
    assert Table(s, n, Single) == s.inodes[n].inode.indirect;
    assert Table(s, n, Double) == s.inodes[n].inode.dbIndirect;
    InodeReads(s.inodes[n].inode);
    forall k: nat | k < NDIRECT && k < s.inodes[n].nblks
      ensures s.inodes[n].inode.direct[k] < 0x1_0000_0000
    {
      assert BlockAt(s, n, k) == s.inodes[n].inode.direct[k];
    }
    assert |ReadInode(d[n]).direct| == NDIRECT by { ReadDirects(d[n]); }
  }

  lemma ReadDirects(b: Block)
    ensures |ReadInode(b).direct| == NDIRECT
  {
  }

  lemma WordReadsBack(s: Sfs, d: map<nat, Block>, t: nat, i: nat)
    requires t in s.blocks && TableOnDisk(s, d, t) && i < BLK_NENTRY
    requires Word(s.blocks, t, i) < 0x1_0000_0000
    ensures DiskWord(d, t, i) == Word(s.blocks, t, i)
  {
    var ws := s.blocks[t];
    U32OfWordBytes(ws, i);
    assert d[t] == WordBytes(ws);
  }

  /** The decoder finds the same block as the cached block map. */
  lemma BlockReadsBack(s: Sfs, d: map<nat, Block>, r: Inode, n: nat, k: nat)
    requires Inv(s) && n in s.inodes && SameInode(s, r, n) && k < s.inodes[n].nblks
    requires forall b | b in s.blocks :: TableOnDisk(s, d, b)
    ensures DiskBlockAt(d, r, k) == BlockAt(s, n, k)
  {
    hide Inv, DiskWord, Word, TableOnDisk;
    Small(s, n);
    assert BlockAt(s, n, k) < 0x1_0000_0000;
    if NDIRECT <= k < L1_NBLKS {
      assert Table(s, n, Single) == r.indirect && r.indirect in s.blocks;
      WordReadsBack(s, d, r.indirect, k - NDIRECT);
    } else if L1_NBLKS <= k {
      var m := k - L1_NBLKS;
      var leaf := Table(s, n, Leaf(m / BLK_NENTRY));
      assert BLK_NENTRY * (m / BLK_NENTRY) < s.inodes[n].nblks - L1_NBLKS;
      assert leaf in s.blocks;
      WordReadsBack(s, d, r.dbIndirect, m / BLK_NENTRY);
      WordReadsBack(s, d, leaf, m % BLK_NENTRY);
    }
  }

  // ---------- contents ----------

  lemma {:induction false} TotalFull(chunks: seq<seq<byte>>)
    requires forall k | 0 <= k < |chunks| :: |chunks[k]| == BLKSIZE
    ensures Total(chunks) == BLKSIZE * |chunks|
  {
    if chunks != [] {
      TotalFull(chunks[..|chunks| - 1]);
    }
  }

  /** The size of a file says how many bytes of each block were read. */
  lemma BytesInChunk(chunks: seq<seq<byte>>, k: nat)
    requires k < |chunks| && forall j | 0 <= j < |chunks| :: |chunks[j]| <= BLKSIZE
    requires forall j | 0 <= j < |chunks| - 1 :: |chunks[j]| == BLKSIZE
    ensures BytesIn(Total(chunks), k) == |chunks[k]|
  {
    TotalFull(chunks[..|chunks| - 1]);
  }

  lemma {:induction false} ContentReadsBack(
    s: Sfs, d: map<nat, Block>, r: Inode, n: nat, chunks: seq<seq<byte>>, k: nat)
    requires Inv(s) && n in s.inodes && SameInode(s, r, n) && ContentHolds(s, n, chunks) && k <= |chunks|
    requires forall b | b in s.blocks :: TableOnDisk(s, d, b)
    requires forall x | x in s.disk :: x in d && d[x] == s.disk[x]
    ensures ReadContent(d, r, k) == Some(Flatten(chunks[..k]))
  {
    hide Inv, DiskBlockAt, BytesIn, TableOnDisk, BlockAt;
    if k != 0 {
      ContentReadsBack(s, d, r, n, chunks, k - 1);
      BlockReadsBack(s, d, r, n, k - 1);
      assert FileBlocks(s, n)[k - 1] == BlockAt(s, n, k - 1);
      BytesInChunk(chunks, k - 1);
      assert chunks[..k][..k - 1] == chunks[..k - 1];
      assert Pad(chunks[k - 1])[..|chunks[k - 1]|] == chunks[k - 1];
    }
  }

  // ---------- the round trip ----------

  /** What the decoder sees of a flushed state. */
  ghost predicate OnDisk(s: Sfs, d: map<nat, Block>) {
    && (forall n | n in s.inodes :: InodeOnDisk(s, d, n))
    && (forall b | b in s.blocks :: TableOnDisk(s, d, b))
    && (forall x | x in s.disk :: x in d && d[x] == s.disk[x])
  }

  /** The image inode of each regular file, by host number. */
  ghost predicate FileInos(s: Sfs, inos: map<nat, nat>) {
    forall n | n in s.inodes && s.inodes[n].inode.kind == TYPE_FILE ::
      s.inodes[n].hostIno in inos && inos[s.inodes[n].hostIno] == n
  }

  lemma {:induction false} DecodeLeaf(
    s: Sfs, d: map<nat, Block>, files: Files, inos: map<nat, nat>, open: set<nat>, n: nat, p: nat, t: Host, depth: nat)
    requires Inv(s) && OnDisk(s, d) && FileInos(s, inos) && Holds(s, files, open, n, p, t) && !t.Dir?
    ensures Decode(d, n, p, depth) == Some(Image(t, files, inos))
  {
    hide Inv, ReadInode, InodeOnDisk, TableOnDisk, ReadContent, ContentHolds;
    assert InodeOnDisk(s, d, n);
    InodePresent(s, d, n);
    InodeReadsBack(s, d, n);
    var chunks := if t.File? then files[t.hostIno] else [t.target];
    ContentReadsBack(s, d, ReadInode(d[n]), n, chunks, |chunks|);
    assert chunks[..|chunks|] == chunks;
    ContentLength(s, n, chunks);
    assert t.Link? ==> Flatten([t.target]) == t.target;
  }

  lemma ContentLength(s: Sfs, n: nat, chunks: seq<seq<byte>>)
    requires n in s.inodes && ContentHolds(s, n, chunks)
    ensures s.inodes[n].nblks == |chunks|
  {
  }

  lemma InodePresent(s: Sfs, d: map<nat, Block>, n: nat)
    requires n in s.inodes && InodeOnDisk(s, d, n)
    ensures n in d
  {
  }

  /** Every represented host object decodes to its image. */
  lemma {:induction false} DecodeNode(
    s: Sfs, d: map<nat, Block>, files: Files, inos: map<nat, nat>, open: set<nat>, n: nat, p: nat, t: Host, depth: nat)
    requires Inv(s) && OnDisk(s, d) && FileInos(s, inos) && Holds(s, files, open, n, p, t) && depth >= Height(t)
    ensures Decode(d, n, p, depth) == Some(Image(t, files, inos))
    decreases t
  {
    hide Inv, OnDisk, Decode, ReadInode, FileBlocks, DirHead, BodyHolds;
    if t.Dir? {
      InodeSeen(s, d, n);
      var bs := FileBlocks(s, n);
      assert bs[2..|bs|] == bs[2..];
      DecodeBody(s, d, files, inos, open, n, t.entries, |bs|, depth - 1);
      DecodeDir(s, d, files, inos, open, n, p, t.entries, depth);
    } else {
      DecodeLeaf(s, d, files, inos, open, n, p, t, depth);
    }
  }

  /** A directory decodes once its entries do. */
  lemma DecodeDir(
    s: Sfs, d: map<nat, Block>, files: Files, inos: map<nat, nat>, open: set<nat>, n: nat, p: nat,
    es: seq<Entry>, depth: nat)
    requires Inv(s) && OnDisk(s, d) && n in s.inodes && n in d && SameInode(s, ReadInode(d[n]), n) && depth > 0
    requires s.inodes[n].inode.kind == TYPE_DIR && s.inodes[n].inode.nlinks == (2 + Subdirs(es)) % 0x1_0000
    requires |FileBlocks(s, n)| >= 2 && DirHead(s, n, p)
    requires DecodeEntries(d, n, ReadInode(d[n]), |FileBlocks(s, n)|, depth - 1) == Some(ImageEntries(es, files, inos))
    ensures Decode(d, n, p, depth) == Some(TDir(ImageEntries(es, files, inos)))
  {
    hide Inv, OnDisk, ReadInode, FileBlocks, DiskBlockAt, EntryIno, EntryName, DecodeEntries, ImageEntries;
    BlocksSeen(s, d, n);
    SubdirsAgree(es, files, inos);
  }

  lemma InodeSeen(s: Sfs, d: map<nat, Block>, n: nat)
    requires Inv(s) && OnDisk(s, d) && n in s.inodes && s.inodes[n].inode.kind < 0x1_0000
    ensures n in d && SameInode(s, ReadInode(d[n]), n)
  {
    hide Inv, ReadInode;
    assert InodeOnDisk(s, d, n);
    InodeReadsBack(s, d, n);
  }

  /** All blocks of a file, as the decoder finds them. */
  lemma BlocksSeen(s: Sfs, d: map<nat, Block>, n: nat)
    requires Inv(s) && OnDisk(s, d) && n in s.inodes && n in d && SameInode(s, ReadInode(d[n]), n)
    ensures forall k | 0 <= k < |FileBlocks(s, n)| ::
              DiskBlockAt(d, ReadInode(d[n]), k) == FileBlocks(s, n)[k] && FileBlocks(s, n)[k] in s.disk
    ensures forall x | x in s.disk :: x in d && d[x] == s.disk[x]
  {
    hide Inv, ReadInode, InodeOnDisk, TableOnDisk, DiskBlockAt, BlockAt;
    Small(s, n);
    forall k | 0 <= k < |FileBlocks(s, n)|
      ensures DiskBlockAt(d, ReadInode(d[n]), k) == FileBlocks(s, n)[k] && FileBlocks(s, n)[k] in s.disk
    {
      BlockReadsBack(s, d, ReadInode(d[n]), n, k);
      assert FileBlocks(s, n)[k] == BlockAt(s, n, k);
    }
  }

  lemma {:induction false} BodyLen(s: Sfs, files: Files, open: set<nat>, n: nat, ds: seq<nat>, es: seq<Entry>)
    requires BodyHolds(s, files, open, n, ds, es)
    ensures |ds| == PackedCount(es)
  {
    if es != [] {
      var e := es[|es| - 1];
      BodyLen(s, files, open, n, if Packed(e) then ds[..|ds| - 1] else ds, es[..|es| - 1]);
    }
  }

  lemma ImageSnoc(es: seq<Entry>, files: Files, inos: map<nat, nat>)
    ensures es == [] ==> ImageEntries(es, files, inos) == []
    ensures es != [] ==>
      var e := es[|es| - 1];
      var front := ImageEntries(es[..|es| - 1], files, inos);
      ImageEntries(es, files, inos)
        == if Packed(e) then front + [TEntry(Truncated(e.name), Image(e.node, files, inos))] else front
  {
    hide Image, Truncated, Packed;
  }

  lemma SubdirsSnoc(es: seq<TEntry>, e: TEntry)
    ensures TreeSubdirs(es + [e]) == TreeSubdirs(es) + if e.tree.TDir? then 1 else 0
  {
    assert (es + [e])[..|es|] == es;
  }

  lemma NoSubdirs()
    ensures TreeSubdirs([]) == 0
  {
  }

  lemma DirImage(t: Host, files: Files, inos: map<nat, nat>)
    ensures Image(t, files, inos).TDir? <==> t.Dir?
  {
  }

  lemma {:induction false} SubdirsAgree(es: seq<Entry>, files: Files, inos: map<nat, nat>)
    ensures TreeSubdirs(ImageEntries(es, files, inos)) == Subdirs(es)
  {
    hide Image, Truncated, Packed, ImageEntries, TreeSubdirs;
    ImageSnoc(es, files, inos);
    NoSubdirs();
    if es != [] {
      var front := es[..|es| - 1];
      SubdirsAgree(front, files, inos);
      DirImage(es[|es| - 1].node, files, inos);
      var e := es[|es| - 1];
      if Packed(e) {
        SubdirsSnoc(ImageEntries(front, files, inos), TEntry(Truncated(e.name), Image(e.node, files, inos)));
      }
    }
  }

  lemma HeightSnoc(es: seq<Entry>)
    ensures es != [] ==>
      EntriesHeight(es[..|es| - 1]) <= EntriesHeight(es) && Height(es[|es| - 1].node) <= EntriesHeight(es)
  {
    hide Height;
  }

  lemma BodyParts(s: Sfs, files: Files, open: set<nat>, n: nat, ds: seq<nat>, es: seq<Entry>)
    requires BodyHolds(s, files, open, n, ds, es)
    ensures es == [] ==> ds == []
    ensures es != [] && !Packed(es[|es| - 1]) ==> BodyHolds(s, files, open, n, ds, es[..|es| - 1])
    ensures es != [] && Packed(es[|es| - 1]) ==>
      && ds != [] && ds[|ds| - 1] in s.disk
      && BodyHolds(s, files, open, n, ds[..|ds| - 1], es[..|es| - 1])
      && EntryName(s.disk[ds[|ds| - 1]]) == Truncated(es[|es| - 1].name)
      && Holds(s, files, open, EntryIno(s.disk[ds[|ds| - 1]]), n, es[|es| - 1].node)
  {
    hide Holds, EntryName, EntryIno, Packed, Truncated;
  }

  lemma {:induction false} DecodeBody(
    s: Sfs, d: map<nat, Block>, files: Files, inos: map<nat, nat>, open: set<nat>, n: nat,
    es: seq<Entry>, k: nat, depth: nat)
    requires Inv(s) && OnDisk(s, d) && FileInos(s, inos) && n in s.inodes && n in d && 2 <= k <= |FileBlocks(s, n)|
    requires SameInode(s, ReadInode(d[n]), n)
    requires BodyHolds(s, files, open, n, FileBlocks(s, n)[2..k], es) && depth >= EntriesHeight(es)
    ensures DecodeEntries(d, n, ReadInode(d[n]), k, depth) == Some(ImageEntries(es, files, inos))
    decreases es
  {
    hide Inv, ReadInode, OnDisk, DiskBlockAt, FileBlocks, EntryIno, EntryName, SameInode, Holds,
         BodyHolds, ImageEntries, Image, Truncated, Packed, EntriesHeight, Height, FileInos, Decode;
    var bs := FileBlocks(s, n);
    BodyParts(s, files, open, n, bs[2..k], es);
    ImageSnoc(es, files, inos);
    HeightSnoc(es);
    if es == [] {
    } else {
      var e := es[|es| - 1];
      var front := es[..|es| - 1];
      if Packed(e) {
        assert bs[2..k][..k - 3] == bs[2..k - 1];
        DecodeBody(s, d, files, inos, open, n, front, k - 1, depth);
        BlocksSeen(s, d, n);
        assert bs[2..k][k - 3] == bs[k - 1];
        DecodeNode(s, d, files, inos, open, EntryIno(s.disk[bs[k - 1]]), n, e.node, depth);
      } else {
        DecodeBody(s, d, files, inos, open, n, front, k, depth);
      }
    }
  }
}
