/** mksfs from end to end: create_sfs, the walk and close_sfs, and what the image then stands for. */
module SfsImage {
  import opened Options
  import opened Bytes
  import opened SfsState
  import opened SfsHost
  import opened SfsTree
  import opened SfsLinks
  import opened SfsPlan
  import opened SfsWalk
  import opened SfsReach
  import opened SfsDir
  import opened FreeMap
  import opened SfsClose
  import opened SfsDecode
  import opened SfsCounts
  import opened SfsBuilder

  /** The number of blocks that create_sfs uses of an image file (a uint32_t, at most 512K). */
  function Capacity(fileSize: nat): nat {
    var n := fileSize / BLKSIZE % 0x1_0000_0000;
    if n > MAX_NBLKS then MAX_NBLKS else n
  }

  /** A run succeeds exactly if the image has room for its own map and for everything that is packed. */
  ghost predicate Packable(fileSize: nat, es: seq<Entry>, files: Files) {
    var n := Capacity(fileSize);
    FirstFree(n) < n && Fits(PlanDir(es, files, {0}), FirstFree(n), n)
  }

  /** Different host files have different inodes. */
  ghost predicate Injective(inos: map<nat, nat>) {
    forall h, h' | h in inos && h' in inos && inos[h] == inos[h'] :: h == h'
  }

  /** The root decodes to the host's tree, in which hard links to one file have one inode. */
  ghost predicate DecodesTo(d: map<nat, Block>, es: seq<Entry>, files: Files, inos: map<nat, nat>) {
    forall depth: nat | depth > EntriesHeight(es) ::
      Decode(d, BLKN_ROOT, BLKN_ROOT, depth) == Some(TDir(ImageEntries(es, files, inos)))
  }

  /** The image holds the tree, exact link counts, an exact free map, and a superblock that agrees with it. */
  ghost predicate ImageOf(d: map<nat, Block>, ninos: nat, next: nat, es: seq<Entry>, files: Files) {
    && (forall x: nat :: x in d <==> x < next)
    && next <= ninos
    && (exists inos :: Injective(inos) && DecodesTo(d, es, files, inos))
    && (exists nodes :: LinksExact(d, nodes, next))
    && FreeMapExact(d, next, ninos)
    && BLKN_SUPER in d
    && U32(d[BLKN_SUPER], 0) == MAGIC && U32(d[BLKN_SUPER], 4) == ninos && U32(d[BLKN_SUPER], 8) == ninos - next
  }

  lemma SuperReads(blocks: nat, unused: nat, info: seq<byte>)
    requires blocks < 0x1_0000_0000 && unused < 0x1_0000_0000 && |info| == INFO_LEN
    ensures var b := Pad(SuperBytes(blocks, unused, info));
            U32(b, 0) == MAGIC && U32(b, 4) == blocks && U32(b, 8) == unused
  {
    var b := Pad(SuperBytes(blocks, unused, info));
    assert b[0..4] == Le32(MAGIC) && b[4..8] == Le32(blocks) && b[8..12] == Le32(unused);
    U32OfSlice(b, 0, MAGIC);
    U32OfSlice(b, 4, blocks);
    U32OfSlice(b, 8, unused);
  }

  /** A flushed state in which the root is complete is an image of the host directory. */
  lemma RoundTrip(s0: Sfs, s: Sfs, info: seq<byte>, d: map<nat, Block>, es: seq<Entry>, files: Files)
    requires IsDir(s0, BLKN_ROOT) && s0.inodes[BLKN_ROOT].inode.nlinks == 0 && s0.ninos <= MAX_NBLKS
    requires Good(s, files) && Opened(s0, s, files, {BLKN_ROOT}, BLKN_ROOT, BLKN_ROOT, es) && Flushed(s, info, d)
    requires s0.inodes.Keys == {BLKN_ROOT} && Grafted(s0, s, BLKN_ROOT)
    ensures ImageOf(d, s0.ninos, s.nextIno, es, files)
  {
    hide Inv, Links, FilesDone, Opened, FileInos, FreeMapExact, SuperBytes, Pad, PlanDir,
         Injective, DecodesTo, Flushed, OnDisk, Holds, LinksExact, U32, Under, Grafted;
    RootHolds(s0, s, files, es);
    FlushedFacts(s, info, d);
    RootDecodes(s, d, es, files, InoMap(s, files));
    KindsOk(s, files);
    AllUnderRoot(s0, s);
    LinksReadBack(s, d);
    InodeNumbers(s, BLKN_ROOT);
    SuperReads(s.ninos, s.unused, info);
  }

  lemma RootDecodes(s: Sfs, d: map<nat, Block>, es: seq<Entry>, files: Files, inos: map<nat, nat>)
    requires Inv(s) && OnDisk(s, d) && FileInos(s, inos)
    requires Holds(s, files, {}, BLKN_ROOT, BLKN_ROOT, Dir(0, es))
    ensures DecodesTo(d, es, files, inos)
  {
    hide Inv, OnDisk, FileInos, Decode, Holds, ImageEntries, EntriesHeight;
    forall depth: nat | depth > EntriesHeight(es)
      ensures Decode(d, BLKN_ROOT, BLKN_ROOT, depth) == Some(TDir(ImageEntries(es, files, inos)))
    {
      DecodeNode(s, d, files, inos, {}, BLKN_ROOT, BLKN_ROOT, Dir(0, es), depth);
    }
  }

  lemma KindsOk(s: Sfs, files: Files)
    requires FilesDone(s, files)
    ensures forall n | n in s.inodes :: s.inodes[n].inode.kind <= TYPE_LINK
  {
  }

  lemma FlushedFacts(s: Sfs, info: seq<byte>, d: map<nat, Block>)
    requires Flushed(s, info, d)
    ensures OnDisk(s, d) && FreeMapExact(d, s.nextIno, s.ninos) && |info| == INFO_LEN && s.unused >= 0
    ensures BLKN_SUPER in d && d[BLKN_SUPER] == Pad(SuperBytes(s.ninos, s.unused, info))
    ensures forall x: nat :: x in d <==> x < s.nextIno
  {
    hide InodeOnDisk, TableOnDisk, FreeMapExact, Pad, SuperBytes;
  }

  ghost function InoMap(s: Sfs, files: Files): (inos: map<nat, nat>)
    requires FilesDone(s, files)
    ensures FileInos(s, inos) && Injective(inos)
  {
    map n | n in s.inodes && s.inodes[n].hostIno in files :: s.inodes[n].hostIno := n
  }

  lemma RootHolds(s0: Sfs, s: Sfs, files: Files, es: seq<Entry>)
    requires IsDir(s0, BLKN_ROOT) && s0.inodes[BLKN_ROOT].inode.nlinks == 0
    requires Opened(s0, s, files, {BLKN_ROOT}, BLKN_ROOT, BLKN_ROOT, es)
    ensures Holds(s, files, {}, BLKN_ROOT, BLKN_ROOT, Dir(0, es)) && s.ninos == s0.ninos && BLKN_ROOT in s.inodes
  {
    hide FileBlocks, PlanDir, Seen;
    BodyClose(s, files, {BLKN_ROOT}, {}, BLKN_ROOT, FileBlocks(s, BLKN_ROOT)[2..], es);
  }

  /** The whole program: an image for the host directory with entries es, or an abort. */
  method CreateImg(fileSize: nat, info: seq<byte>, es: seq<Entry>, files: Files) returns (r: Option<map<nat, Block>>)
    requires FilesOk(files) && EntriesOk(es, files) && |info| == INFO_LEN
    ensures r.Some? <==> Packable(fileSize, es, files)
    ensures r.Some? ==>
              var n := Capacity(fileSize);
              ImageOf(r.value, n, FirstFree(n) + PlanDir(es, files, {0}).blocks, es, files)
  {
    hide Inv, Links, FilesDone, Opened, ImageOf, PlanDir, Flushed, Seen, Grafted;
    var ninos := Capacity(fileSize);
    if FirstFree(ninos) >= ninos {
      return None;
    }
    var sfs := new Builder(ninos, info);
    ghost var s0 := sfs.Model();
    InitialGood(ninos, files);
    var ok := sfs.OpenDir(BLKN_ROOT, BLKN_ROOT, es, files, {BLKN_ROOT});
    if !ok {
      return None;
    }
    ghost var s := sfs.Model();
    OpenedKinds(s0, s, files, {BLKN_ROOT}, BLKN_ROOT, BLKN_ROOT, es);
    sfs.Close();
    RoundTrip(s0, s, info, sfs.disk, es, files);
    return Some(sfs.disk);
  }

  // ---------- names ----------

  /** The tree that would be wanted if entries had room for every admitted name. */
  function Exact(t: Host, files: Files, inos: map<nat, nat>): Tree
    decreases t
  {
    if t.Dir? then TDir(ExactEntries(t.entries, files, inos)) else Image(t, files, inos)
  }

  function ExactEntries(es: seq<Entry>, files: Files, inos: map<nat, nat>): seq<TEntry>
    decreases es
  {
    if es == [] then [] else
      var e := es[|es| - 1];
      var front := ExactEntries(es[..|es| - 1], files, inos);
      if Packed(e) then front + [TEntry(e.name, Exact(e.node, files, inos))] else front
  }

  /** Every packed name, at every level, has at most 252 bytes. */
  ghost predicate ShortNames(es: seq<Entry>)
    decreases es
  {
    if es == [] then true else
      var e := es[|es| - 1];
      && ShortNames(es[..|es| - 1])
      && (Packed(e) ==> |e.name| <= NAME_BYTES && (e.node.Dir? ==> ShortNames(e.node.entries)))
  }

  /** Names survive exactly if none is longer than 252 bytes, although 255 are admitted. */
  lemma {:induction false} NamesSurvive(es: seq<Entry>, files: Files, inos: map<nat, nat>)
    ensures ImageEntries(es, files, inos) == ExactEntries(es, files, inos) <==> ShortNames(es)
    decreases es
  {
    if es != [] {
      var e := es[|es| - 1];
      var front := es[..|es| - 1];
      NamesSurvive(front, files, inos);
      if Packed(e) {
        if e.node.Dir? {
          NamesSurvive(e.node.entries, files, inos);
        }
        SnocEqual(ImageEntries(front, files, inos), ExactEntries(front, files, inos),
                  TEntry(Truncated(e.name), Image(e.node, files, inos)), TEntry(e.name, Exact(e.node, files, inos)));
      }
    }
  }

  lemma SnocEqual<T>(a: seq<T>, b: seq<T>, x: T, y: T)
    ensures a + [x] == b + [y] <==> a == b && x == y
  {
    if a + [x] == b + [y] {
      assert a == (a + [x])[..|a|] && b == (b + [y])[..|b|];
      assert x == (a + [x])[|a|] && y == (b + [y])[|b|];
    }
  }

  /** A name of 253 bytes is admitted and loses its last byte. */
  lemma LongNameIsCut(files: Files, inos: map<nat, nat>, target: seq<byte>)
    ensures var es := [Entry(seq(253, _ => 97), Link(1, target))];
            && !PlanEntries(es, files, {0}).Fails? == (|target| < BLKSIZE)
            && ImageEntries(es, files, inos) != ExactEntries(es, files, inos)
  {
    var name: seq<byte> := seq(253, _ => 97);
    var es := [Entry(name, Link(1, target))];
    assert name[0] == 97;
    assert es[..0] == [];
    NamesSurvive(es, files, inos);
  }

  // ---------- names that become equal ----------

  /** Both names at least fill an entry, and they agree on what it holds. */
  predicate Collide(a: seq<byte>, b: seq<byte>) {
    |a| >= NAME_BYTES && |b| >= NAME_BYTES && a[..NAME_BYTES] == b[..NAME_BYTES]
  }

  lemma CutNames(a: seq<byte>, b: seq<byte>)
    requires a != b
    ensures Truncated(a) == Truncated(b) <==> Collide(a, b)
  {
    assert |a| == NAME_BYTES ==> a[..NAME_BYTES] == a;
    assert |b| == NAME_BYTES ==> b[..NAME_BYTES] == b;
  }

  ghost predicate HasName(es: seq<TEntry>, name: seq<byte>) {
    exists k :: 0 <= k < |es| && es[k].name == name
  }

  ghost predicate NamesDiffer(es: seq<TEntry>) {
    forall i, j | 0 <= i < j < |es| :: es[i].name != es[j].name
  }

  lemma {:induction false} ImageNames(es: seq<Entry>, files: Files, inos: map<nat, nat>, name: seq<byte>)
    ensures HasName(ImageEntries(es, files, inos), name)
       <==> exists i :: 0 <= i < |es| && Packed(es[i]) && Truncated(es[i].name) == name
  {
    hide Image, Truncated, Packed, ImageEntries;
    ImageSnoc(es, files, inos);
    if es != [] {
      var front := es[..|es| - 1];
      ImageNames(front, files, inos, name);
      assert forall i | 0 <= i < |front| :: front[i] == es[i];
      if Packed(es[|es| - 1]) {
        HasNameSnoc(ImageEntries(front, files, inos),
                    TEntry(Truncated(es[|es| - 1].name), Image(es[|es| - 1].node, files, inos)), name);
      }
    }
  }

  lemma HasNameSnoc(es: seq<TEntry>, e: TEntry, name: seq<byte>)
    ensures HasName(es + [e], name) <==> HasName(es, name) || e.name == name
  {
    if HasName(es, name) {
      var k :| 0 <= k < |es| && es[k].name == name;
      assert (es + [e])[k].name == name;
    }
    assert (es + [e])[|es|] == e;
  }

  lemma NamesDifferSnoc(es: seq<TEntry>, e: TEntry)
    ensures NamesDiffer(es + [e]) <==> NamesDiffer(es) && !HasName(es, e.name)
  {
    var all := es + [e];
    assert forall k | 0 <= k < |es| :: all[k] == es[k];
    assert all[|es|] == e;
  }

  /** A directory of the host has different names. The image of it does if and only if no two of the names that are
      packed agree on their first 252 bytes. */
  lemma {:induction false} NamesStayDistinct(es: seq<Entry>, files: Files, inos: map<nat, nat>)
    requires forall i, j | 0 <= i < j < |es| :: es[i].name != es[j].name
    ensures NamesDiffer(ImageEntries(es, files, inos))
       <==> forall i, j | 0 <= i < j < |es| && Packed(es[i]) && Packed(es[j]) :: !Collide(es[i].name, es[j].name)
  {
    hide Image, Truncated, Packed, ImageEntries, Collide, HasName, NamesDiffer;
    ImageSnoc(es, files, inos);
    if es == [] {
      assert NamesDiffer(ImageEntries(es, files, inos)) by { NoNames(); }
    } else {
      var e := es[|es| - 1];
      var front := es[..|es| - 1];
      assert forall i | 0 <= i < |front| :: front[i] == es[i];
      NamesStayDistinct(front, files, inos);
      if Packed(e) {
        ImageNames(front, files, inos, Truncated(e.name));
        NamesDifferSnoc(ImageEntries(front, files, inos), TEntry(Truncated(e.name), Image(e.node, files, inos)));
        forall i | 0 <= i < |front|
          ensures Truncated(es[i].name) == Truncated(e.name) <==> Collide(es[i].name, e.name)
        {
          CutNames(es[i].name, e.name);
        }
      }
    }
  }

  lemma NoNames()
    ensures NamesDiffer([])
  {
  }
}
