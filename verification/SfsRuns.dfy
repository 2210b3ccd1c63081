/** Runs of appends, interleaved over any number of files, against a machine that just extends lists. */
module SfsRuns {
  import opened Options
  import opened Bytes
  import opened SfsState
  import opened SfsBlockMap
  import opened SfsAppend
  import opened SfsTree
  import opened SfsWalk
  import opened SfsDir
  import opened SfsBuilder

  /** What one append stores. */
  type Data = d: seq<byte> | |d| <= BLKSIZE witness []

  /** A new file, or one more block for a file. */
  datatype Step = NewFile(hostIno: nat, kind: nat) | Append(f: nat, data: Data)

  datatype Chunk = Chunk(blk: nat, data: Data)

  /** The next free block, and for each file the blocks appended to it, in order. */
  datatype Lists = Lists(next: nat, files: map<nat, seq<Chunk>>)

  /** One step of the simple machine, or None if the image is full or the file has 32768 blocks. */
  function ListStep(a: Lists, st: Step, ninos: nat): Option<Lists> {
    match st
    case NewFile(_, _) =>
      if a.next < ninos then Some(Lists(a.next + 1, a.files[a.next := []])) else None
    case Append(f, data) =>
      if f in a.files && |a.files[f]| < LN_NBLKS && a.next + 1 + NewTables(|a.files[f]|) <= ninos then
        Some(Lists(a.next + 1 + NewTables(|a.files[f]|), a.files[f := a.files[f] + [Chunk(a.next, data)]]))
      else None
  }

  function ListRun(a: Lists, steps: seq<Step>, ninos: nat): Option<Lists> {
    if steps == [] then Some(a) else
      var p := ListRun(a, steps[..|steps| - 1], ninos);
      if p.None? then None else ListStep(p.value, steps[|steps| - 1], ninos)
  }

  function Contents(cs: seq<Chunk>): seq<seq<byte>> {
    seq(|cs|, k requires 0 <= k < |cs| => cs[k].data)
  }

  lemma TotalSnoc(cs: seq<Chunk>, c: Chunk)
    ensures Total(Contents(cs + [c])) == Total(Contents(cs)) + |c.data|
  {
    assert Contents(cs + [c])[..|cs|] == Contents(cs);
  }

  /** File f, resolved through its three levels, is the list of chunks. */
  ghost predicate FileIs(s: Sfs, f: nat, cs: seq<Chunk>)
    requires f in s.inodes
  {
    && |FileBlocks(s, f)| == |cs|
    && s.inodes[f].inode.size == Total(Contents(cs))
    && forall k | 0 <= k < |cs| ::
         FileBlocks(s, f)[k] == cs[k].blk && cs[k].blk in s.disk && s.disk[cs[k].blk] == Pad(cs[k].data)
  }

  ghost predicate Refines(s: Sfs, a: Lists) {
    && s.nextIno == a.next
    && s.inodes.Keys == a.files.Keys
    && forall f | f in s.inodes :: FileIs(s, f, a.files[f])
  }

  lemma RefinesNew(s: Sfs, a: Lists, st: Step)
    requires Inv(s) && Refines(s, a) && st.NewFile? && s.nextIno < s.ninos
    ensures ListStep(a, st, s.ninos).Some?
    ensures Refines(WithInode(s, st.hostIno, st.kind), ListStep(a, st, s.ninos).value)
  {
    hide Inv, Total, Contents;
    NewFacts(s);
    WithInodeSame(s, st.hostIno, st.kind);
    var s' := WithInode(s, st.hostIno, st.kind);
    hide SameFiles, FileBlocks;
    forall f | f in s.inodes
      ensures FileIs(s', f, a.files[f])
    {
      SameFile(s, s', f, a.files[f]);
    }
    NoBytes();
    assert FileIs(s', s.nextIno, []);
  }

  /** A new image has one file without blocks, the root directory. */
  lemma RefinesInitially(ninos: nat)
    requires FirstFree(ninos) < ninos <= MAX_NBLKS
    ensures Inv(InitialState(ninos)) && Refines(InitialState(ninos), Lists(FirstFree(ninos), map[BLKN_ROOT := []]))
  {
    InitialGood(ninos, map[]);
    hide Inv;
    NoBytes();
    assert FileIs(InitialState(ninos), BLKN_ROOT, []);
  }

  lemma NoBytes()
    ensures Total(Contents([])) == 0
  {
  }

  lemma NewFacts(s: Sfs)
    requires Inv(s)
    ensures s.nextIno !in s.inodes && s.nextIno !in s.disk && |s.inodeChains| == HASH_LIST_SIZE
  {
  }

  lemma SameFile(s: Sfs, s': Sfs, f: nat, cs: seq<Chunk>)
    requires f in s.inodes && FileIs(s, f, cs) && SameFiles(s, s')
    requires forall d | d in s.disk :: d in s'.disk && s'.disk[d] == s.disk[d]
    ensures f in s'.inodes && FileIs(s', f, cs)
  {
    hide FileBlocks;
  }

  lemma GrownFile(s: Sfs, s': Sfs, f: nat, cs: seq<Chunk>, data: Data)
    requires f in s.inodes && FileIs(s, f, cs) && f in s'.inodes && s.nextIno in s'.disk
    requires FileBlocks(s', f) == FileBlocks(s, f) + [s.nextIno] && s'.disk[s.nextIno] == Pad(data)
    requires s'.inodes[f].inode.size == s.inodes[f].inode.size + |data|
    requires forall d | d in s.disk :: d in s'.disk && s'.disk[d] == s.disk[d]
    ensures FileIs(s', f, cs + [Chunk(s.nextIno, data)])
  {
    hide FileBlocks, Pad, Total, Contents;
    TotalSnoc(cs, Chunk(s.nextIno, data));
  }

  lemma OtherFile(s: Sfs, s': Sfs, f: nat, cs: seq<Chunk>)
    requires f in s.inodes && FileIs(s, f, cs) && f in s'.inodes
    requires FileBlocks(s', f) == FileBlocks(s, f) && s'.inodes[f].inode.size == s.inodes[f].inode.size
    requires forall d | d in s.disk :: d in s'.disk && s'.disk[d] == s.disk[d]
    ensures FileIs(s', f, cs)
  {
    hide FileBlocks, Pad;
  }

  lemma RefinesAppend(s: Sfs, s': Sfs, a: Lists, f: nat, data: Data)
    requires Inv(s) && Refines(s, a) && f in s.inodes && s.inodes[f].nblks < LN_NBLKS
    requires s.nextIno + 1 + NewTables(s.inodes[f].nblks) <= s.ninos
    requires Appended(WithData(s, Pad(data)), s', f, |data|, s.nextIno)
    ensures ListStep(a, Append(f, data), s.ninos).Some?
    ensures Refines(s', ListStep(a, Append(f, data), s.ninos).value)
  {
    hide Inv, Tables, NewTables, Pad, FileIs, FileBlocks;
    NewFacts(s);
    WithDataEffect(s, Pad(data));
    Length(s, f, a.files[f]);
    TablesGrow(s.inodes[f].nblks);
    forall n | n in s.inodes
      ensures FileIs(s', n, if n == f then a.files[f] + [Chunk(s.nextIno, data)] else a.files[n])
    {
      if n == f {
        GrownFile(s, s', f, a.files[f], data);
      } else {
        OtherFile(s, s', n, a.files[n]);
      }
    }
  }

  /** A search by number can miss a cached table: for instance, block 5 of a new image is in the bucket of 0 and
      is looked for in another. */
  lemma SearchMisses() returns (s: Sfs)
    ensures Inv(s) && s.ninos == 100 && 5 in s.blocks && 5 !in s.blockChains[Hash32(5)]
  {
    hide Inv, WithBlock, Hash32;
    s := InitialState(100);
    InitialGood(100, map[]);
    s := OneTableMore(s);
    s := OneTableMore(s);
    s := OneTableMore(s);
    SearchFindsOnlyBucketZero(s, 5);
    HashesOfFive();
  }

  lemma OneTableMore(s: Sfs) returns (s': Sfs)
    requires Inv(s) && s.nextIno < s.ninos
    ensures Inv(s') && s'.ninos == s.ninos && s'.nextIno == s.nextIno + 1 && s.nextIno in s'.blocks
  {
    hide Inv;
    ChainCount(s);
    s' := WithBlock(s);
    WithBlockInv(s);
  }

  lemma ChainCount(s: Sfs)
    requires Inv(s)
    ensures |s.blockChains| == HASH_LIST_SIZE
  {
  }

  lemma HashesOfFive()
    ensures Hash32(5) != Hash32(0)
  {
  }

  lemma TablesGrow(k: nat)
    ensures Tables(k + 1) - Tables(k) == NewTables(k)
  {
    var n := NewTables(k);
  }

  /** Every state of every run is valid and is what the lists say. In particular the pointers that
      update_cache is given are current, so that it never searches the cache. */
  method Execute(sfs: Builder, steps: seq<Step>, ghost a: Lists) returns (ok: bool)
    requires sfs.Valid() && Refines(sfs.Model(), a)
    modifies sfs
    ensures ok <==> ListRun(a, steps, sfs.ninos).Some?
    ensures ok ==> sfs.Valid() && Refines(sfs.Model(), ListRun(a, steps, sfs.ninos).value)
    ensures ok ==> forall f | f in sfs.inodes :: Current(sfs.Model(), f)
  {
    hide Inv, Refines, Appended, FileBlocks, Current, NewTables, ListStep;
    var i := 0;
    assert steps[..0] == [];
    while i < |steps|
      invariant 0 <= i <= |steps| && sfs.Valid()
      invariant ListRun(a, steps[..i], sfs.ninos).Some?
      invariant Refines(sfs.Model(), ListRun(a, steps[..i], sfs.ninos).value)
    {
      ghost var b := ListRun(a, steps[..i], sfs.ninos).value;
      assert steps[..i + 1][..i] == steps[..i];
      if ListStep(b, steps[i], sfs.ninos).None? {
        RunStops(a, steps, i + 1, sfs.ninos);
      }
      ok := One(sfs, steps[i], b);
      if !ok { return; }
      i := i + 1;
    }
    assert steps[..i] == steps;
    forall f | f in sfs.inodes ensures Current(sfs.Model(), f) {
      AlwaysCurrent(sfs.Model(), f);
    }
    return true;
  }

  method One(sfs: Builder, st: Step, ghost a: Lists) returns (ok: bool)
    requires sfs.Valid() && Refines(sfs.Model(), a)
    modifies sfs
    ensures ok <==> ListStep(a, st, sfs.ninos).Some?
    ensures ok ==> sfs.Valid() && Refines(sfs.Model(), ListStep(a, st, sfs.ninos).value)
  {
    hide Inv, NewTables, FileIs, FileBlocks;
    match st {
      case NewFile(h, kind) =>
        ok := NewOne(sfs, h, kind, a);
      case Append(f, data) =>
        if f !in sfs.inodes { return false; }
        ok := AppendOne(sfs, f, data, a);
    }
  }

  method NewOne(sfs: Builder, h: nat, kind: nat, ghost a: Lists) returns (ok: bool)
    requires sfs.Valid() && Refines(sfs.Model(), a)
    modifies sfs
    ensures ok <==> ListStep(a, NewFile(h, kind), sfs.ninos).Some?
    ensures ok ==> sfs.Valid() && Refines(sfs.Model(), ListStep(a, NewFile(h, kind), sfs.ninos).value)
  {
    ghost var s := sfs.Model();
    hide Inv, NewTables, FileIs, FileBlocks;
    NewFacts(s);
    var ino;
    ok, ino := sfs.AllocCacheInode(h, 0, kind);
    if !ok { return; }
    WithInodeInv(s, h, kind);
    RefinesNew(s, a, NewFile(h, kind));
  }

  method AppendOne(sfs: Builder, f: nat, data: Data, ghost a: Lists) returns (ok: bool)
    requires sfs.Valid() && Refines(sfs.Model(), a) && f in sfs.inodes
    modifies sfs
    ensures ok <==> ListStep(a, Append(f, data), sfs.ninos).Some?
    ensures ok ==> sfs.Valid() && Refines(sfs.Model(), ListStep(a, Append(f, data), sfs.ninos).value)
  {
    ghost var s := sfs.Model();
    hide Inv, Appended, FileBlocks, NewTables, FileIs, Pad;
    Length(s, f, a.files[f]);
    var d;
    ok, d := sfs.WriteNewBlock(data);
    if !ok { return; }
    ok := sfs.AppendBlock(f, |data|, d);
    if !ok { return; }
    RefinesAppend(s, sfs.Model(), a, f, data);
  }

  lemma Length(s: Sfs, f: nat, cs: seq<Chunk>)
    requires f in s.inodes && FileIs(s, f, cs)
    ensures s.inodes[f].nblks == |cs|
  {
  }

  ghost predicate Current(s: Sfs, f: nat)
    requires f in s.inodes
  {
    var k := s.inodes[f].nblks;
    && (NDIRECT <= k < L1_NBLKS ==> SingleIsCurrent(s, f))
    && (L1_NBLKS <= k < LN_NBLKS ==> DoubleIsCurrent(s, f))
  }

  lemma AlwaysCurrent(s: Sfs, f: nat)
    requires Inv(s) && f in s.inodes
    ensures Current(s, f)
  {
    hide Inv;
    if NDIRECT <= s.inodes[f].nblks < LN_NBLKS {
      CachedTablesAreCurrent(s, f);
    }
  }

  /** A run that cannot go on has no result. */
  lemma {:induction false} RunStops(a: Lists, steps: seq<Step>, i: nat, ninos: nat)
    requires i <= |steps| && ListRun(a, steps[..i], ninos).None?
    ensures ListRun(a, steps, ninos).None?
  {
    if i == |steps| {
      assert steps[..i] == steps;
    } else {
      assert steps[..|steps| - 1][..i] == steps[..i];
      RunStops(a, steps[..|steps| - 1], i, ninos);
    }
  }
}
