/** What open_dir achieves, entry by entry. */
module SfsDir {
  import opened Bytes
  import opened SfsState
  import opened SfsBlockMap
  import opened SfsHost
  import opened SfsTree
  import opened SfsLinks
  import opened SfsPlan
  import opened SfsWalk

  /** From s0 to s, directory cur (inside par) was filled with its dot entries and the packed entries of es. */
  ghost predicate Opened(s0: Sfs, s: Sfs, files: Files, open: set<nat>, cur: nat, par: nat, es: seq<Entry>)
    requires cur in s0.inodes && par in s0.inodes
  {
    && s.ninos == s0.ninos && Sealed(s0, s, {cur, par}) && cur in s.inodes && par in s.inodes
    && BodyDone(s, files, open, cur, par, es)
    && s.inodes[cur].inode.nlinks
         == (s0.inodes[cur].inode.nlinks + 1 + Subdirs(es) + if cur == par then 1 else 0) % 0x1_0000
    && (par != cur ==> OnlyLinked(s0, s, par))
    && DirPlanMet(s0, s, files, es)
  }

  ghost predicate BodyDone(s: Sfs, files: Files, open: set<nat>, cur: nat, par: nat, es: seq<Entry>)
    requires cur in s.inodes
  {
    && |FileBlocks(s, cur)| == 2 + PackedCount(es)
    && DirHead(s, cur, par)
    && BodyHolds(s, files, open, cur, FileBlocks(s, cur)[2..], es)
    && s.inodes[cur].inode.size == 256 * |FileBlocks(s, cur)|
  }

  /** The parent gained one link, from the ".." entry, and nothing else. */
  ghost predicate OnlyLinked(s0: Sfs, s: Sfs, par: nat)
    requires par in s0.inodes && par in s.inodes
  {
    && FileBlocks(s, par) == FileBlocks(s0, par)
    && s.inodes[par].inode.size == s0.inodes[par].inode.size
    && s.inodes[par].inode.nlinks == (s0.inodes[par].inode.nlinks + 1) % 0x1_0000
  }

  ghost predicate DirPlanMet(s0: Sfs, s: Sfs, files: Files, es: seq<Entry>) {
    var p := PlanDir(es, files, Seen(s0));
    p.Needs? && Seen(s) == p.seen && s.nextIno == s0.nextIno + p.blocks
  }

  // ---------- one entry more ----------

  lemma SnocCounts(es: seq<Entry>, e: Entry)
    ensures PackedCount(es + [e]) == PackedCount(es) + if Packed(e) then 1 else 0
    ensures Subdirs(es + [e]) == Subdirs(es) + if Packed(e) && e.node.Dir? then 1 else 0
  {
    assert (es + [e])[..|es|] == es;
  }

  lemma SnocPlan(es: seq<Entry>, e: Entry, files: Files, seen: set<nat>)
    requires PlanEntries(es, files, seen).Needs?
    ensures Hidden(e) ==> PlanEntries(es + [e], files, seen) == PlanEntries(es, files, seen)
    ensures !Hidden(e) && |e.name| > MAX_FNAME_LEN ==> PlanEntries(es + [e], files, seen) == Fails
    ensures !Hidden(e) && |e.name| <= MAX_FNAME_LEN && e.node.Special? ==>
              PlanEntries(es + [e], files, seen) == PlanEntries(es, files, seen)
    ensures Packed(e) && |e.name| <= MAX_FNAME_LEN ==>
              var p := PlanEntries(es, files, seen);
              var q := PlanNode(e.node, files, p.seen);
              PlanEntries(es + [e], files, seen)
                == if q.Needs? then Needs(p.blocks + q.blocks + 1, q.seen) else Fails
  {
    assert (es + [e])[..|es|] == es;
  }

  /** The plan of a directory, in terms of one entry more. */
  lemma SnocDirPlan(es: seq<Entry>, e: Entry, files: Files, seen: set<nat>)
    requires Packed(e) && |e.name| <= MAX_FNAME_LEN && PlanDir(es, files, seen).Needs?
    ensures var p := PlanDir(es, files, seen);
            var q := PlanNode(e.node, files, p.seen);
            var k := 2 + PackedCount(es);
            PlanDir(es + [e], files, seen)
              == if q.Needs? && k < LN_NBLKS then Needs(p.blocks + q.blocks + 1 + NewTables(k), q.seen) else Fails
  {
    SnocPlan(es, e, files, seen);
    SnocCounts(es, e);
    var k := 2 + PackedCount(es);
    assert Tables(k + 1) == Tables(k) + NewTables(k);
    hide Tables, NewTables, PlanNode, PlanEntries, PackedCount;
  }

  lemma SnocBody(s: Sfs, files: Files, open: set<nat>, n: nat, ds: seq<nat>, es: seq<Entry>, e: Entry)
    requires !Packed(e) && BodyHolds(s, files, open, n, ds, es)
    ensures BodyHolds(s, files, open, n, ds, es + [e])
  {
    assert (es + [e])[..|es|] == es;
  }

  // ---------- open_dir ----------

  lemma StartBody(s0: Sfs, s1: Sfs, s2: Sfs, files: Files, open: set<nat>, cur: nat, par: nat)
    requires cur in s0.inodes && par in s0.inodes && s0.inodes[cur].nblks == 0 && s0.inodes[cur].inode.size == 0
    requires EntryAdded(s0, s1, cur, cur, [DOT]) && EntryAdded(s1, s2, cur, par, [DOT, DOT])
    ensures BodyDone(s2, files, open, cur, par, [])
  {
    assert |FileBlocks(s0, cur)| == 0;
    hide FileBlocks, EntryName, EntryIno, NewTables;
    assert FileBlocks(s2, cur)[0] == FileBlocks(s1, cur)[0];
    assert FileBlocks(s2, cur)[2..] == [];
  }

  lemma StartPlan(s0: Sfs, s1: Sfs, s2: Sfs, files: Files, cur: nat, par: nat)
    requires cur in s0.inodes && par in s0.inodes && s0.inodes[cur].nblks == 0
    requires EntryAdded(s0, s1, cur, cur, [DOT]) && EntryAdded(s1, s2, cur, par, [DOT, DOT])
    ensures DirPlanMet(s0, s2, files, [])
  {
    assert s1.inodes[cur].nblks == |FileBlocks(s1, cur)| == 1;
    hide FileBlocks, Seen, EntryName, EntryIno;
    SeenSame(s0, s1);
    SeenSame(s1, s2);
  }

  lemma StartSealed(s0: Sfs, s1: Sfs, s2: Sfs, cur: nat, par: nat)
    requires cur in s0.inodes && par in s0.inodes
    requires EntryAdded(s0, s1, cur, cur, [DOT]) && EntryAdded(s1, s2, cur, par, [DOT, DOT])
    ensures Sealed(s0, s2, {cur, par})
    ensures par != cur ==> OnlyLinked(s0, s2, par)
  {
    hide FileBlocks, EntryAdded, Sealed, OnlyLinked;
    EntryAddedKeys(s0, s1, cur, cur, [DOT]);
    EntryAddedSealed(s0, s1, cur, cur, [DOT], {cur, par});
    EntryAddedSealed(s1, s2, cur, par, [DOT, DOT], {cur, par});
    SealedCompose(s0, s1, s2, {cur, par}, {cur, par}, {cur, par});
    if par != cur {
      StartLinked(s0, s1, s2, cur, par);
    }
  }

  lemma EntryAddedKeys(s: Sfs, s': Sfs, cur: nat, file: nat, name: seq<byte>)
    requires cur in s.inodes && file in s.inodes && EntryAdded(s, s', cur, file, name)
    ensures s'.inodes.Keys == s.inodes.Keys
  {
  }

  lemma StartLinked(s0: Sfs, s1: Sfs, s2: Sfs, cur: nat, par: nat)
    requires cur in s0.inodes && par in s0.inodes && par != cur
    requires EntryAdded(s0, s1, cur, cur, [DOT]) && EntryAdded(s1, s2, cur, par, [DOT, DOT])
    ensures OnlyLinked(s0, s2, par)
  {
    hide FileBlocks, EntryName, EntryIno;
  }

  /** After the two dot entries. */
  lemma OpenedStart(s0: Sfs, s1: Sfs, s2: Sfs, files: Files, open: set<nat>, cur: nat, par: nat)
    requires cur in s0.inodes && par in s0.inodes && s0.inodes[cur].nblks == 0 && s0.inodes[cur].inode.size == 0
    requires EntryAdded(s0, s1, cur, cur, [DOT]) && EntryAdded(s1, s2, cur, par, [DOT, DOT])
    ensures Opened(s0, s2, files, open, cur, par, [])
  {
    hide FileBlocks, EntryName, EntryIno, Sealed, BodyDone, DirPlanMet, OnlyLinked;
    StartBody(s0, s1, s2, files, open, cur, par);
    StartPlan(s0, s1, s2, files, cur, par);
    StartSealed(s0, s1, s2, cur, par);
  }

  /** After the first of them. */
  lemma DotAdded(s0: Sfs, s1: Sfs, files: Files, cur: nat, par: nat, name: seq<byte>)
    requires IsDir(s0, cur) && IsDir(s0, par) && FilesDone(s0, files) && EntryAdded(s0, s1, cur, cur, name)
    ensures IsDir(s1, cur) && IsDir(s1, par) && FilesDone(s1, files)
    ensures s1.nextIno == s0.nextIno + 1 + NewTables(s0.inodes[cur].nblks)
    ensures s1.inodes[cur].nblks == s0.inodes[cur].nblks + 1
  {
    EntryAddedGood(s0, s1, files, cur, cur, name);
    assert |FileBlocks(s1, cur)| == |FileBlocks(s0, cur)| + 1;
  }

  /** An entry that readdir yields but that is not packed. */
  lemma OpenedSkip(s0: Sfs, s: Sfs, files: Files, open: set<nat>, cur: nat, par: nat, es: seq<Entry>, e: Entry)
    requires cur in s0.inodes && par in s0.inodes && Opened(s0, s, files, open, cur, par, es)
    requires Hidden(e) || (|e.name| <= MAX_FNAME_LEN && e.node.Special?)
    ensures Opened(s0, s, files, open, cur, par, es + [e])
  {
    hide Sealed, FileBlocks, Seen, DirHead, OnlyLinked, BodyHolds;
    SnocCounts(es, e);
    SnocPlan(es, e, files, Seen(s0));
    SnocBody(s, files, open, cur, FileBlocks(s, cur)[2..], es, e);
  }

  lemma BodyStep(
    s: Sfs, s': Sfs, files: Files, open: set<nat>, cur: nat, par: nat, es: seq<Entry>, e: Entry)
    requires cur in s.inodes && cur in open && cur in s'.inodes && BodyDone(s, files, open, cur, par, es)
    requires Packed(e) && Sealed(s, s', {cur}) && NewEntry(s, s', files, open, cur, e.name, e.node)
    requires s'.inodes[cur].inode.size == s.inodes[cur].inode.size + 256
    ensures BodyDone(s', files, open, cur, par, es + [e])
  {
    hide FileBlocks, Holds, EntryName, EntryIno, Truncated;
    var bs, bs' := FileBlocks(s, cur), FileBlocks(s', cur);
    assert (es + [e])[..|es|] == es;
    assert bs'[2..] == bs[2..] + [bs'[|bs|]];
    assert bs'[2..][..|bs'[2..]| - 1] == bs[2..];
    assert Sealed(s, s', open);
    BodyFrame(s, s', files, open, cur, bs[2..], es);
  }

  /** One more packed entry. */
  lemma OpenedStep(
    s0: Sfs, s: Sfs, s': Sfs, files: Files, open: set<nat>, cur: nat, par: nat, es: seq<Entry>, e: Entry)
    requires IsDir(s0, cur) && IsDir(s0, par) && cur in open && Opened(s0, s, files, open, cur, par, es)
    requires Packed(e) && |e.name| <= MAX_FNAME_LEN && cur in s.inodes && s.inodes[cur].nblks < LN_NBLKS
    requires NodeAdded(s, s', files, open, cur, e.name, e.node)
    ensures Opened(s0, s', files, open, cur, par, es + [e])
  {
    hide Sealed, BodyDone, OnlyLinked, NewEntry, DirPlanMet, PlanMet, FileBlocks, Subdirs, PackedCount, NewTables;
    BodyLength(s, files, open, cur, par, es);
    if par != cur {
      StepParent(s0, s, s', cur, par);
    }
    BodyStep(s, s', files, open, cur, par, es, e);
    SealedCompose(s0, s, s', {cur, par}, {cur}, {cur, par});
    SnocCounts(es, e);
    StepPlan(s0, s, s', files, es, e);
  }

  lemma BodyLength(s: Sfs, files: Files, open: set<nat>, cur: nat, par: nat, es: seq<Entry>)
    requires cur in s.inodes && BodyDone(s, files, open, cur, par, es)
    ensures s.inodes[cur].nblks == 2 + PackedCount(es)
  {
  }

  lemma StepParent(s0: Sfs, s: Sfs, s': Sfs, cur: nat, par: nat)
    requires IsDir(s0, par) && par != cur && Sealed(s0, s, {cur, par}) && Sealed(s, s', {cur})
    requires OnlyLinked(s0, s, par)
    ensures OnlyLinked(s0, s', par)
  {
    assert SameContent(s, s', par);
  }

  lemma StepPlan(s0: Sfs, s: Sfs, s': Sfs, files: Files, es: seq<Entry>, e: Entry)
    requires DirPlanMet(s0, s, files, es) && 2 + PackedCount(es) < LN_NBLKS
    requires Packed(e) && |e.name| <= MAX_FNAME_LEN
    requires PlanMet(s, s', files, e.node, 1 + NewTables(2 + PackedCount(es)))
    ensures DirPlanMet(s0, s', files, es + [e])
  {
    hide Seen, PlanDir, PlanNode, Tables, NewTables;
    SnocDirPlan(es, e, files, Seen(s0));
  }

  // ---------- add_dir ----------

  /** The new directory c is complete once its entry in cur exists. */
  lemma DirHolds(
    s1: Sfs, s2: Sfs, s': Sfs, files: Files, open: set<nat>, cur: nat, c: nat, name: seq<byte>, h: nat, es: seq<Entry>)
    requires cur in s1.inodes && c in s1.inodes && c != cur && c !in open && cur in open
    requires IsDir(s1, c) && s1.inodes[c].inode.nlinks == 0
    requires Opened(s1, s2, files, open + {c}, c, cur, es) && EntryAdded(s2, s', cur, c, name)
    ensures Holds(s', files, open, c, cur, Dir(h, es))
  {
    hide FileBlocks, PlanDir, Seen, EntryName, EntryIno;
    var ds := FileBlocks(s2, c)[2..];
    assert Sealed(s2, s', open + {c}) by {
      EntryAddedSealed(s2, s', cur, c, name, open + {c});
    }
    BodyFrame(s2, s', files, open + {c}, c, ds, es);
    BodyClose(s', files, open + {c}, open, c, ds, es);
    hide BodyHolds;
    assert FileBlocks(s', c) == FileBlocks(s2, c);
    assert s'.inodes[c].inode.nlinks == (2 + Subdirs(es)) % 0x1_0000;
  }

  lemma DirBuilt(s: Sfs, s2: Sfs, files: Files, open: set<nat>, cur: nat, h: nat, es: seq<Entry>)
    requires Inv(s) && s.nextIno < s.ninos && IsDir(s, cur) && h !in Seen(s)
    requires Opened(WithInode(s, h, TYPE_DIR), s2, files, open, s.nextIno, cur, es)
    ensures Built(s, s2, files, cur, Dir(h, es)) && s.nextIno in s2.inodes && s.nextIno != cur
  {
    hide Inv, FileBlocks, PlanDir, Seen, BodyDone, Sealed;
    InodeNumbers(s, cur);
    var s1 := WithInode(s, h, TYPE_DIR);
    NewInodeSealed(s, h, TYPE_DIR);
    SealedCompose(s, s1, s2, {}, {s.nextIno, cur}, {cur});
    CurKept(s, s1, s2, cur);
  }

  lemma CurKept(s: Sfs, s1: Sfs, s2: Sfs, cur: nat)
    requires IsDir(s, cur) && Sealed(s, s1, {}) && cur in s1.inodes && cur in s2.inodes && OnlyLinked(s1, s2, cur)
    ensures FileBlocks(s2, cur) == FileBlocks(s, cur) && s2.inodes[cur].nblks == s.inodes[cur].nblks
    ensures s2.inodes[cur].inode.size == s.inodes[cur].inode.size
    ensures s2.inodes[cur].inode.nlinks == (s.inodes[cur].inode.nlinks + 1) % 0x1_0000
  {
    assert SameContent(s, s1, cur);
    assert s2.inodes[cur].nblks == |FileBlocks(s2, cur)|;
  }

  lemma FinishDir(
    s: Sfs, s2: Sfs, s': Sfs, files: Files, open: set<nat>, cur: nat, name: seq<byte>, h: nat, es: seq<Entry>)
    requires Inv(s) && s.nextIno < s.ninos && IsDir(s, cur) && cur in open && h !in Seen(s) && s.nextIno !in open
    requires Opened(WithInode(s, h, TYPE_DIR), s2, files, open + {s.nextIno}, s.nextIno, cur, es)
    requires s.nextIno in s2.inodes && cur in s2.inodes && EntryAdded(s2, s', cur, s.nextIno, name)
    ensures NodeAdded(s, s', files, open, cur, name, Dir(h, es))
  {
    hide Inv, Opened, EntryAdded, NodeAdded, Built, Seen;
    InodeNumbers(s, cur);
    DirBuilt(s, s2, files, open + {s.nextIno}, cur, h, es);
    DirHolds(WithInode(s, h, TYPE_DIR), s2, s', files, open, cur, s.nextIno, name, h, es);
    hide Holds;
    Finish(s, s2, s', files, open, cur, name, Dir(h, es), s.nextIno);
  }

  /** What the callers of open_dir go on with. */
  lemma OpenedFacts(s1: Sfs, s2: Sfs, files: Files, open: set<nat>, c: nat, cur: nat, es: seq<Entry>)
    requires c in s1.inodes && IsDir(s1, cur) && Opened(s1, s2, files, open, c, cur, es)
    ensures c in s2.inodes && IsDir(s2, cur) && s2.ninos == s1.ninos && DirPlanMet(s1, s2, files, es)
    ensures c != cur ==> s2.inodes[cur].nblks == s1.inodes[cur].nblks
  {
    if c != cur {
      assert |FileBlocks(s2, cur)| == |FileBlocks(s1, cur)|;
    }
  }

  /** A new directory inode can be opened. */
  lemma NewDirReady(s: Sfs, files: Files, open: set<nat>, cur: nat, hostIno: nat)
    requires Good(s, files) && s.nextIno < s.ninos && IsDir(s, cur) && hostIno !in files
    requires forall o | o in open :: IsDir(s, o)
    ensures var s1 := WithInode(s, hostIno, TYPE_DIR);
            && Good(s1, files) && IsDir(s1, s.nextIno) && IsDir(s1, cur) && s.nextIno !in open && s.nextIno != cur
            && (forall o | o in open + {s.nextIno} :: IsDir(s1, o))
            && Seen(s1) == Seen(s) + {hostIno} && s1.inodes[cur].nblks == s.inodes[cur].nblks
  {
    hide Inv, Links, FileBlocks, ContentHolds, Seen, Sealed, FilesDone;
    InodeNumbers(s, cur);
    NewInodeGood(s, hostIno, TYPE_DIR);
    NewInodeSealed(s, hostIno, TYPE_DIR);
    FilesDoneFrame(s, WithInode(s, hostIno, TYPE_DIR), files, {});
  }

  /** The entry for a new directory completes add_dir. */
  lemma DirEntered(
    s: Sfs, s2: Sfs, s': Sfs, files: Files, open: set<nat>, cur: nat, name: seq<byte>, h: nat, es: seq<Entry>)
    requires Inv(s) && s.nextIno < s.ninos && IsDir(s, cur) && cur in open && h !in Seen(s) && s.nextIno !in open
    requires Opened(WithInode(s, h, TYPE_DIR), s2, files, open + {s.nextIno}, s.nextIno, cur, es)
    requires s.nextIno in s2.inodes && IsDir(s2, cur) && EntryAdded(s2, s', cur, s.nextIno, name)
    requires FilesDone(s2, files)
    ensures NodeAdded(s, s', files, open, cur, name, Dir(h, es)) && FilesDone(s', files)
  {
    hide Inv, Opened, EntryAdded, NodeAdded, Seen, FilesDone;
    FinishDir(s, s2, s', files, open, cur, name, h, es);
    EntryAddedGood(s2, s', files, cur, s.nextIno, name);
  }

  // ---------- when open_dir aborts ----------

  lemma PlanOfDots(files: Files, seen: set<nat>)
    ensures PlanDir([], files, seen) == Needs(2, seen)
    ensures NewTables(0) == NewTables(1) == 0
  {
  }

  /** The next entry can be packed exactly if the directory up to it fits. */
  lemma StepFitsIff(
    s0: Sfs, s: Sfs, files: Files, open: set<nat>, cur: nat, par: nat, es: seq<Entry>, i: nat)
    requires cur in s0.inodes && par in s0.inodes && i < |es| && Opened(s0, s, files, open, cur, par, es[..i])
    requires Packed(es[i]) && |es[i].name| <= MAX_FNAME_LEN && cur in s.inodes
    ensures StepFits(s, files, cur, es[i].node)
       <==> Fits(PlanDir(es[..i + 1], files, Seen(s0)), s0.nextIno, s0.ninos)
  {
    hide Sealed, BodyDone, OnlyLinked, FileBlocks, Seen, PlanDir, PlanNode, NewTables;
    BodyLength(s, files, open, cur, par, es[..i]);
    assert es[..i + 1] == es[..i] + [es[i]];
    SnocDirPlan(es[..i], es[i], files, Seen(s0));
  }

  /** A name that is too long aborts the run. */
  lemma LongNameFails(es: seq<Entry>, i: nat, files: Files, seen: set<nat>)
    requires i < |es| && !Hidden(es[i]) && |es[i].name| > MAX_FNAME_LEN
    ensures PlanDir(es, files, seen).Fails?
  {
    assert es[..i + 1][..i] == es[..i];
    assert PlanEntries(es[..i + 1], files, seen).Fails?;
    if PlanEntries(es, files, seen).Needs? {
      PlanPrefix(es, i + 1, files, seen);
    }
  }

  /** If a prefix of the entries does not fit, the run aborts. */
  lemma PrefixFails(es: seq<Entry>, i: nat, files: Files, seen: set<nat>, next: nat, ninos: nat)
    requires i <= |es| && !Fits(PlanDir(es[..i], files, seen), next, ninos)
    ensures !Fits(PlanDir(es, files, seen), next, ninos)
  {
    hide PlanDir;
    if Fits(PlanDir(es, files, seen), next, ninos) {
      PlanDirPrefix(es, i, files, seen, next, ninos);
    }
  }

  lemma OpenedKinds(s0: Sfs, s: Sfs, files: Files, open: set<nat>, cur: nat, par: nat, es: seq<Entry>)
    requires cur in s0.inodes && par in s0.inodes && Opened(s0, s, files, open, cur, par, es)
    ensures forall n | IsDir(s0, n) :: IsDir(s, n)
    ensures s.ninos == s0.ninos && DirPlanMet(s0, s, files, es)
  {
    hide BodyDone, OnlyLinked, FileBlocks, Seen, PlanDir;
  }

  // ---------- the state after create_sfs ----------

  function InitialState(ninos: nat): Sfs
    requires FirstFree(ninos) <= ninos
  {
    var empty: seq<seq<nat>> := seq(HASH_LIST_SIZE, _ => []);
    Sfs(ninos, FirstFree(ninos), ninos - FirstFree(ninos),
        map[BLKN_ROOT := NewInode(0, TYPE_DIR)], empty[Hash32(0) := [BLKN_ROOT]], map[], empty, map[])
  }

  lemma InitialInv(ninos: nat)
    requires FirstFree(ninos) < ninos <= MAX_NBLKS
    ensures Inv(InitialState(ninos))
  {
    var s := InitialState(ninos);
    assert forall n, a | n in s.inodes :: Table(s, n, a) == 0;
    assert MapOk(s, BLKN_ROOT);
    assert TableOwners(s, map[]);
    assert DataOwners(s, map[]);
    InitialChains(ninos);
  }

  lemma InitialChains(ninos: nat)
    requires FirstFree(ninos) < ninos
    ensures InodeChains(InitialState(ninos)) && BlockChains(InitialState(ninos))
  {
    var s := InitialState(ninos);
    forall h, n | 0 <= h < HASH_LIST_SIZE && n in s.inodeChains[h]
      ensures InBucket(s, n, h)
    {
      assert h == Hash32(0);
    }
  }

  lemma InitialGood(ninos: nat, files: Files)
    requires FirstFree(ninos) < ninos <= MAX_NBLKS && FilesOk(files)
    ensures Good(InitialState(ninos), files) && Seen(InitialState(ninos)) == {0}
    ensures IsDir(InitialState(ninos), BLKN_ROOT)
  {
    var s := InitialState(ninos);
    InitialInv(ninos);
    assert FileBlocks(s, BLKN_ROOT) == [];
    assert s.inodes.Keys == {BLKN_ROOT};
    hide Inv, InitialState;
    NothingNamed(s, BLKN_ROOT, s.nextIno);
  }

  lemma {:induction false} NothingNamed(s: Sfs, t: nat, hi: nat)
    requires forall n | n in s.inodes :: s.inodes[n].nblks == 0
    ensures Naming(s, t, hi) == 0
  {
    if hi != 0 {
      NothingNamed(s, t, hi - 1);
    }
  }
}
