/** What mksfs packs and what it costs, in terms of names, reads and the size of the image. */
module SfsPacking {
  import opened Options
  import opened Bytes
  import opened SfsState
  import opened SfsHost
  import opened SfsPlan
  import opened SfsDir
  import opened SfsImage
  import opened SfsRuns

  // ---------- what is asked of the host ----------

  /** Names are C strings, a number is that of a regular file or not, and this holds at all depths; nothing else. */
  lemma EntryAccepted(es: seq<Entry>, e: Entry, files: Files)
    ensures EntriesOk([], files)
    ensures EntriesOk(es + [e], files) <==>
      && EntriesOk(es, files) && 0 !in e.name
      && (e.node.File? ==> e.node.hostIno in files)
      && (e.node.Link? || e.node.Dir? ==> e.node.hostIno !in files)
      && (e.node.Dir? ==> EntriesOk(e.node.entries, files))
  {
    var all := es + [e];
    assert all[|es|] == e;
    assert forall i | 0 <= i < |es| :: all[i] == es[i];
  }

  /** Each read returns 1 to 4096 bytes, and no number is 0; nothing else. */
  lemma ReadsAccepted(files: Files)
    ensures FilesOk(files) <==>
      0 !in files && forall h, i | h in files && 0 <= i < |files[h]| :: 1 <= |files[h][i]| <= 4096
  {
  }

  // ---------- which entries are packed ----------

  /** An entry is left out exactly if its name begins with a dot (byte 46) or it is of a special type; else it comes
      last, with at most 252 bytes of its name. */
  lemma EntryPacked(es: seq<Entry>, e: Entry, files: Files, inos: map<nat, nat>)
    ensures ImageEntries(es + [e], files, inos)
         == if (|e.name| > 0 && e.name[0] == 46) || e.node.Special? then ImageEntries(es, files, inos)
            else ImageEntries(es, files, inos)
                 + [TEntry(if |e.name| <= 252 then e.name else e.name[..252], Image(e.node, files, inos))]
  {
    assert (es + [e])[..|es|] == es;
    hide Image;
  }

  /** If no name begins with a dot and no type is special, all entries are packed, in their order. */
  lemma {:induction false} AllPacked(es: seq<Entry>, files: Files, inos: map<nat, nat>)
    requires forall i | 0 <= i < |es| :: (|es[i].name| == 0 || es[i].name[0] != 46) && !es[i].node.Special?
    ensures |ImageEntries(es, files, inos)| == |es|
    ensures forall i | 0 <= i < |es| ::
              ImageEntries(es, files, inos)[i]
                == TEntry(if |es[i].name| <= 252 then es[i].name else es[i].name[..252], Image(es[i].node, files, inos))
  {
    hide Image, ImageEntries;
    if es == [] {
      NoEntries(files, inos);
    } else {
      var front := es[..|es| - 1];
      AllPacked(front, files, inos);
      EntryPacked(front, es[|es| - 1], files, inos);
      assert front + [es[|es| - 1]] == es;
      assert forall i | 0 <= i < |front| :: front[i] == es[i];
    }
  }

  lemma NoEntries(files: Files, inos: map<nat, nat>)
    ensures ImageEntries([], files, inos) == []
  {
  }

  lemma {:induction false} PackedAreEntries(es: seq<Entry>, files: Files, inos: map<nat, nat>)
    ensures PackedCount(es) == |ImageEntries(es, files, inos)|
  {
    hide Image;
    if es != [] {
      PackedAreEntries(es[..|es| - 1], files, inos);
    }
  }

  // ---------- what they cost ----------

  /** The indirect tables of a file of n blocks: none up to 12, one up to 1036, and then two and one more for each
      further 1024. */
  function IndirectTables(n: nat): nat {
    if n <= 12 then 0 else if n <= 1036 then 1 else 2 + (n - 1036 + 1023) / 1024
  }

  /** An entry with a dot in front costs nothing; one of a special type neither, but its name is looked at. */
  lemma SkippedCosts(es: seq<Entry>, e: Entry, files: Files, seen: set<nat>)
    requires PlanEntries(es, files, seen).Needs?
    ensures |e.name| > 0 && e.name[0] == 46 ==> PlanEntries(es + [e], files, seen) == PlanEntries(es, files, seen)
    ensures |e.name| <= 255 && e.node.Special? ==> PlanEntries(es + [e], files, seen) == PlanEntries(es, files, seen)
    ensures |e.name| > 255 && e.name[0] != 46 ==> PlanEntries(es + [e], files, seen).Fails?
  {
    SnocPlan(es, e, files, seen);
  }

  /** A regular file takes a block for its entry; when it is met first, an inode and a block for each read besides,
      and its tables. All reads but the last must fill a block, and there may be 32768 of them. */
  lemma FileCosts(es: seq<Entry>, name: seq<byte>, h: nat, files: Files, seen: set<nat>)
    requires PlanEntries(es, files, seen).Needs? && |name| <= 255 && (|name| == 0 || name[0] != 46) && h in files
    ensures var p := PlanEntries(es, files, seen);
            var n := |files[h]|;
            PlanEntries(es + [Entry(name, File(h))], files, seen)
              == if h in p.seen then Needs(p.blocks + 1, p.seen)
                 else if n <= 32768 && forall i | 0 <= i < n - 1 :: |files[h][i]| == 4096 then
                   Needs(p.blocks + 2 + n + IndirectTables(n), p.seen + {h})
                 else Fails
  {
    SnocPlan(es, Entry(name, File(h)), files, seen);
  }

  /** A symbolic link takes an entry, an inode and one block, which its target may not fill. */
  lemma LinkCosts(es: seq<Entry>, name: seq<byte>, h: nat, target: seq<byte>, files: Files, seen: set<nat>)
    requires PlanEntries(es, files, seen).Needs? && |name| <= 255 && (|name| == 0 || name[0] != 46)
    ensures var p := PlanEntries(es, files, seen);
            PlanEntries(es + [Entry(name, Link(h, target))], files, seen)
              == if |target| <= 4095 then Needs(p.blocks + 3, p.seen + {h}) else Fails
  {
    SnocPlan(es, Entry(name, Link(h, target)), files, seen);
  }

  /** A directory takes an entry, an inode, a block for each of its dot entries, what its other entries need, and the
      tables for all of them. It may not be met twice, and has room for 32766 entries. */
  lemma DirCosts(es: seq<Entry>, name: seq<byte>, h: nat, sub: seq<Entry>, files: Files, seen: set<nat>,
                 inos: map<nat, nat>)
    requires PlanEntries(es, files, seen).Needs? && |name| <= 255 && (|name| == 0 || name[0] != 46)
    ensures var p := PlanEntries(es, files, seen);
            var q := PlanEntries(sub, files, p.seen + {h});
            var k := |ImageEntries(sub, files, inos)| + 2;
            PlanEntries(es + [Entry(name, Dir(h, sub))], files, seen)
              == if h !in p.seen && q.Needs? && k <= 32768 then
                   Needs(p.blocks + 4 + IndirectTables(k) + q.blocks, q.seen)
                 else Fails
  {
    hide ImageEntries, PlanEntries, PlanNode;
    PackedAreEntries(sub, files, inos);
    DirPlan(h, sub, files, PlanEntries(es, files, seen).seen);
    SnocPlan(es, Entry(name, Dir(h, sub)), files, seen);
  }

  lemma DirPlan(h: nat, sub: seq<Entry>, files: Files, seen: set<nat>)
    ensures var q := PlanEntries(sub, files, seen + {h});
            var k := PackedCount(sub) + 2;
            PlanNode(Dir(h, sub), files, seen)
              == if h !in seen && q.Needs? && k <= 32768 then Needs(3 + IndirectTables(k) + q.blocks, q.seen)
                 else Fails
  {
    hide PlanEntries, PackedCount;
  }

  lemma NothingCosts(files: Files, seen: set<nat>)
    ensures PlanEntries([], files, seen) == Needs(0, seen)
  {
  }

  /** The root directory has no entry and its inode is there from the start; the map takes a block for each 32768. */
  lemma PackableExact(fileSize: nat, es: seq<Entry>, files: Files, inos: map<nat, nat>)
    ensures var n := Capacity(fileSize);
            var q := PlanEntries(es, files, {0});
            var k := |ImageEntries(es, files, inos)| + 2;
            (Packable(fileSize, es, files) <==>
              q.Needs? && k <= 32768 && 2 + (n + 32767) / 32768 + 2 + IndirectTables(k) + q.blocks <= n)
  {
    PackedAreEntries(es, files, inos);
    hide ImageEntries, PlanEntries, Capacity;
  }

  // ---------- limits ----------

  /** Up to 2 GB, the whole blocks of the image file are used; from there to 16 TB, 524288 blocks; and the number of
      blocks is reduced to 32 bits. */
  lemma CapacityExact(fileSize: nat)
    ensures fileSize < 0x8000_0000 ==> 4096 * Capacity(fileSize) <= fileSize < 4096 * (Capacity(fileSize) + 1)
    ensures 0x8000_0000 <= fileSize < 0x1000_0000_0000 ==> Capacity(fileSize) == 524288
    ensures Capacity(fileSize + 0x1000_0000_0000) == Capacity(fileSize)
  {
    assert (fileSize + 0x1000_0000_0000) / 4096 == fileSize / 4096 + 0x1_0000_0000;
  }

  /** A block can be appended as long as the blocks before it are less than 128 MB, and while there is room for it and
      the tables that become due: one behind 12 blocks, two behind 1036, and one behind each further 1024. */
  lemma AppendLimit(a: Lists, f: nat, data: Data, ninos: nat)
    requires f in a.files
    ensures var n := |a.files[f]|;
            var due := IndirectTables(n + 1) - IndirectTables(n);
            && (ListStep(a, Append(f, data), ninos).Some? <==>
                  n * 4096 < 128 * 1024 * 1024 && a.next + 1 + due <= ninos)
            && (ListStep(a, Append(f, data), ninos).Some? ==>
                  ListStep(a, Append(f, data), ninos).value
                    == Lists(a.next + 1 + due, a.files[f := a.files[f] + [Chunk(a.next, data)]]))
  {
    var n := NewTables(|a.files[f]|);
  }

  /** A new file takes the next block, if there is one. */
  lemma NewFileLimit(a: Lists, h: nat, kind: nat, ninos: nat)
    ensures ListStep(a, NewFile(h, kind), ninos)
         == if a.next < ninos then Some(Lists(a.next + 1, a.files[a.next := []])) else None
  {
  }
}
