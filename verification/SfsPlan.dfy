/** Exactly how many blocks a host tree needs, and when a run aborts for another reason. */
module SfsPlan {
  import opened Bytes
  import opened SfsState
  import opened SfsHost

  /** The blocks a step takes and the host numbers known after it, or an abort. */
  datatype Plan = Fails | Needs(blocks: nat, seen: set<nat>)

  /** Only the last read of a file may return less than a block, and a file has at most 32768 blocks. */
  ghost predicate ReadsOk(chunks: seq<seq<byte>>) {
    && |chunks| <= LN_NBLKS
    && forall i | 0 <= i < |chunks| - 1 :: |chunks[i]| == BLKSIZE
  }

  ghost function PlanNode(t: Host, files: Files, seen: set<nat>): Plan
    decreases t
  {
    match t
    case File(h) =>
      if h in seen then Needs(0, seen)
      else if h in files && ReadsOk(files[h]) then
        Needs(1 + |files[h]| + Tables(|files[h]|), seen + {h})
      else Fails
    case Link(h, target) =>
      if |target| < BLKSIZE then Needs(2, seen + {h}) else Fails
    case Dir(h, es) =>
      if h in seen then Fails else
        var p := PlanDir(es, files, seen + {h});
        if p.Needs? then Needs(1 + p.blocks, p.seen) else Fails
    case Special => Fails
  }

  /** The two dot entries, the packed entries, the tables that hold them, and what the entries need. */
  ghost function PlanDir(es: seq<Entry>, files: Files, seen: set<nat>): Plan
    decreases es, 1
  {
    var p := PlanEntries(es, files, seen);
    if p.Needs? && 2 + PackedCount(es) <= LN_NBLKS then
      Needs(2 + Tables(2 + PackedCount(es)) + p.blocks, p.seen)
    else Fails
  }

  ghost function PlanEntries(es: seq<Entry>, files: Files, seen: set<nat>): Plan
    decreases es, 0
  {
    if es == [] then Needs(0, seen) else
      var e := es[|es| - 1];
      var p := PlanEntries(es[..|es| - 1], files, seen);
      if p.Fails? || Hidden(e) then p
      else if |e.name| > MAX_FNAME_LEN then Fails
      else if e.node.Special? then p
      else
        var q := PlanNode(e.node, files, p.seen);
        if q.Needs? then Needs(p.blocks + q.blocks + 1, q.seen) else Fails
  }

  /** The plan can be carried out when next is the first free block of ninos. */
  ghost predicate Fits(p: Plan, next: nat, ninos: nat) {
    p.Needs? && next + p.blocks <= ninos
  }

  lemma TablesMonotone(m: nat, n: nat)
    requires m <= n
    ensures Tables(m) <= Tables(n)
  {
  }

  lemma {:induction false} PlanPrefix(es: seq<Entry>, i: nat, files: Files, seen: set<nat>)
    requires i <= |es|
    requires PlanEntries(es, files, seen).Needs?
    ensures PlanEntries(es[..i], files, seen).Needs?
    ensures PlanEntries(es[..i], files, seen).blocks <= PlanEntries(es, files, seen).blocks
    ensures PackedCount(es[..i]) <= PackedCount(es)
  {
    if i == |es| {
      assert es[..i] == es;
    } else {
      var front := es[..|es| - 1];
      PlanPrefix(front, i, files, seen);
      assert front[..i] == es[..i];
    }
  }

  /** If a directory fits, so does every prefix of its entries. */
  lemma PlanDirPrefix(es: seq<Entry>, i: nat, files: Files, seen: set<nat>, next: nat, ninos: nat)
    requires i <= |es|
    requires Fits(PlanDir(es, files, seen), next, ninos)
    ensures Fits(PlanDir(es[..i], files, seen), next, ninos)
  {
    PlanPrefix(es, i, files, seen);
    TablesMonotone(2 + PackedCount(es[..i]), 2 + PackedCount(es));
  }
}
