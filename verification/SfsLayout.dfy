/** The format of an image, byte by byte: what the decoder looks at, in numbers. */
module SfsLayout {
  import opened Options
  import opened Bytes
  import opened CInts
  import opened SfsState
  import opened SfsHost
  import opened SfsTree
  import opened FreeMap
  import opened SfsClose
  import opened SfsDecode

  /** A 32-bit number, its low byte first. */
  function WordAt(b: Block, off: nat): nat
    requires off + 4 <= 4096
  {
    b[off] as int + 256 * (b[off + 1] as int) + 65536 * (b[off + 2] as int) + 16777216 * (b[off + 3] as int)
  }

  function HalfAt(b: Block, off: nat): nat
    requires off + 2 <= 4096
  {
    b[off] as int + 256 * (b[off + 1] as int)
  }

  /** The numbers that identify the parts of an image. */
  lemma FormatNumbers()
    ensures MAGIC == 0x2f8dbe2a && BLKN_SUPER == 0 && BLKN_ROOT == 1 && BLKN_FREEMAP == 2
    ensures TYPE_FILE == 1 && TYPE_DIR == 2 && TYPE_LINK == 3 && HASH_LIST_SIZE == 1024
    ensures |SuperBytes(0, 0, seq(INFO_LEN, _ => 0))| == 44
    ensures MAX_NBLKS * BLKSIZE == 2 * 1024 * 1024 * 1024 && LN_NBLKS * BLKSIZE == 128 * 1024 * 1024
    ensures BLKBITS == 8 * BLKSIZE && 4 * BLK_NENTRY == BLKSIZE && L1_NBLKS == 12 + BLK_NENTRY
  {
  }

  /** An inode: size, type, links, blocks, twelve block numbers and two table numbers. */
  lemma InodeLayout(b: Block)
    ensures var i := ReadInode(b);
            && i.size == WordAt(b, 0) && i.kind == HalfAt(b, 4) && i.nlinks == HalfAt(b, 6) && i.blocks == WordAt(b, 8)
            && |i.direct| == 12 && (forall k | 0 <= k < 12 :: i.direct[k] == WordAt(b, 12 + 4 * k))
            && i.indirect == WordAt(b, 60) && i.dbIndirect == WordAt(b, 64)
  {
  }

  /** Where block k of the file with inode b is named. */
  lemma BlockPlaces(d: map<nat, Block>, b: Block, k: nat)
    ensures k < 12 ==> DiskBlockAt(d, ReadInode(b), k) == WordAt(b, 12 + 4 * k)
    ensures 12 <= k < 1036 && WordAt(b, 60) in d ==>
      DiskBlockAt(d, ReadInode(b), k) == WordAt(d[WordAt(b, 60)], 4 * (k - 12))
    ensures 1036 <= k < 1036 + 1024 * 1024 && WordAt(b, 64) in d ==>
      var t := WordAt(d[WordAt(b, 64)], 4 * ((k - 1036) / 1024));
      t in d ==> DiskBlockAt(d, ReadInode(b), k) == WordAt(d[t], 4 * ((k - 1036) % 1024))
  {
    InodeLayout(b);
  }

  /** An entry: the number of an inode, and a name that ends at a NUL. */
  lemma EntryLayout(b: Block)
    ensures EntryIno(b) == WordAt(b, 0)
    ensures var n := |EntryName(b)|;
            && n <= 256 && EntryName(b) == b[4..4 + n] && 0 !in EntryName(b)
            && (n < 256 ==> b[4 + n] == 0)
  {
    var name := EntryName(b);
    assert b[4..260][..|name|] == b[4..4 + |name|];
    assert |name| < 256 ==> b[4..260][|name|] == b[4 + |name|];
  }

  lemma {:induction false} BitIsPower(w: nat, k: nat)
    ensures Bit(w, k) <==> w / Pow2(k) % 2 == 1
  {
    if k != 0 {
      BitIsPower(w / 2, k - 1);
      HalfQuotient(w, Pow2(k - 1));
    }
  }

  lemma HalfQuotient(w: nat, p: nat)
    requires p > 0
    ensures w / 2 / p == w / (2 * p)
  {
    var q := w / (2 * p);
    var r := w % (2 * p);
    assert w == 2 * p * q + r;
    assert w / 2 == p * q + r / 2 by {
      assert 2 * p * q == 2 * (p * q);
    }
    QuotientIs(w / 2, p, q, r / 2);
  }

  lemma QuotientIs(n: nat, p: nat, q: nat, r: nat)
    requires p > 0 && n == p * q + r && r < p
    ensures n / p == q
  {
    var d := n / p - q;
    assert p * d == p * (n / p) - p * q;
    assert p * (n / p) == n - n % p;
    assert 0 - p < p * d < p;
  }

  /** The bit of block b in the free map: 32768 bits to a map block, the low bits of a byte first. */
  lemma FreeBitPlace(d: map<nat, Block>, b: nat)
    ensures FreeBit(d, b)
       <==> 2 + b / 32768 in d && (d[2 + b / 32768][b % 32768 / 8] as nat) / Pow2(b % 8) % 2 == 1
  {
    if 2 + b / 32768 in d {
      assert b % 32768 % 8 == b % 8;
      BitIsPower(d[2 + b / 32768][b % 32768 / 8], b % 8);
    }
  }

  /** A bucket is the ten high bits of the low 32 bits of a product. */
  lemma HashExact(val: nat) returns (k: nat, t: nat)
    ensures val * 2654404609 == 0x1_0000_0000 * k + 0x40_0000 * Hash32(val) + t && t < 0x40_0000 && Hash32(val) < 1024
  {
    var low := val % 0x1_0000_0000;
    var high := val / 0x1_0000_0000;
    var p := low * 2654404609;
    assert val * 2654404609 == 0x1_0000_0000 * (high * 2654404609) + p;
    k := high * 2654404609 + p / 0x1_0000_0000;
    t := p % 0x1_0000_0000 % 0x40_0000;
  }

  // ---------- what a decoded tree says ----------

  /** The contents of a file are the bytes of its blocks, cut off at its size. */
  lemma {:induction false} ContentSound(d: map<nat, Block>, ino: Inode, k: nat)
    requires ReadContent(d, ino, k).Some?
    ensures var c := ReadContent(d, ino, k).value;
            && |c| == (if ino.size < 4096 * k then ino.size else 4096 * k)
            && forall x | 0 <= x < |c| ::
                 DiskBlockAt(d, ino, x / 4096) in d && c[x] == d[DiskBlockAt(d, ino, x / 4096)][x % 4096]
  {
    hide DiskBlockAt;
    if k != 0 {
      ContentSound(d, ino, k - 1);
    }
  }

  /** The subdirectories are counted. */
  lemma {:induction false} SubdirsCounted(es: seq<TEntry>)
    ensures TreeSubdirs(es) == |set i | 0 <= i < |es| && es[i].tree.TDir?|
  {
    var all := set i | 0 <= i < |es| && es[i].tree.TDir?;
    if es != [] {
      var n := |es| - 1;
      SubdirsCounted(es[..n]);
      var front := set i | 0 <= i < n && es[..n][i].tree.TDir?;
      assert all == front + if es[n].tree.TDir? then {n} else {};
    }
  }

  /** Entry number i behind the dots of directory n: a name, and the tree below the inode it names. */
  ghost predicate EntryDecoded(d: map<nat, Block>, n: nat, ino: Inode, i: nat, e: TEntry, depth: nat) {
    var b := DiskBlockAt(d, ino, i + 2);
    b in d && e.name == EntryName(d[b]) && Decode(d, EntryIno(d[b]), n, depth) == Some(e.tree)
  }

  lemma {:induction false} EntriesSound(d: map<nat, Block>, n: nat, ino: Inode, k: nat, depth: nat)
    requires DecodeEntries(d, n, ino, k, depth).Some?
    ensures var es := DecodeEntries(d, n, ino, k, depth).value;
            && |es| == (if k <= 2 then 0 else k - 2)
            && forall i | 0 <= i < |es| :: EntryDecoded(d, n, ino, i, es[i], depth)
  {
    hide DiskBlockAt, Decode, EntryName, EntryIno;
    if k > 2 {
      EntriesSound(d, n, ino, k - 1, depth);
    }
  }

  /** What it means for a tree to be decoded: types, contents, names in order, both dot entries, and links. */
  lemma DecodeSound(d: map<nat, Block>, n: nat, p: nat, depth: nat)
    requires Decode(d, n, p, depth).Some?
    ensures n in d
    ensures var i := ReadInode(d[n]);
            match Decode(d, n, p, depth).value
            case TFile(ino, c) => ino == n && i.kind == 1 && ReadContent(d, i, i.blocks) == Some(c)
            case TLink(target) => i.kind == 3 && ReadContent(d, i, i.blocks) == Some(target)
            case TDir(es) =>
              && i.kind == 2 && i.blocks == |es| + 2 && depth > 0
              && EntryAt(d, DiskBlockAt(d, i, 0), n, [46]) && EntryAt(d, DiskBlockAt(d, i, 1), p, [46, 46])
              && i.nlinks == (2 + |set k | 0 <= k < |es| && es[k].tree.TDir?|) % 65536
              && forall k | 0 <= k < |es| :: EntryDecoded(d, n, i, k, es[k], depth - 1)
  {
    hide DiskBlockAt, ReadContent, ReadInode, EntryName, EntryIno, DecodeEntries, EntryDecoded, TreeSubdirs;
    match Decode(d, n, p, depth).value {
      case TFile(_, _) =>
      case TLink(_) =>
      case TDir(es) =>
        EntriesSound(d, n, ReadInode(d[n]), ReadInode(d[n]).blocks, depth - 1);
        SubdirsCounted(es);
    }
  }

  /** The height of a directory is one more than that of its highest subdirectory, or 0. */
  lemma {:induction false} HeightExact(es: seq<Entry>)
    ensures forall i | 0 <= i < |es| && es[i].node.Dir? :: EntriesHeight(es[i].node.entries) < EntriesHeight(es)
    ensures EntriesHeight(es) == 0
         || exists i :: 0 <= i < |es| && es[i].node.Dir? && EntriesHeight(es) == 1 + EntriesHeight(es[i].node.entries)
  {
    if es != [] {
      var front := es[..|es| - 1];
      HeightExact(front);
      assert forall i | 0 <= i < |front| :: front[i] == es[i];
    }
  }
}
