/** Who owns which block: in every valid state no two uses share a block number. */
module SfsOwnership {
  import opened SfsState
  import opened SfsBlockMap

  /** Everything that a block of the image can be used for. */
  datatype Use =
    | Super
    | FreeMapPart(i: nat)
    | InodeOf(n: nat)
    | TableOf(n: nat, slot: Slot)
    | BlockOf(n: nat, k: nat)

  ghost predicate InUse(s: Sfs, u: Use) {
    match u
    case Super => true
    case FreeMapPart(i) => BLKN_FREEMAP + i < FirstFree(s.ninos)
    case InodeOf(n) => n in s.inodes
    case TableOf(n, slot) => n in s.inodes && Table(s, n, slot) != 0
    case BlockOf(n, k) => n in s.inodes && k < s.inodes[n].nblks
  }

  /** The block number that a use is given. */
  ghost function Place(s: Sfs, u: Use): nat
    requires InUse(s, u)
  {
    match u
    case Super => BLKN_SUPER
    case FreeMapPart(i) => BLKN_FREEMAP + i
    case InodeOf(n) => n
    case TableOf(n, slot) => Table(s, n, slot)
    case BlockOf(n, k) => BlockAt(s, n, k)
  }

  /** The part of the state that the block belongs to. */
  lemma PlaceKind(s: Sfs, u: Use)
    requires Inv(s) && InUse(s, u)
    ensures Place(s, u) < s.nextIno <= s.ninos
    ensures match u
            case Super => Place(s, u) == BLKN_SUPER
            case FreeMapPart(i) => BLKN_FREEMAP <= Place(s, u) < FirstFree(s.ninos)
            case InodeOf(n) => Place(s, u) in s.inodes
            case TableOf(n, slot) => Place(s, u) in s.blocks
            case BlockOf(n, k) => Place(s, u) in s.disk
  {
    hide DataDistinct, InodeChains, BlockChains;
    if u.TableOf? {
      TableIsCached(s, u.n, u.slot);
    }
  }

  lemma SameTable(s: Sfs, n: nat, a: Slot, m: nat, b: Slot)
    requires TablesDistinct(s) && n in s.inodes && m in s.inodes
    requires Table(s, n, a) == Table(s, m, b) != 0
    ensures n == m && a == b
  {
    var own :| TableOwners(s, own);
    assert own[Table(s, n, a)] == (n, a) && own[Table(s, m, b)] == (m, b);
  }

  lemma SameBlock(s: Sfs, n: nat, j: nat, m: nat, k: nat)
    requires DataDistinct(s) && n in s.inodes && m in s.inodes && j < s.inodes[n].nblks && k < s.inodes[m].nblks
    requires BlockAt(s, n, j) == BlockAt(s, m, k)
    ensures n == m && j == k
  {
    var own :| DataOwners(s, own);
    assert own[BlockAt(s, n, j)] == (n, j) && own[BlockAt(s, m, k)] == (m, k);
  }

  /** Superblock, root, free map, inodes, indirect tables, file data and entries are pairwise distinct
      blocks, all of them below the number of blocks of the image. */
  lemma PlacesAreDistinct(s: Sfs, u: Use, v: Use)
    requires Inv(s) && InUse(s, u) && InUse(s, v)
    ensures Place(s, u) < s.nextIno <= s.ninos
    ensures Place(s, u) == Place(s, v) <==> u == v
  {
    hide Data, InodeChains, BlockChains, TablesDistinct, DataDistinct, Table, BlockAt;
    PlaceKind(s, u);
    PlaceKind(s, v);
    if u.TableOf? && v.TableOf? && Place(s, u) == Place(s, v) {
      SameTable(s, u.n, u.slot, v.n, v.slot);
    }
    if u.BlockOf? && v.BlockOf? && Place(s, u) == Place(s, v) {
      SameBlock(s, u.n, u.k, v.n, v.k);
    }
  }
}
