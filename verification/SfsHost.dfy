/** The host directory that mksfs packs, and the tree that an image stands for. */
module SfsHost {
  import opened Bytes

  /** A host object as lstat and readdir show it. The contents of regular files are kept apart,
      by host inode number, so that hard links to one file share them. */
  datatype Host =
    | File(hostIno: nat)
    | Link(hostIno: nat, target: seq<byte>)
    | Dir(hostIno: nat, entries: seq<Entry>)
    | Special

  datatype Entry = Entry(name: seq<byte>, node: Host)

  /** For each regular file, the results of the successive read calls up to end of file. */
  type Files = map<nat, seq<seq<byte>>>

  const DOT: byte := 46

  predicate Hidden(e: Entry) {
    e.name != [] && e.name[0] == DOT
  }

  predicate Packed(e: Entry) {
    !Hidden(e) && !e.node.Special?
  }

  // ---------- what the host guarantees ----------

  /** File names are C strings, and a host number stands for one kind of object. */
  ghost predicate HostOk(t: Host, files: Files)
    decreases t
  {
    match t
    case File(h) => h in files
    case Link(h, _) => h !in files
    case Dir(h, es) => h !in files && EntriesOk(es, files)
    case Special => true
  }

  ghost predicate EntriesOk(es: seq<Entry>, files: Files)
    decreases es
  {
    forall i | 0 <= i < |es| :: 0 !in es[i].name && HostOk(es[i].node, files)
  }

  /** read() returns between 1 and 4096 bytes before end of file; inode number 0 is not used. */
  ghost predicate FilesOk(files: Files) {
    && 0 !in files
    && forall h, i | h in files && 0 <= i < |files[h]| :: 0 < |files[h][i]| <= BLKSIZE
  }

  // ---------- the tree of an image ----------

  datatype Tree =
    | TFile(ino: nat, content: seq<byte>)
    | TLink(target: seq<byte>)
    | TDir(entries: seq<TEntry>)

  datatype TEntry = TEntry(name: seq<byte>, tree: Tree)

  /** A directory entry keeps the first 252 bytes of a name. */
  const NAME_BYTES: nat := 252

  function Truncated(name: seq<byte>): seq<byte> {
    if |name| <= NAME_BYTES then name else name[..NAME_BYTES]
  }

  function Flatten(chunks: seq<seq<byte>>): seq<byte> {
    if chunks == [] then [] else Flatten(chunks[..|chunks| - 1]) + chunks[|chunks| - 1]
  }

  /** The tree that the image of t must stand for, when inos gives the image inode of each regular file. */
  function Image(t: Host, files: Files, inos: map<nat, nat>): Tree
    decreases t
  {
    match t
    case File(h) => TFile(if h in inos then inos[h] else 0, if h in files then Flatten(files[h]) else [])
    case Link(_, target) => TLink(target)
    case Dir(_, es) => TDir(ImageEntries(es, files, inos))
    case Special => TFile(0, [])
  }

  function ImageEntries(es: seq<Entry>, files: Files, inos: map<nat, nat>): seq<TEntry>
    decreases es
  {
    if es == [] then [] else
      var e := es[|es| - 1];
      var front := ImageEntries(es[..|es| - 1], files, inos);
      if Packed(e) then front + [TEntry(Truncated(e.name), Image(e.node, files, inos))] else front
  }

  function Subdirs(es: seq<Entry>): nat {
    if es == [] then 0 else
      var e := es[|es| - 1];
      Subdirs(es[..|es| - 1]) + if Packed(e) && e.node.Dir? then 1 else 0
  }

  function PackedCount(es: seq<Entry>): nat {
    if es == [] then 0 else
      PackedCount(es[..|es| - 1]) + if Packed(es[|es| - 1]) then 1 else 0
  }
}
