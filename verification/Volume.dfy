/** What a volume (allocation table plus disk) stands for: a tree of folders and files, and
    which cluster belongs to which path. */
module Volumes {
  import opened Codec
  import opened Paths

  const EMPTY_ENTRY: uint32 := 0
  const END_OF_FILE: uint32 := 0x0FFF_FFFF
  const CLUSTER_0_VALUE: uint32 := 0x0FFF_FFF0
  const CLUSTER_1_VALUE: uint32 := 0x0FFF_FFFF
  const FAT_CLUSTER: uint32 := 1
  const ROOT_CLUSTER: uint32 := 2

  const DOT_DOT: Name := [46, 46, 0, 0, 0, 0, 0, 0]
  const NO_NAME: Name := [0, 0, 0, 0, 0, 0, 0, 0]
  const EMPTY_SLOT: DirEntry := DirEntry(NO_NAME, NO_EXT, false, false, 0, 0)

  function ZeroCluster(): Cluster {
    Raw(seq(CLUSTER_SIZE, _ => 0))
  }

  /** The clusters a file of `size` bytes occupies. */
  function ClustersFor(size: nat): nat {
    size / 2048 + if size % 2048 != 0 then 1 else 0
  }

  function KeyOf(e: DirEntry): Key {
    Key(e.name, e.ext)
  }

  /** An allocation table and what each cluster of the disk holds. */
  datatype Vol = Vol(fat: seq<uint32>, disk: seq<Cluster>)
  type Volume = v: Vol | |v.fat| == CLUSTER_MAP_SIZE && |v.disk| == CLUSTER_MAP_SIZE
    witness Vol(seq(CLUSTER_MAP_SIZE, _ => 0), seq(CLUSTER_MAP_SIZE, _ => Raw([])))

  /** A folder or a file: its slot in the parent's table and the clusters it owns. */
  datatype Node = Folder(slot: nat, cluster: uint32) | File(slot: nat, size: uint32, chain: seq<uint32>)
  {
    predicate Has(c: uint32) {
      match this
      case Folder(_, d) => c == d
      case File(_, _, chain) => c in chain
    }

    /** The clusters this node owns. */
    function Clusters(): (s: set<uint32>)
      ensures forall c: uint32 :: c in s <==> Has(c)
    {
      match this
      case Folder(_, d) => {d}
      case File(_, _, chain) => set c | c in chain
    }

    /** The directory entry that records this node under the key `k`. */
    function Entry(k: Key): DirEntry {
      match this
      case Folder(_, d) => DirEntry(k.name, k.ext, true, true, d, 0)
      case File(_, size, chain) =>
        DirEntry(k.name, k.ext, false, true, if chain == [] then 0 else chain[0], size)
    }
  }

  /** The nodes of the tree by path, and the path that owns each cluster in use. */
  datatype Layout = Layout(nodes: map<Path, Node>, owner: map<uint32, Path>)

  /** The tree a user sees. */
  datatype Content = Directory | Document(data: seq<byte>)
  type Tree = map<Path, Content>

  // ---- the invariant ------------------------------------------------------------------

  ghost predicate TreeShaped(nodes: map<Path, Node>) {
    && Root in nodes && nodes[Root] == Folder(0, ROOT_CLUSTER)
    && forall p, k :: Child(p, k) in nodes ==>
         p in nodes && nodes[p].Folder? && 2 <= nodes[Child(p, k)].slot < SLOTS
  }

  /** Every owned cluster has exactly one owner. */
  ghost predicate Owned(lay: Layout) {
    && (forall p, c: uint32 {:trigger lay.nodes[p].Has(c)} :: p in lay.nodes && lay.nodes[p].Has(c) ==>
          c in lay.owner && lay.owner[c] == p && (if p == Root then 2 else 3) <= c < CLUSTER_MAP_SIZE)
    && (forall c: uint32 :: c in lay.owner ==>
          lay.owner[c] in lay.nodes && lay.nodes[lay.owner[c]].Has(c))
  }

  ghost predicate Ascending(chain: seq<uint32>) {
    forall i, j :: 0 <= i < j < |chain| ==> chain[i] < chain[j]
  }

  /** `chain` is linked in the table, ends in the end-of-file mark, climbs, and holds data. */
  ghost predicate ChainOk(v: Volume, chain: seq<uint32>) {
    && Ascending(chain) && DataClusters(v.disk, chain)
    && (forall i, j :: 0 <= i && j == i + 1 < |chain| ==> v.fat[chain[i]] == chain[j])
    && (chain != [] ==> v.fat[chain[|chain| - 1]] == END_OF_FILE)
  }

  ghost predicate DataClusters(disk: seq<Cluster>, chain: seq<uint32>)
    requires |disk| == CLUSTER_MAP_SIZE
  {
    forall j :: 0 <= j < |chain| ==>
      3 <= chain[j] < CLUSTER_MAP_SIZE && disk[chain[j]].Raw? && |disk[chain[j]].bytes| == CLUSTER_SIZE
  }

  /** Slot `i` of the table of folder `p` is clear, or records a child of `p`. */
  ghost predicate SlotOk(nodes: map<Path, Node>, p: Path, e: DirEntry, i: nat) {
    if e.notEmpty then
      var q := Child(p, KeyOf(e));
      q in nodes && nodes[q].slot == i && e == nodes[q].Entry(KeyOf(e))
    else
      e == EMPTY_SLOT
  }

  /** Entry 1 of every table: the folder's parent. */
  function ParentEntry(parent: uint32): DirEntry {
    DirEntry(DOT_DOT, NO_EXT, true, true, parent, 0)
  }

  ghost predicate IsTable(c: Cluster) {
    c.Table? && |c.entries| == SLOTS
  }

  ghost predicate FolderOk(v: Volume, nodes: map<Path, Node>, p: Path, d: uint32) {
    && 2 <= d < CLUSTER_MAP_SIZE && v.fat[d] == END_OF_FILE && IsTable(v.disk[d])
    && var t := v.disk[d].entries;
    && t[0].subdirectory && t[0].notEmpty && t[0].cluster == d
    && (p == Root ==> t[1] == ParentEntry(ROOT_CLUSTER))
    && forall i: nat {:trigger SlotOk(nodes, p, t[i], i)} :: 2 <= i < SLOTS ==> SlotOk(nodes, p, t[i], i)
  }

  ghost predicate NodeOk(v: Volume, nodes: map<Path, Node>, p: Path)
    requires p in nodes
  {
    match nodes[p]
    case Folder(_, d) => FolderOk(v, nodes, p, d)
    case File(_, size, chain) => 0 < size && |chain| == ClustersFor(size) && ChainOk(v, chain)
  }

  /** The child `k` of `p` is recorded at its slot in the table of `p`, and a child folder
      points back at `p` in its entry 1. */
  ghost predicate Linked(v: Volume, nodes: map<Path, Node>, p: Path, k: Key)
    requires Child(p, k) in nodes && p in nodes && nodes[p].Folder?
  {
    var d, q := nodes[p].cluster, nodes[Child(p, k)];
    && d < CLUSTER_MAP_SIZE && IsTable(v.disk[d]) && q.slot < SLOTS
    && v.disk[d].entries[q.slot] == q.Entry(k)
    && (q.Folder? ==>
          q.cluster < CLUSTER_MAP_SIZE && IsTable(v.disk[q.cluster])
          && v.disk[q.cluster].entries[1] == ParentEntry(d))
  }

  /** Everything at `p` and below it is in order. */
  ghost predicate Intact(v: Volume, nodes: map<Path, Node>, p: Path)
    requires TreeShaped(nodes)
  {
    && (forall q {:trigger NodeOk(v, nodes, q)} :: q in nodes && Under(p, q) ==> NodeOk(v, nodes, q))
    && (forall q, k {:trigger Linked(v, nodes, q, k)} :: Child(q, k) in nodes && Under(p, q) ==> Linked(v, nodes, q, k))
  }

  /** The ownership partition: the whole tree is in order, and a cluster is free or owned. */
  ghost predicate Inv(v: Volume, lay: Layout) {
    && TreeShaped(lay.nodes) && Owned(lay)
    && (forall p {:trigger NodeOk(v, lay.nodes, p)} :: p in lay.nodes ==> NodeOk(v, lay.nodes, p))
    && (forall p, k {:trigger Linked(v, lay.nodes, p, k)} :: Child(p, k) in lay.nodes ==> Linked(v, lay.nodes, p, k))
    && (forall c: uint32 :: 3 <= c < CLUSTER_MAP_SIZE && v.fat[c] != EMPTY_ENTRY ==> c in lay.owner)
    && v.fat[0] == CLUSTER_0_VALUE && v.fat[1] == CLUSTER_1_VALUE
  }

  predicate IsFolder(lay: Layout, c: uint32) {
    c in lay.owner && lay.owner[c] in lay.nodes && lay.nodes[lay.owner[c]].Folder?
  }

  // ---- the abstract tree ---------------------------------------------------------------

  function BytesOf(c: Cluster): seq<byte> {
    if c.Raw? then c.bytes else []
  }

  function ChainBytes(disk: seq<Cluster>, chain: seq<uint32>): seq<byte> {
    if chain == [] then []
    else
      var c := chain[|chain| - 1];
      ChainBytes(disk, chain[..|chain| - 1]) + if c < |disk| then BytesOf(disk[c]) else []
  }

  function Truncated(data: seq<byte>, size: nat): seq<byte> {
    if size <= |data| then data[..size] else data
  }

  function ContentOf(disk: seq<Cluster>, n: Node): Content {
    match n
    case Folder(_, _) => Directory
    case File(_, size, chain) => Document(Truncated(ChainBytes(disk, chain), size))
  }

  ghost function TreeOf(v: Volume, lay: Layout): Tree {
    map p | p in lay.nodes :: ContentOf(v.disk, lay.nodes[p])
  }

  /** The tree without `p` and everything below it. */
  ghost function RemoveTree(t: Tree, p: Path): Tree {
    map q | q in t && !Under(p, q) :: t[q]
  }

  /** A file's bytes depend only on its own clusters. */
  lemma {:induction false} ChainBytesFrame(disk: seq<Cluster>, disk': seq<Cluster>, chain: seq<uint32>)
    requires |disk| == |disk'|
    requires forall c :: c in chain && c < |disk| ==> disk'[c] == disk[c]
    ensures ChainBytes(disk', chain) == ChainBytes(disk, chain)
  {
    if chain != [] {
      var rest := chain[..|chain| - 1];
      assert forall c :: c in rest ==> c in chain;
      ChainBytesFrame(disk, disk', rest);
      assert chain[|chain| - 1] in chain;
    }
  }

  // ---- consequences of the invariant ---------------------------------------------------

  lemma OneOwner(lay: Layout, p: Path, q: Path, c: uint32)
    requires Owned(lay) && p in lay.nodes && q in lay.nodes
    requires lay.nodes[p].Has(c) && lay.nodes[q].Has(c)
    ensures p == q
  {
  }

  lemma ChainTaken(v: Volume, chain: seq<uint32>, c: uint32)
    requires ChainOk(v, chain) && c in chain
    ensures 3 <= c < CLUSTER_MAP_SIZE && v.fat[c] != EMPTY_ENTRY
  {
    var i :| 0 <= i < |chain| && chain[i] == c;
    if i + 1 < |chain| {
      assert v.fat[chain[i]] == chain[i + 1];
    }
  }

  /** A cluster of the data area is owned exactly when the table does not call it empty. */
  lemma FreeIsUnowned(v: Volume, lay: Layout, c: uint32)
    requires Inv(v, lay) && 3 <= c < CLUSTER_MAP_SIZE
    ensures c in lay.owner <==> v.fat[c] != EMPTY_ENTRY
  {
    if c in lay.owner {
      var p := lay.owner[c];
      assert NodeOk(v, lay.nodes, p);
      if lay.nodes[p].File? {
        ChainTaken(v, lay.nodes[p].chain, c);
      }
    }
  }

  /** A used slot is a child, and a child has its slot. */
  lemma SlotIsChild(v: Volume, lay: Layout, p: Path, i: nat)
    requires Inv(v, lay) && p in lay.nodes && lay.nodes[p].Folder? && 2 <= i < SLOTS
    ensures lay.nodes[p].cluster < CLUSTER_MAP_SIZE && IsTable(v.disk[lay.nodes[p].cluster])
    ensures var e := v.disk[lay.nodes[p].cluster].entries[i];
      if e.notEmpty then
        var q := Child(p, KeyOf(e));
        q in lay.nodes && lay.nodes[q].slot == i && e == lay.nodes[q].Entry(KeyOf(e))
      else
        e == EMPTY_SLOT
  {
    assert NodeOk(v, lay.nodes, p);
    assert SlotOk(lay.nodes, p, v.disk[lay.nodes[p].cluster].entries[i], i);
  }

  lemma ChildHasSlot(v: Volume, lay: Layout, p: Path, k: Key)
    requires Inv(v, lay) && Child(p, k) in lay.nodes
    ensures p in lay.nodes && lay.nodes[p].Folder?
    ensures lay.nodes[p].cluster < CLUSTER_MAP_SIZE && IsTable(v.disk[lay.nodes[p].cluster])
    ensures var n := lay.nodes[Child(p, k)];
      2 <= n.slot < SLOTS && v.disk[lay.nodes[p].cluster].entries[n.slot] == n.Entry(k)
  {
    assert Linked(v, lay.nodes, p, k);
  }
}
