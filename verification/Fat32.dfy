/** The file system driver: the allocation table and the directory buffer in memory, the disk
    behind them, and the operations that keep both in step with the tree they stand for. */
module Fat32 {
  import opened Codec
  import opened Paths
  import opened Volumes
  import opened Insertion
  import opened Removal
  import opened FreeSpace
  import opened Allocation
  import opened Durability
  import opened WriteOutcome
  import opened Erasure
  import opened Occupancy
  import opened Copying
  import opened Options
  import opened SlotTrees
  import opened FolderCopy
  import opened CopySteps
  import opened BlockDisk

  const BOOT_SECTOR: nat := 0

  /** The 80 leading characters of the signature; zeros follow, and "Ok" at the end. */
  const SIGNATURE_TEXT: string :=
    "Course          Designed by     Lab Sister ITB  Made with <3    -----------2024\n"

  function Ascii(s: string): seq<byte> {
    seq(|s|, i requires 0 <= i < |s| => if s[i] < 128 as char then s[i] as int else 0)
  }

  function FsSignature(): (sig: seq<byte>)
    ensures |sig| == BLOCK_SIZE
  {
    Ascii(SIGNATURE_TEXT) + seq(BLOCK_SIZE - 2 - |SIGNATURE_TEXT|, _ => 0) + Ascii("Ok")
  }

  /** The boot sector carries the signature. */
  ghost predicate HasSignature(view: seq<Cluster>) {
    0 < |view| && view[0].Fits() && view[0].Encode()[..BLOCK_SIZE] == FsSignature()
  }

  /** A disk that was formatted and kept consistent: cluster 1 holds a table under which the
      disk is a valid volume. */
  ghost predicate HoldsVolume(view: seq<Cluster>) {
    && |view| == CLUSTER_MAP_SIZE && view[FAT_CLUSTER].Fat? && view[FAT_CLUSTER].Fits()
    && exists lay :: Inv(Vol(view[FAT_CLUSTER].clusterMap, view), lay)
  }

  ghost function StoredTree(view: seq<Cluster>): Tree
    requires HoldsVolume(view)
  {
    var v := Vol(view[FAT_CLUSTER].clusterMap, view);
    var lay :| Inv(v, lay);
    TreeOf(v, lay)
  }

  /** Entries 0 and 1 of a table: the folder itself and its parent. Entry 0's cluster is the
      caller's to set, and only three bytes of the name of entry 1 are written. */
  method InitDirectoryTable(table: array<DirEntry>, name: Name, parentDirCluster: uint32)
    requires table.Length == SLOTS
    modifies table
    ensures table[0] == old(table[0]).(name := name, subdirectory := true, notEmpty := true)
    ensures table[1] == old(table[1]).(name := DOT_DOT[..3] + old(table[1].name)[3..], cluster := parentDirCluster,
                                       subdirectory := true, notEmpty := true)
    ensures forall i :: 2 <= i < SLOTS ==> table[i] == EMPTY_SLOT
  {
    table[0] := table[0].(name := name);
    table[1] := table[1].(name := DOT_DOT[..3] + table[1].name[3..]);
    table[1] := table[1].(cluster := parentDirCluster, subdirectory := true, notEmpty := true);
    table[0] := table[0].(subdirectory := true, notEmpty := true);
    for i := 2 to SLOTS
      invariant table[0] == old(table[0]).(name := name, subdirectory := true, notEmpty := true)
      invariant table[1] == old(table[1]).(name := DOT_DOT[..3] + old(table[1].name)[3..], cluster := parentDirCluster,
                                           subdirectory := true, notEmpty := true)
      invariant forall k :: 2 <= k < i ==> table[k] == EMPTY_SLOT
    {
      table[i] := EMPTY_SLOT;
    }
  }

  predicate Matches(e: DirEntry, k: Key) {
    e.notEmpty && KeyOf(e) == k
  }

  /** A table has a matching entry exactly when the folder has that child. */
  lemma MatchIsChild(v: Volume, lay: Layout, p: Path, k: Key)
    requires Inv(v, lay) && p in lay.nodes && lay.nodes[p].Folder?
    ensures lay.nodes[p].cluster < CLUSTER_MAP_SIZE && IsTable(v.disk[lay.nodes[p].cluster])
    ensures (exists i :: 2 <= i < SLOTS && Matches(v.disk[lay.nodes[p].cluster].entries[i], k))
        <==> Child(p, k) in lay.nodes
  {
    assert NodeOk(v, lay.nodes, p);
    var t := v.disk[lay.nodes[p].cluster].entries;
    if Child(p, k) in lay.nodes {
      ChildHasSlot(v, lay, p, k);
      assert Matches(t[lay.nodes[Child(p, k)].slot], k);
    }
    if i :| 2 <= i < SLOTS && Matches(t[i], k) {
      SlotIsChild(v, lay, p, i);
    }
  }

  /** Entry 1 of a folder's table points at its parent's cluster. */
  lemma ParentPointer(v: Volume, lay: Layout, p: Path)
    requires Inv(v, lay) && p in lay.nodes && lay.nodes[p].Folder?
    ensures lay.nodes[p].cluster < CLUSTER_MAP_SIZE && IsTable(v.disk[lay.nodes[p].cluster])
    ensures var r := if p.Root? then Root else p.parent;
      && r in lay.nodes && lay.nodes[r].Folder?
      && v.disk[lay.nodes[p].cluster].entries[1] == ParentEntry(lay.nodes[r].cluster)
      && IsFolder(lay, lay.nodes[r].cluster) && lay.owner[lay.nodes[r].cluster] == r
  {
    assert NodeOk(v, lay.nodes, p);
    if p.Child? {
      assert Child(p.parent, p.key) in lay.nodes;
      assert Linked(v, lay.nodes, p.parent, p.key);
      assert lay.nodes[p.parent].Has(lay.nodes[p.parent].cluster);
    } else {
      assert lay.nodes[Root].Has(ROOT_CLUSTER);
    }
  }

  /** Does folder `p` have a child with this name, whatever its kind and extension? */
  ghost predicate HasChildNamed(t: Tree, p: Path, name: Name) {
    exists ext: Ext :: Child(p, Key(name, ext)) in t
  }

  lemma NamedSlot(v: Volume, lay: Layout, p: Path, name: Name)
    requires Inv(v, lay) && p in lay.nodes && lay.nodes[p].Folder?
    ensures lay.nodes[p].cluster < CLUSTER_MAP_SIZE && IsTable(v.disk[lay.nodes[p].cluster])
    ensures var t := v.disk[lay.nodes[p].cluster].entries;
      HasChildNamed(TreeOf(v, lay), p, name) <==> exists i :: 2 <= i < SLOTS && EntryNamed(t[i], name)
  {
    assert NodeOk(v, lay.nodes, p);
    var t := v.disk[lay.nodes[p].cluster].entries;
    if HasChildNamed(TreeOf(v, lay), p, name) {
      var ext: Ext :| Child(p, Key(name, ext)) in TreeOf(v, lay);
      ChildHasSlot(v, lay, p, Key(name, ext));
      assert EntryNamed(t[lay.nodes[Child(p, Key(name, ext))].slot], name);
    }
    if i :| 2 <= i < SLOTS && EntryNamed(t[i], name) {
      SlotIsChild(v, lay, p, i);
      assert Child(p, Key(name, t[i].ext)) in TreeOf(v, lay);
    }
  }

  predicate EntryNamed(e: DirEntry, name: Name) {
    e.notEmpty && e.name == name
  }

  /** The folder that a name opens, seen from `p`: the parent for "..", else the child folder
      with the name in the lowest slot. */
  ghost predicate Opens(o: SlotTree, p: Path, name: Name, q: Path) {
    if name == DOT_DOT then q == (if p.Root? then Root else p.parent)
    else FolderNamed(o, p, name) == Some(q)
  }

  /** The table lists exactly the children of `q`, the folders as folders and the files with their
      sizes. */
  ghost predicate Lists(t: seq<DirEntry>, tree: Tree, q: Path)
    requires |t| == SLOTS
  {
    && (forall k :: Child(q, k) in tree <==> exists i :: 2 <= i < SLOTS && Matches(t[i], k))
    && (forall i :: 2 <= i < SLOTS && t[i].notEmpty ==> Described(t[i], tree, q))
  }

  ghost predicate Described(e: DirEntry, tree: Tree, q: Path) {
    var r := Child(q, KeyOf(e));
    r in tree && if e.subdirectory then tree[r] == Directory else tree[r].Document? && e.filesize == |tree[r].data|
  }

  lemma EntryDescribed(v: Volume, lay: Layout, p: Path, i: nat)
    requires Inv(v, lay) && p in lay.nodes && lay.nodes[p].Folder? && 2 <= i < SLOTS
    ensures lay.nodes[p].cluster < CLUSTER_MAP_SIZE && IsTable(v.disk[lay.nodes[p].cluster])
    ensures var e := v.disk[lay.nodes[p].cluster].entries[i]; e.notEmpty ==> Described(e, TreeOf(v, lay), p)
  {
    EntryKind(v, lay, p, i);
    var e := v.disk[lay.nodes[p].cluster].entries[i];
    if e.notEmpty && !e.subdirectory {
      FileBytes(v, lay, Child(p, KeyOf(e)));
    }
  }

  /** Does folder `p` have a child folder with this name, whatever its extension? */
  ghost predicate HasFolderNamed(t: Tree, p: Path, name: Name) {
    exists ext: Ext :: Child(p, Key(name, ext)) in t && t[Child(p, Key(name, ext))] == Directory
  }

  lemma FolderNamedSlot(v: Volume, lay: Layout, p: Path, name: Name)
    requires Inv(v, lay) && p in lay.nodes && lay.nodes[p].Folder?
    ensures lay.nodes[p].cluster < CLUSTER_MAP_SIZE && IsTable(v.disk[lay.nodes[p].cluster])
    ensures var t := v.disk[lay.nodes[p].cluster].entries;
      HasFolderNamed(TreeOf(v, lay), p, name) <==>
      exists i :: 2 <= i < SLOTS && FolderEntry(t[i], name)
  {
    assert NodeOk(v, lay.nodes, p);
    var t := v.disk[lay.nodes[p].cluster].entries;
    if HasFolderNamed(TreeOf(v, lay), p, name) {
      var ext: Ext :| Child(p, Key(name, ext)) in TreeOf(v, lay) && TreeOf(v, lay)[Child(p, Key(name, ext))] == Directory;
      ChildHasSlot(v, lay, p, Key(name, ext));
      assert FolderEntry(t[lay.nodes[Child(p, Key(name, ext))].slot], name);
    }
    if i :| 2 <= i < SLOTS && FolderEntry(t[i], name) {
      EntryKind(v, lay, p, i);
      assert Child(p, Key(name, t[i].ext)) in TreeOf(v, lay);
    }
  }

  predicate FolderEntry(e: DirEntry, name: Name) {
    e.notEmpty && e.name == name && e.subdirectory
  }

  predicate FileEntry(e: DirEntry, k: Key) {
    e.notEmpty && KeyOf(e) == k && !e.subdirectory
  }

  ghost predicate IsDocument(t: Tree, q: Path) {
    q in t && t[q].Document?
  }

  /** A table has a matching file entry exactly when the folder has that file. */
  lemma FileSlot(v: Volume, lay: Layout, p: Path, k: Key)
    requires Inv(v, lay) && p in lay.nodes && lay.nodes[p].Folder?
    ensures lay.nodes[p].cluster < CLUSTER_MAP_SIZE && IsTable(v.disk[lay.nodes[p].cluster])
    ensures var t := v.disk[lay.nodes[p].cluster].entries;
      IsDocument(TreeOf(v, lay), Child(p, k)) <==> exists i :: 2 <= i < SLOTS && FileEntry(t[i], k)
  {
    assert NodeOk(v, lay.nodes, p);
    var t := v.disk[lay.nodes[p].cluster].entries;
    if IsDocument(TreeOf(v, lay), Child(p, k)) {
      ChildHasSlot(v, lay, p, k);
      assert FileEntry(t[lay.nodes[Child(p, k)].slot], k);
    }
    if i :| 2 <= i < SLOTS && FileEntry(t[i], k) {
      EntryKind(v, lay, p, i);
    }
  }

  /** A file, or a folder with nothing in it. */
  ghost predicate Removable(t: Tree, q: Path) {
    q in t && forall k :: Child(q, k) !in t
  }

  lemma EmptyTableNoChildren(v: Volume, lay: Layout, q: Path)
    requires Inv(v, lay) && q in lay.nodes && lay.nodes[q].Folder?
    ensures lay.nodes[q].cluster < CLUSTER_MAP_SIZE && IsTable(v.disk[lay.nodes[q].cluster])
    ensures Removable(TreeOf(v, lay), q) <==>
            !exists j :: 2 <= j < SLOTS && v.disk[lay.nodes[q].cluster].entries[j].notEmpty
  {
    assert NodeOk(v, lay.nodes, q);
    var t := v.disk[lay.nodes[q].cluster].entries;
    if j :| 2 <= j < SLOTS && t[j].notEmpty {
      SlotIsChild(v, lay, q, j);
    }
    if k :| Child(q, k) in TreeOf(v, lay) {
      ChildHasSlot(v, lay, q, k);
      assert t[lay.nodes[Child(q, k)].slot].notEmpty;
    }
  }

  lemma NoChildOfFile(v: Volume, lay: Layout, q: Path)
    requires Inv(v, lay) && q in lay.nodes && lay.nodes[q].File?
    ensures Removable(TreeOf(v, lay), q)
  {
  }

  lemma PruneFileKeeps(v: Volume, lay: Layout, q: Path)
    requires Inv(v, lay) && q in lay.nodes && lay.nodes[q].File?
    ensures KeepsFolders(lay, Pruned(lay, q))
  {
    forall c | IsFolder(lay, c)
      ensures IsFolder(Pruned(lay, q), c)
    {
      if Under(q, lay.owner[c]) {
        FileHasNoChildren(lay, q, lay.owner[c]);
      }
    }
  }

  /** Deleting a file leaves its parent in place, with a clear slot, and putting another file
      under its name is replacing it. */
  lemma ReplacedLeavesRoom(v: Volume, v': Volume, lay: Layout, req: Request, next: Content)
    requires Inv(v, lay) && req.parent < CLUSTER_MAP_SIZE && IsFolder(lay, req.parent)
    requires IsDocument(TreeOf(v, lay), Child(lay.owner[req.parent], req.FullName()))
    requires var q := Child(lay.owner[req.parent], req.FullName());
      Inv(v', Pruned(lay, q)) && TreeOf(v', Pruned(lay, q)) == RemoveTree(TreeOf(v, lay), q)
    ensures var q := Child(lay.owner[req.parent], req.FullName());
      && IsFolder(Pruned(lay, q), req.parent) && Pruned(lay, q).owner[req.parent] == lay.owner[req.parent]
      && v'.fat[req.parent] == END_OF_FILE && q !in TreeOf(v', Pruned(lay, q))
      && !Crowded(TreeOf(v', Pruned(lay, q)), lay.owner[req.parent])
      && TreeOf(v', Pruned(lay, q))[q := next] == TreeOf(v, lay)[q := next]
  {
    var p := lay.owner[req.parent];
    var q := Child(p, req.FullName());
    ParentFacts(v, lay, req.parent);
    UnderDepth(p, q);
    if Under(q, p) {
      UnderDepth(q, p);
    }
    ParentFacts(v', Pruned(lay, q), req.parent);
    RemovalMakesRoom(v, lay, q);
    forall r | r in lay.nodes && Under(q, r)
      ensures r == q
    {
      FileHasNoChildren(lay, q, r);
    }
  }

  /** The first folder entry with a name, from slot `j` on, is the folder that a lookup finds. */
  lemma {:induction false} FoundInTable(v: Volume, lay: Layout, p: Path, name: Name, j: nat, i: nat)
    requires Inv(v, lay) && p in lay.nodes && lay.nodes[p].Folder? && 2 <= j <= i <= SLOTS
    requires lay.nodes[p].cluster < CLUSTER_MAP_SIZE && IsTable(v.disk[lay.nodes[p].cluster])
    requires forall x :: j <= x < i ==> !FolderEntry(v.disk[lay.nodes[p].cluster].entries[x], name)
    requires i < SLOTS ==> FolderEntry(v.disk[lay.nodes[p].cluster].entries[i], name)
    ensures FolderFrom(SlotTreeOf(v, lay), p, name, j)
         == if i == SLOTS then None else Some(Child(p, KeyOf(v.disk[lay.nodes[p].cluster].entries[i])))
    decreases SLOTS - j
  {
    hide Inv, FolderFrom;
    if j < SLOTS {
      SlotKey(v, lay, p, j);
      EntryKind(v, lay, p, j);
      FolderFromStep(SlotTreeOf(v, lay), p, name, j);
      if j < i {
        FoundInTable(v, lay, p, name, j + 1, i);
      }
    } else {
      FolderFromEnd(SlotTreeOf(v, lay), p, name);
    }
  }

  /** A used slot of a folder that records a folder. */
  lemma SubfolderEntry(v: Volume, lay: Layout, src: uint32, i: nat)
    requires Inv(v, lay) && IsFolder(lay, src) && src < CLUSTER_MAP_SIZE && 2 <= i < SLOTS
    requires IsTable(v.disk[src]) ==> v.disk[src].entries[i].notEmpty && v.disk[src].entries[i].subdirectory
    ensures IsTable(v.disk[src])
    ensures var e := v.disk[src].entries[i];
      && IsFolder(lay, e.cluster) && lay.owner[e.cluster] == Child(lay.owner[src], KeyOf(e))
      && e.cluster < CLUSTER_MAP_SIZE && v.fat[e.cluster] == END_OF_FILE
      && IsDir(SlotTreeOf(v, lay), Child(lay.owner[src], KeyOf(e)))
  {
    ParentFacts(v, lay, src);
    EntryKind(v, lay, lay.owner[src], i);
    ParentFacts(v, lay, v.disk[src].entries[i].cluster);
  }

  /** The table of the folder at `q` begins with the folder itself, by its name. */
  ghost predicate NamesItself(v: Volume, lay: Layout, q: Path) {
    && q.Child? && q in lay.nodes && lay.nodes[q].Folder? && lay.nodes[q].cluster < CLUSTER_MAP_SIZE
    && var c := lay.nodes[q].cluster;
    && IsTable(v.disk[c]) && v.disk[c].entries[0] == DirEntry(q.key.name, NO_EXT, true, true, c, 0)
  }

  class Driver {
    const clusterMap: array<uint32>
    const dirTableBuf: array<DirEntry>
    const disk: Disk
    ghost var layout: Layout

    ghost predicate Wired()
      reads disk, disk.image
    {
      && clusterMap.Length == CLUSTER_MAP_SIZE && dirTableBuf.Length == SLOTS && disk.Valid()
      && clusterMap as object != disk.image && dirTableBuf as object != disk.image
      && clusterMap as object != dirTableBuf
    }

    /** The table in memory and the disk. */
    ghost function State(): Volume
      requires Wired()
      reads clusterMap, disk, disk.image
    {
      Vol(clusterMap[..], disk.view)
    }

    /** What the disk holds of the table and the signature is current. */
    ghost predicate Synced()
      requires Wired()
      reads clusterMap, disk, disk.image
    {
      disk.view[FAT_CLUSTER] == Fat(clusterMap[..]) && HasSignature(disk.view)
    }

    ghost predicate Valid()
      reads this, clusterMap, disk, disk.image
    {
      Wired() && Inv(State(), layout) && Synced()
    }

    ghost function Tree(): Tree
      requires Wired()
      reads this, clusterMap, disk, disk.image
    {
      TreeOf(State(), layout)
    }

    /** The tree with the slot of every entry. */
    ghost function Order(): SlotTree
      requires Wired()
      reads this, clusterMap, disk, disk.image
    {
      SlotTreeOf(State(), layout)
    }

    /** The caller names a folder, or a cluster the table does not mark as an end. */
    ghost predicate ParentOk(c: uint32)
      reads this, clusterMap
    {
      clusterMap.Length == CLUSTER_MAP_SIZE && c < CLUSTER_MAP_SIZE
      && (clusterMap[c] == END_OF_FILE ==> IsFolder(layout, c))
    }

    /** Brings the driver up on a disk: formats a disk without the signature, and otherwise
        loads the table it holds. `rootName` is the eight bytes copied from the root's name. */
    constructor Mount(d: Disk, rootName: Name)
      requires d.Valid() && (HasSignature(d.view) ==> HoldsVolume(d.view))
      modifies d`view, d.image
      ensures Valid() && disk == d && fresh(clusterMap) && fresh(dirTableBuf)
      ensures !old(HasSignature(d.view)) ==> Tree() == map[Root := Directory]
      ensures old(HasSignature(d.view)) ==> d.view == old(d.view) && Tree() == StoredTree(d.view)
    {
      clusterMap := new uint32[CLUSTER_MAP_SIZE](_ => 0);
      dirTableBuf := new DirEntry[SLOTS](_ => EMPTY_SLOT);
      disk := d;
      layout := Layout(map[], map[]);
      new;
      var blank := IsEmptyStorage();
      if blank {
        CreateFat32(rootName);
      } else {
        disk.ReadFat(clusterMap, FAT_CLUSTER);
        ghost var v := Vol(disk.view[FAT_CLUSTER].clusterMap, disk.view);
        ghost var lay :| Inv(v, lay);
        layout := lay;
        AllFit(disk.image[..], disk.view);
        SameTree(v, lay);
        assert State() == v;
      }
    }

    static lemma SameTree(v: Volume, lay: Layout)
      requires Inv(v, lay) && HoldsVolume(v.disk) && v.fat == v.disk[FAT_CLUSTER].clusterMap
      requires forall c :: 0 <= c < CLUSTER_MAP_SIZE ==> v.disk[c].Fits()
      ensures TreeOf(v, lay) == StoredTree(v.disk)
    {
      forall lay' | Inv(v, lay')
        ensures TreeOf(v, lay') == TreeOf(v, lay)
      {
        BytesDetermineTree(v, v, lay, lay');
      }
    }

    method IsEmptyStorage() returns (empty: bool)
      requires Wired()
      ensures empty == !HasSignature(disk.view)
    {
      var b := new byte[BLOCK_SIZE];
      disk.ReadBlocks(b, 0, BOOT_SECTOR, 1);
      assert HoldsAt(disk.image[..], disk.view, 0);
      assert b[..] == ClusterBytes(disk.image[..], 0)[..BLOCK_SIZE];
      var signature := new byte[BLOCK_SIZE];
      Fill(signature, FsSignature());
      CompareOrders(b[..BLOCK_SIZE], signature[..BLOCK_SIZE]);
      assert b[..BLOCK_SIZE] == b[..] && signature[..BLOCK_SIZE] == signature[..];
      var difference := Memcmp(b, signature, BLOCK_SIZE);
      empty := difference != 0;
    }

    /** Writes the boot sector, an empty table and an empty root. */
    method CreateFat32(rootName: Name)
      requires Wired() && forall i :: 0 <= i < SLOTS ==> dirTableBuf[i] == EMPTY_SLOT
      modifies this`layout, clusterMap, dirTableBuf, disk`view, disk.image
      ensures Valid() && Tree() == map[Root := Directory]
      ensures IsTable(disk.view[2]) && disk.view[2].entries[0] == DirEntry(rootName, NO_EXT, true, true, 2, 0)
    {
      WriteSignature();
      ResetClusterMap();
      WriteRoot(rootName);
      layout := Layout(map[Root := Folder(0, ROOT_CLUSTER)], map[ROOT_CLUSTER := Root]);
      Formatted(State(), layout);
    }

    method WriteRoot(rootName: Name)
      requires Wired() && HasSignature(disk.view)
      requires forall i :: 0 <= i < SLOTS ==> dirTableBuf[i] == EMPTY_SLOT
      modifies dirTableBuf, disk`view, disk.image
      ensures Wired() && Synced() && clusterMap[..] == old(clusterMap[..])
      ensures IsTable(disk.view[ROOT_CLUSTER])
           && FreshTable(disk.view[ROOT_CLUSTER].entries, ROOT_CLUSTER, ROOT_CLUSTER)
      ensures disk.view[ROOT_CLUSTER].entries[0] == SelfEntry(rootName, ROOT_CLUSTER)
    {
      PrepareRoot(rootName);
      Flush(ROOT_CLUSTER);
    }

    method PrepareRoot(rootName: Name)
      requires dirTableBuf.Length == SLOTS && forall i :: 0 <= i < SLOTS ==> dirTableBuf[i] == EMPTY_SLOT
      modifies dirTableBuf
      ensures FreshTable(dirTableBuf[..], ROOT_CLUSTER, ROOT_CLUSTER)
      ensures dirTableBuf[0] == SelfEntry(rootName, ROOT_CLUSTER)
    {
      InitDirectoryTable(dirTableBuf, rootName, ROOT_CLUSTER);
      dirTableBuf[0] := dirTableBuf[0].(cluster := ROOT_CLUSTER);
    }

    method ResetClusterMap()
      requires Wired()
      modifies clusterMap
      ensures clusterMap[0] == CLUSTER_0_VALUE && clusterMap[1] == CLUSTER_1_VALUE && clusterMap[2] == END_OF_FILE
      ensures forall c :: 3 <= c < CLUSTER_MAP_SIZE ==> clusterMap[c] == EMPTY_ENTRY
    {
      clusterMap[0] := CLUSTER_0_VALUE;
      clusterMap[1] := CLUSTER_1_VALUE;
      clusterMap[2] := END_OF_FILE;
      for i := 3 to CLUSTER_MAP_SIZE
        invariant clusterMap[0] == CLUSTER_0_VALUE && clusterMap[1] == CLUSTER_1_VALUE && clusterMap[2] == END_OF_FILE
        invariant forall c :: 3 <= c < i ==> clusterMap[c] == EMPTY_ENTRY
      {
        clusterMap[i] := EMPTY_ENTRY;
      }
    }

    static lemma Formatted(v: Volume, lay: Layout)
      requires v.fat[0] == CLUSTER_0_VALUE && v.fat[1] == CLUSTER_1_VALUE && v.fat[2] == END_OF_FILE
      requires forall c :: 3 <= c < CLUSTER_MAP_SIZE ==> v.fat[c] == EMPTY_ENTRY
      requires IsTable(v.disk[2]) && FreshTable(v.disk[2].entries, ROOT_CLUSTER, ROOT_CLUSTER)
      requires lay == Layout(map[Root := Folder(0, ROOT_CLUSTER)], map[ROOT_CLUSTER := Root])
      ensures Inv(v, lay) && TreeOf(v, lay) == map[Root := Directory]
    {
      var t := v.disk[2].entries;
      forall i: nat {:trigger SlotOk(lay.nodes, Root, t[i], i)} | 2 <= i < SLOTS
        ensures SlotOk(lay.nodes, Root, t[i], i)
      {
      }
      assert NodeOk(v, lay.nodes, Root);
    }

    method WriteSignature()
      requires Wired()
      modifies disk`view, disk.image
      ensures Wired() && HasSignature(disk.view)
      ensures forall c :: 1 <= c < CLUSTER_MAP_SIZE ==> disk.view[c] == old(disk.view)[c]
    {
      var sig := FsSignature();
      var b := new byte[BLOCK_SIZE](i requires 0 <= i < BLOCK_SIZE => sig[i]);
      assert b[..] == sig;
      ghost var before := disk.image[..];
      disk.WriteBlocks(b, 0, BOOT_SECTOR, 1);
      ghost var boot := Raw(sig + before[BLOCK_SIZE..CLUSTER_SIZE]);
      assert disk.image[..] == before[..0] + boot.Encode() + before[Span(1)..];
      HoldsAfterWrite(before, disk.view, disk.image[..], 0, boot);
      disk.view := disk.view[0 := boot];
    }

    /** The `idx`th cluster of the buffer goes to cluster `i`. */
    method WritePart(buf: array<byte>, needed: nat, idx: nat, i: uint32)
      requires Wired() && buf != disk.image && i < CLUSTER_MAP_SIZE
      requires Span(needed) <= buf.Length && idx < needed
      modifies disk`view, disk.image
      ensures Wired() && disk.view == old(disk.view)[i := Raw(Parts(buf[..], needed)[idx])]
    {
      PartAt(buf[..], needed, idx);
      disk.WriteClusters(buf, Span(idx), i, Raw(Parts(buf[..], needed)[idx]));
    }

    /** Links free cluster `i` after `curr`, or starts the chain with it, and fills it. */
    method TakeCluster(buf: array<byte>, needed: nat, first: nat, idx: nat, curr: uint32, i: uint32,
                       ghost v0: Volume, ghost chain: seq<uint32>)
      requires Wired() && first < SLOTS && buf != disk.image && buf as object != clusterMap
             && buf as object != dirTableBuf
      requires Span(needed) <= buf.Length && idx == |chain| < needed && curr == Last(chain)
      requires 3 <= i < CLUSTER_MAP_SIZE && forall j :: 0 <= j < |chain| ==> chain[j] < i
      requires Taking(v0, State(), chain, Parts(buf[..], needed))
      modifies clusterMap, dirTableBuf, disk`view, disk.image
      ensures Wired() && Taking(v0, State(), chain + [i], Parts(buf[..], needed))
      ensures dirTableBuf[..] == if chain == [] then StartAt(old(dirTableBuf[..]), first, i) else old(dirTableBuf[..])
    {
      ghost var v, b := State(), buf[..];
      if curr == 0 {
        dirTableBuf[first] := dirTableBuf[first].(subdirectory := false, cluster := i);
      } else {
        clusterMap[curr] := i;
      }
      assert clusterMap[..] == Linking(v.fat, chain, i);
      WritePart(buf, needed, idx, i);
      assert buf[..] == b;
      TakeOne(v0, v, State(), chain, Parts(b, needed), i);
    }

    /** One step of the scan. */
    method TakeIfFree(buf: array<byte>, needed: nat, first: nat, idx: nat, curr: uint32, i: uint32,
                      ghost v0: Volume, ghost table0: seq<DirEntry>, ghost chain: seq<uint32>)
      returns (idx': nat, curr': uint32, ghost chain': seq<uint32>)
      requires Wired() && first < SLOTS == |table0| && buf != disk.image && buf as object != clusterMap
             && buf as object != dirTableBuf
      requires Span(needed) <= buf.Length && idx == |chain| < needed && curr == Last(chain) && i < CLUSTER_MAP_SIZE
      requires Scanned(v0.fat, i, chain) && Taking(v0, State(), chain, Parts(buf[..], needed))
      requires dirTableBuf[..] == StartAt(table0, first, Head(chain))
      modifies clusterMap, dirTableBuf, disk`view, disk.image
      ensures Wired() && curr' == Last(chain') && idx' == |chain'| <= idx + 1
      ensures Scanned(v0.fat, i + 1, chain') && Taking(v0, State(), chain', Parts(buf[..], needed))
      ensures dirTableBuf[..] == StartAt(table0, first, Head(chain'))
    {
      idx', curr', chain' := idx, curr, chain;
      ScanStep(v0.fat, i, chain);
      TakeAhead(v0, State(), chain, Parts(buf[..], needed), i);
      if clusterMap[i] == EMPTY_ENTRY {
        TakeCluster(buf, needed, first, idx, curr, i, v0, chain);
        idx', curr', chain' := idx + 1, i, chain + [i];
        assert Head(chain') == if chain == [] then i else Head(chain);
      }
    }

    /** Takes the first free clusters, one by one, until `numOfCluster` are linked and filled
        from `buf`, or none is left; the end mark of the chain is still to be set. */
    method TakeClusters(buf: array<byte>, needed: nat, numOfCluster: nat, first: nat)
      returns (curr: uint32, ghost chain: seq<uint32>)
      requires Wired() && first < SLOTS
      requires buf != disk.image && buf as object != clusterMap && buf as object != dirTableBuf
      requires Span(needed) <= buf.Length && numOfCluster <= needed
      modifies clusterMap, dirTableBuf, disk`view, disk.image
      ensures Wired() && curr == Last(chain)
      ensures chain == Prefix(FreeList(old(clusterMap[..])), numOfCluster)
      ensures Taking(old(State()), State(), chain, Parts(buf[..], needed))
      ensures dirTableBuf[..] == StartAt(old(dirTableBuf[..]), first, Head(chain))
    {
      hide Parts, Taking, Scanned, Prefix;
      ghost var v0, table0, b := State(), dirTableBuf[..], buf[..];
      TakeNothing(v0, Parts(b, needed));
      chain := [];
      var idx: nat := 0;
      curr := 0;
      var i: uint32 := 3;
      while i < CLUSTER_MAP_SIZE && idx < numOfCluster
        invariant Wired() && buf[..] == b
        invariant 3 <= i <= CLUSTER_MAP_SIZE && idx == |chain| <= numOfCluster && curr == Last(chain)
        invariant Scanned(v0.fat, i, chain)
        invariant Taking(v0, State(), chain, Parts(b, needed))
        invariant dirTableBuf[..] == StartAt(table0, first, Head(chain))
      {
        idx, curr, chain := TakeIfFree(buf, needed, first, idx, curr, i, v0, table0, chain);
        i := i + 1;
      }
      ScanStop(v0.fat, i, chain);
      PrefixTaken(v0.fat, chain, numOfCluster);
    }

    static lemma PrefixTaken(fat: seq<uint32>, chain: seq<uint32>, want: nat)
      requires |fat| == CLUSTER_MAP_SIZE && |chain| <= want && |chain| <= FreeCount(fat) && chain == FreeList(fat)[..|chain|]
      requires |chain| < want ==> chain == FreeList(fat)
      ensures chain == Prefix(FreeList(fat), want)
    {
    }

    method AllocateChain(buf: array<byte>, needed: nat, numOfCluster: nat, first: nat)
      returns (ghost chain: seq<uint32>)
      requires Wired() && first < SLOTS
      requires buf != disk.image && buf as object != clusterMap && buf as object != dirTableBuf
      requires Span(needed) <= buf.Length && numOfCluster <= needed
      modifies clusterMap, dirTableBuf, disk`view, disk.image
      ensures Wired()
      ensures chain == Prefix(FreeList(old(clusterMap[..])), numOfCluster)
      ensures Chained(old(State()), State(), chain, Parts(buf[..], needed))
      ensures dirTableBuf[..] == StartAt(old(dirTableBuf[..]), first, Head(chain))
    {
      var curr;
      curr, chain := TakeClusters(buf, needed, numOfCluster, first);
      ghost var v := State();
      clusterMap[curr] := END_OF_FILE;
      TakeLast(old(State()), v, State(), chain, Parts(buf[..], needed));
    }

    // ---- write ----------------------------------------------------------------------------

    ghost predicate Separate(buf: array<byte>) {
      buf != disk.image && buf as object != clusterMap && buf as object != dirTableBuf
    }

    /** Looks for the requested name and extension, and for the first clear slot. */
    method ScanForWrite(k: Key) returns (found: bool, first: nat)
      requires dirTableBuf.Length == SLOTS
      ensures found <==> exists i :: 2 <= i < SLOTS && Matches(dirTableBuf[i], k)
      ensures !found ==> if first == 0 then TableFull(dirTableBuf[..]) else FirstClear(dirTableBuf[..], first)
    {
      first := 0;
      for i := 2 to SLOTS
        invariant forall j :: 2 <= j < i ==> !Matches(dirTableBuf[j], k)
        invariant if first == 0 then forall j :: 2 <= j < i ==> dirTableBuf[j].notEmpty
                  else first < i && FirstClear(dirTableBuf[..], first)
      {
        if !dirTableBuf[i].notEmpty {
          if first == 0 {
            first := i;
          }
          continue;
        }
        if KeyOf(dirTableBuf[i]) == k {
          return true, first;
        }
      }
      return false, first;
    }

    /** The folder branch: the first free cluster, if any, becomes an empty table. */
    method WriteFolder(request: Request, first: nat) returns (ghost cluster: uint32)
      requires Wired() && 2 <= first < SLOTS
      modifies clusterMap, dirTableBuf, disk`view, disk.image
      ensures Wired()
      ensures cluster == 0 ==> FreeCount(old(clusterMap[..])) == 0 && State() == old(State())
                               && dirTableBuf[..] == old(dirTableBuf[..])
      ensures cluster != 0 ==>
        && 3 <= cluster < CLUSTER_MAP_SIZE && old(clusterMap[cluster]) == EMPTY_ENTRY
            && FreeCount(old(clusterMap[..])) > 0 && cluster == FreeList(old(clusterMap[..]))[0]
        && clusterMap[..] == old(clusterMap[..])[cluster := END_OF_FILE]
        && dirTableBuf[..] == old(dirTableBuf[..])[first := old(dirTableBuf[first]).(subdirectory := true, cluster := cluster)]
        && disk.view[cluster].Table? && FreshTable(disk.view[cluster].entries, cluster, request.parent)
        && disk.view[cluster].entries[0] == SelfEntry(request.name, cluster)
        && disk.view == old(disk.view)[cluster := disk.view[cluster]]
    {
      cluster := 0;
      var i: uint32 := 3;
      while i < CLUSTER_MAP_SIZE
        invariant 3 <= i <= CLUSTER_MAP_SIZE && forall c :: 3 <= c < i ==> clusterMap[c] != EMPTY_ENTRY
      {
        if clusterMap[i] == EMPTY_ENTRY {
          FirstFree(clusterMap[..], i);
          dirTableBuf[first] := dirTableBuf[first].(subdirectory := true, cluster := i);
          WriteFreshTable(request, i);
          clusterMap[i] := END_OF_FILE;
          cluster := i;
          return;
        }
        i := i + 1;
      }
      NoneFree(clusterMap[..], 3);
    }

    method WriteFreshTable(request: Request, i: uint32)
      requires Wired() && i < CLUSTER_MAP_SIZE
      modifies disk`view, disk.image
      ensures Wired() && disk.view[i].Table? && FreshTable(disk.view[i].entries, i, request.parent)
      ensures disk.view[i].entries[0] == SelfEntry(request.name, i)
      ensures disk.view == old(disk.view)[i := disk.view[i]]
    {
      var dt := new DirEntry[SLOTS](_ => EMPTY_SLOT);
      InitDirectoryTable(dt, request.name, request.parent);
      dt[0] := dt[0].(cluster := i);
      assert FreshTable(dt[..], i, request.parent);
      disk.WriteTable(dt, i);
    }

    /** The parent's table and the allocation table go to the disk. */
    method Flush(parent: uint32)
      requires Wired() && 2 <= parent < CLUSTER_MAP_SIZE && HasSignature(disk.view)
      modifies disk`view, disk.image
      ensures Wired() && Synced()
      ensures disk.view == old(disk.view)[parent := Table(dirTableBuf[..])][FAT_CLUSTER := Fat(clusterMap[..])]
    {
      disk.WriteTable(dirTableBuf, parent);
      disk.WriteFat(clusterMap, FAT_CLUSTER);
    }

    /** The folder branch of a write, from the prepared entry to the flushed tables. */
    method StoreFolder(request: Request, first: nat)
      requires Wired() && Synced() && Writable(State(), layout, request, first) && request.bufferSize == 0
      requires dirTableBuf[..] == disk.view[request.parent].entries[first :=
                 PreparedEntry(request)]
      modifies this`layout, clusterMap, dirTableBuf, disk`view, disk.image
      ensures Wired() && Synced()
      ensures FreeCount(old(clusterMap[..])) >= 1 ==>
                Stored(old(State()), old(layout), State(), layout, request, [])
                && StoredFirst(old(State()), old(layout), layout, request)
                && NamesItself(State(), layout, Child(old(layout).owner[request.parent], request.FullName()))
      ensures FreeCount(old(clusterMap[..])) < 1 ==> Broken(State())
    {
      ghost var v := State();
      ParentFacts(v, layout, request.parent);
      ghost var c := WriteAndFlush(request, first);
      FolderOutcome(v, State(), layout, request, first, c);
      layout := LayoutWithFolder(layout, request, first, c);
    }

    /** A new folder's table, its link and its entry, all on the disk. */
    method WriteAndFlush(request: Request, first: nat) returns (ghost cluster: uint32)
      requires Wired() && HasSignature(disk.view) && 2 <= request.parent < CLUSTER_MAP_SIZE && 2 <= first < SLOTS
      requires clusterMap[request.parent] != EMPTY_ENTRY
      modifies clusterMap, dirTableBuf, disk`view, disk.image
      ensures Wired() && Synced()
      ensures FolderWritten(old(State()), State(), old(dirTableBuf[..]), request, first, cluster)
    {
      cluster := WriteFolder(request, first);
      assert cluster != request.parent;
      Flush(request.parent);
    }

    /** The file branch of a write, from the prepared entry to the flushed tables. */
    method StoreFile(request: Request, buf: array<byte>, first: nat)
      requires Wired() && Synced() && Writable(State(), layout, request, first) && request.bufferSize > 0
      requires Separate(buf) && Span(ClustersFor(request.bufferSize)) <= buf.Length
      requires dirTableBuf[..] == disk.view[request.parent].entries[first :=
                 PreparedEntry(request)]
      modifies this`layout, clusterMap, dirTableBuf, disk`view, disk.image
      ensures Wired() && Synced()
      ensures FreeCount(old(clusterMap[..])) >= ClustersFor(request.bufferSize) ==>
                Stored(old(State()), old(layout), State(), layout, request, buf[..])
                && StoredFirst(old(State()), old(layout), layout, request)
      ensures FreeCount(old(clusterMap[..])) < ClustersFor(request.bufferSize) ==> Broken(State())
    {
      ghost var v := State();
      ghost var next := StoreChain(request, buf, first);
      layout := next;
    }

    /** Allocation and flush; the new layout is the caller's to adopt. */
    method StoreChain(request: Request, buf: array<byte>, first: nat) returns (ghost next: Layout)
      requires Wired() && Synced() && Writable(State(), layout, request, first) && request.bufferSize > 0
      requires Separate(buf) && Span(ClustersFor(request.bufferSize)) <= buf.Length
      requires dirTableBuf[..] == disk.view[request.parent].entries[first :=
                 PreparedEntry(request)]
      modifies clusterMap, dirTableBuf, disk`view, disk.image
      ensures Wired() && Synced()
      ensures FreeCount(old(clusterMap[..])) >= ClustersFor(request.bufferSize) ==>
                Stored(old(State()), layout, State(), next, request, buf[..])
                && StoredFirst(old(State()), layout, next, request)
      ensures FreeCount(old(clusterMap[..])) < ClustersFor(request.bufferSize) ==> Broken(State())
    {
      ghost var v := State();
      ParentFacts(v, layout, request.parent);
      ghost var mid, chain := AllocateAndFlush(request, buf, ClustersFor(request.bufferSize), first);
      next := LayoutWithFile(v, layout, request, first, chain);
      FileOutcome(v, mid, State(), layout, request, first, chain, buf[..]);
    }

    method AllocateAndFlush(request: Request, buf: array<byte>, needed: nat, first: nat)
      returns (ghost mid: Volume, ghost chain: seq<uint32>)
      requires Wired() && HasSignature(disk.view) && 2 <= request.parent < CLUSTER_MAP_SIZE && first < SLOTS
      requires Separate(buf) && Span(needed) <= buf.Length
      modifies clusterMap, dirTableBuf, disk`view, disk.image
      ensures Wired() && Synced() && clusterMap[..] == mid.fat
      ensures chain == Prefix(FreeList(old(clusterMap[..])), needed % 0x1_0000)
      ensures Chained(old(State()), mid, chain, Parts(buf[..], needed))
      ensures disk.view == mid.disk[request.parent := Table(StartAt(old(dirTableBuf[..]), first, Head(chain)))]
                                   [FAT_CLUSTER := disk.view[FAT_CLUSTER]]
    {
      chain := AllocateChain(buf, needed, needed % 0x1_0000, first);
      mid := State();
      Flush(request.parent);
    }

    /** Creates a folder (`bufferSize` 0) or a file. Returns 0 on success, 1 if the name is
        taken, 2 if the parent is no folder, -1 if the parent's table is full. The volume stays
        valid exactly when the free clusters suffice. */
    method Write(request: Request, buf: array<byte>) returns (code: int)
      requires Valid() && ParentOk(request.parent)
      requires Separate(buf) && Span(ClustersFor(request.bufferSize)) <= buf.Length
      modifies this`layout, clusterMap, dirTableBuf, disk`view, disk.image
      ensures Wired() && Synced()
      ensures code == old(WriteCode(request)) && -1 <= code <= 2
      ensures code == 2 <==> old(clusterMap[request.parent]) != END_OF_FILE
      ensures code == 1 <==> old(clusterMap[request.parent] == END_OF_FILE
                                 && Child(layout.owner[request.parent], Key(request.name, request.ext)) in Tree())
      ensures code == -1 <==> old(clusterMap[request.parent] == END_OF_FILE
                                  && Child(layout.owner[request.parent], Key(request.name, request.ext)) !in Tree()
                                  && |ChildrenOf(Tree(), layout.owner[request.parent])| == 62)
      ensures code != 0 ==> State() == old(State()) && layout == old(layout)
      ensures code == 0 && Needed(request) <= FreeCount(old(clusterMap[..])) ==>
                Stored(old(State()), old(layout), State(), layout, request, buf[..])
                && StoredFirst(old(State()), old(layout), layout, request)
      ensures code == 0 && Needed(request) > FreeCount(old(clusterMap[..])) ==> Broken(State())
      ensures code == 0 && request.bufferSize == 0 && FreeCount(old(clusterMap[..])) >= 1 ==>
                NamesItself(State(), layout, Child(old(layout).owner[request.parent], Key(request.name, request.ext)))
    {
      if clusterMap[request.parent] != END_OF_FILE {
        return 2;
      }
      ParentFacts(State(), layout, request.parent);
      MatchIsChild(State(), layout, layout.owner[request.parent], request.FullName());
      CrowdedTable(State(), layout, layout.owner[request.parent]);
      disk.ReadTable(dirTableBuf, request.parent);
      var found, first := ScanForWrite(request.FullName());
      if found {
        return 1;
      }
      if first == 0 {
        return -1;
      }
      SlotIsChild(State(), layout, layout.owner[request.parent], first);
      dirTableBuf[first] := dirTableBuf[first].(filesize := request.bufferSize, notEmpty := true);
      dirTableBuf[first] := dirTableBuf[first].(name := request.name, ext := request.ext);
      if request.bufferSize == 0 {
        StoreFolder(request, first);
      } else {
        StoreFile(request, buf, first);
      }
      return 0;
    }

    ghost function WriteCode(request: Request): int
      requires Valid() && ParentOk(request.parent)
      reads this, clusterMap, disk, disk.image
    {
      if clusterMap[request.parent] != END_OF_FILE then 2
      else if Child(layout.owner[request.parent], request.FullName()) in Tree() then 1
      else if Crowded(Tree(), layout.owner[request.parent]) then -1
      else 0
    }

    // ---- read -----------------------------------------------------------------------------

    /** Follows a chain through the table and reads its clusters into the buffer. */
    method ReadChain(buf: array<byte>, start: uint32, ghost chain: seq<uint32>)
      requires Wired() && Separate(buf)
      requires ChainOk(State(), chain) && chain != [] && start == chain[0] && Span(|chain|) <= buf.Length
      modifies buf
      ensures buf[..] == ChainBytes(disk.view, chain) + old(buf[Span(|chain|)..])
    {
      var clusterNumber := start;
      var idx: nat := 0;
      ghost var b := buf[..];
      while clusterNumber != END_OF_FILE
        invariant idx <= |chain| && clusterNumber == if idx < |chain| then chain[idx] else END_OF_FILE
        invariant ReadSoFar(disk.view, chain, idx, b, buf[..])
        decreases |chain| - idx
      {
        ghost var was := buf[..];
        disk.ReadClusters(buf, Span(idx), clusterNumber);
        ReadOneMore(disk.view, chain, idx, b, was, buf[..]);
        ghost var next := idx + 1;
        assert next < |chain| ==> clusterMap[chain[idx]] == chain[next];
        clusterNumber := clusterMap[clusterNumber];
        idx := idx + 1;
      }
      assert chain[..idx] == chain;
    }

    /** The first `idx` clusters of the chain are in the buffer. */
    static ghost predicate ReadSoFar(disk: seq<Cluster>, chain: seq<uint32>, idx: nat, b: seq<byte>, now: seq<byte>)
      requires |disk| == CLUSTER_MAP_SIZE && DataClusters(disk, chain)
    {
      && idx <= |chain| && Span(idx) <= |b| && |ChainBytes(disk, chain[..idx])| == Span(idx)
      && now == ChainBytes(disk, chain[..idx]) + b[Span(idx)..]
    }

    static lemma ReadOneMore(disk: seq<Cluster>, chain: seq<uint32>, idx: nat, b: seq<byte>, was: seq<byte>,
                             now: seq<byte>)
      requires |disk| == CLUSTER_MAP_SIZE && DataClusters(disk, chain) && idx < |chain| && Span(|chain|) <= |b|
      requires ReadSoFar(disk, chain, idx, b, was)
      requires |was| == |b| && |disk[chain[idx]].bytes| == CLUSTER_SIZE
      requires now == was[..Span(idx)] + disk[chain[idx]].bytes + was[Span(idx) + CLUSTER_SIZE..]
      ensures ReadSoFar(disk, chain, idx + 1, b, now)
    {
      var done, part := ChainBytes(disk, chain[..idx]), disk[chain[idx]].bytes;
      ChainBytesNext(disk, chain, idx);
      Appended(done, b[Span(idx)..], was, part, now);
      assert b[Span(idx)..][CLUSTER_SIZE..] == b[Span(idx + 1)..];
    }

    static lemma Appended(done: seq<byte>, rest: seq<byte>, was: seq<byte>, part: seq<byte>, now: seq<byte>)
      requires was == done + rest && |part| <= |rest|
      requires now == was[..|done|] + part + was[|done| + |part|..]
      ensures now == done + part + rest[|part|..]
    {
    }

    static lemma ChainBytesNext(disk: seq<Cluster>, chain: seq<uint32>, i: nat)
      requires |disk| == CLUSTER_MAP_SIZE && DataClusters(disk, chain) && i < |chain|
      ensures ChainBytes(disk, chain[..i + 1]) == ChainBytes(disk, chain[..i]) + disk[chain[i]].bytes
      ensures |disk[chain[i]].bytes| == CLUSTER_SIZE
    {
      assert chain[..i + 1][..i] == chain[..i];
    }

    /** Scans for a file; on the way, `code` notes a folder that has the name. */
    method ScanForFile(k: Key) returns (slot: nat, code: int)
      requires dirTableBuf.Length == SLOTS
      ensures slot != 0 ==> 2 <= slot < SLOTS && FileEntry(dirTableBuf[slot], k)
      ensures slot == 0 ==> forall j :: 2 <= j < SLOTS ==> !FileEntry(dirTableBuf[j], k)
      ensures slot == 0 ==> code == if exists j :: 2 <= j < SLOTS && FolderEntry(dirTableBuf[j], k.name) then 1 else 2
    {
      code := 2;
      for i := 2 to SLOTS
        invariant forall j :: 2 <= j < i ==> !FileEntry(dirTableBuf[j], k)
        invariant code == if exists j :: 2 <= j < i && FolderEntry(dirTableBuf[j], k.name) then 1 else 2
      {
        if !dirTableBuf[i].notEmpty {
          continue;
        }
        if dirTableBuf[i].name == k.name {
          if !dirTableBuf[i].subdirectory && dirTableBuf[i].ext == k.ext {
            return i, code;
          }
          if dirTableBuf[i].subdirectory {
            assert FolderEntry(dirTableBuf[i], k.name);
            code := 1;
          }
        }
      }
      slot := 0;
    }

    /** Reads a file. Returns 0 with the bytes in the buffer, -1 if the parent is no folder or
        the buffer is too small, 1 if only a folder has the name, 2 if nothing has it. */
    method Read(request: Request, buf: array<byte>) returns (code: int)
      requires Valid() && ParentOk(request.parent)
      requires Separate(buf) && Span(ClustersFor(request.bufferSize)) <= buf.Length
      modifies dirTableBuf, buf
      ensures Valid() && State() == old(State())
      ensures code == ReadCode(request) && -1 <= code <= 2
      ensures code == 0 <==> clusterMap[request.parent] == END_OF_FILE
                             && var q := Child(layout.owner[request.parent], Key(request.name, request.ext));
                                q in Tree() && Tree()[q].Document? && |Tree()[q].data| <= request.bufferSize
      ensures code == 1 <==> clusterMap[request.parent] == END_OF_FILE
                             && var p := layout.owner[request.parent];
                                var q := Child(p, Key(request.name, request.ext));
                                !(q in Tree() && Tree()[q].Document?)
                                && exists ext: Ext :: Child(p, Key(request.name, ext)) in Tree()
                                                      && Tree()[Child(p, Key(request.name, ext))] == Directory
      ensures code == 2 <==> clusterMap[request.parent] == END_OF_FILE
                             && var p := layout.owner[request.parent];
                                var q := Child(p, Key(request.name, request.ext));
                                !(q in Tree() && Tree()[q].Document?)
                                && forall ext: Ext :: Child(p, Key(request.name, ext)) in Tree() ==>
                                     Tree()[Child(p, Key(request.name, ext))].Document?
      ensures code == 0 ==>
        var data := Tree()[Child(layout.owner[request.parent], Key(request.name, request.ext))].data;
        |data| <= request.bufferSize && |data| <= buf.Length && buf[..|data|] == data
      ensures code != 0 ==> buf[..] == old(buf[..])
    {
      if clusterMap[request.parent] != END_OF_FILE {
        return -1;
      }
      ParentFacts(State(), layout, request.parent);
      FileSlot(State(), layout, layout.owner[request.parent], request.FullName());
      FolderNamedSlot(State(), layout, layout.owner[request.parent], request.name);
      disk.ReadTable(dirTableBuf, request.parent);
      var slot;
      slot, code := ScanForFile(request.FullName());
      if slot != 0 {
        code := ReadFound(request, slot, buf);
      }
    }

    /** The file was found in slot `i`. */
    method ReadFound(request: Request, i: nat, buf: array<byte>) returns (code: int)
      requires Valid() && request.parent < CLUSTER_MAP_SIZE && clusterMap[request.parent] == END_OF_FILE
             && IsFolder(layout, request.parent)
      requires Separate(buf) && Span(ClustersFor(request.bufferSize)) <= buf.Length
      requires 2 <= i < SLOTS && dirTableBuf[..] == disk.view[request.parent].EntriesOrNone()
      requires FileEntry(dirTableBuf[i], request.FullName())
      modifies buf
      ensures Valid() && State() == old(State())
      ensures code == ReadCode(request)
      ensures code == 0 ==>
        var data := Tree()[Child(layout.owner[request.parent], request.FullName())].data;
        |data| <= request.bufferSize && |data| <= buf.Length && buf[..|data|] == data
      ensures code != 0 ==> buf[..] == old(buf[..])
    {
      ghost var q := Child(layout.owner[request.parent], request.FullName());
      ParentFacts(State(), layout, request.parent);
      EntryKind(State(), layout, layout.owner[request.parent], i);
      assert NodeOk(State(), layout.nodes, q);
      ghost var n := layout.nodes[q];
      FileBytes(State(), layout, q);
      if request.bufferSize < dirTableBuf[i].filesize {
        return -1;
      }
      ClustersMonotone(n.size, request.bufferSize);
      ReadChain(buf, dirTableBuf[i].cluster, n.chain);
      code := 0;
    }

    static lemma ClustersMonotone(a: uint32, b: uint32)
      requires a <= b
      ensures Span(ClustersFor(a)) <= Span(ClustersFor(b))
    {
    }

    ghost function ReadCode(request: Request): int
      requires Valid() && ParentOk(request.parent)
      reads this, clusterMap, disk, disk.image
    {
      if clusterMap[request.parent] != END_OF_FILE then -1
      else
        var p := layout.owner[request.parent];
        if IsDocument(Tree(), Child(p, request.FullName())) then
          if request.bufferSize < |Tree()[Child(p, request.FullName())].data| then -1 else 0
        else if HasFolderNamed(Tree(), p, request.name) then 1
        else 2
    }

    // ---- delete ---------------------------------------------------------------------------

    ghost predicate IsZeroBuffer(b: array<byte>)
      reads b
    {
      Separate(b) && b.Length == CLUSTER_SIZE && Raw(b[..]) == ZeroCluster()
    }

    method ZeroBuffer() returns (b: array<byte>)
      requires Wired()
      ensures fresh(b) && IsZeroBuffer(b)
    {
      b := new byte[CLUSTER_SIZE](_ => 0);
      assert b[..] == seq(CLUSTER_SIZE, _ => 0);
    }

    /** Zeroes one cluster and marks it empty; returns the link it carried. */
    method Release(b: array<byte>, clusterNumber: uint32) returns (next: uint32)
      requires Wired() && IsZeroBuffer(b) && clusterNumber < CLUSTER_MAP_SIZE
      modifies clusterMap, disk`view, disk.image
      ensures Wired() && next == old(clusterMap[clusterNumber])
      ensures State() == Vol(old(clusterMap[..])[clusterNumber := EMPTY_ENTRY],
                             old(disk.view)[clusterNumber := ZeroCluster()])
    {
      assert b[0..0 + CLUSTER_SIZE] == b[..];
      disk.WriteClusters(b, 0, clusterNumber, ZeroCluster());
      next := clusterMap[clusterNumber];
      clusterMap[clusterNumber] := EMPTY_ENTRY;
    }

    /** Zeroes and frees every cluster of a chain. */
    method ReleaseChain(b: array<byte>, start: uint32, ghost chain: seq<uint32>)
      requires Wired() && IsZeroBuffer(b)
      requires ChainOk(State(), chain) && chain != [] && start == chain[0]
      modifies clusterMap, disk`view, disk.image
      ensures Wired() && Released(old(State()), State(), chain)
    {
      ghost var v := State();
      var clusterNumber := start;
      ghost var idx: nat := 0;
      while clusterNumber != END_OF_FILE
        invariant Wired() && IsZeroBuffer(b)
        invariant idx <= |chain| && clusterNumber == if idx < |chain| then chain[idx] else END_OF_FILE
        invariant Released(v, State(), chain[..idx])
        decreases |chain| - idx
      {
        ghost var v' := State();
        clusterNumber := Release(b, clusterNumber);
        ReleasedNext(v, v', State(), chain, idx);
        idx := idx + 1;
      }
      assert chain[..idx] == chain;
    }

    /** Deletes the folder at `dirCluster` with everything below it: exactly the clusters that
        the subtree owns are zeroed and freed. The slot in its parent is left to the caller. */
    method RecDelete(dirCluster: uint32)
      requires Wired() && Structured(layout) && IsFolder(layout, dirCluster)
      requires Intact(State(), layout.nodes, layout.owner[dirCluster])
      modifies clusterMap, dirTableBuf, disk`view, disk.image
      ensures Wired() && Erased(old(State()), State(), layout, layout.owner[dirCluster])
      ensures forall c: uint32 :: c < CLUSTER_MAP_SIZE && OwnedUnder(layout, layout.owner[dirCluster], c) ==>
                clusterMap[c] == 0 && disk.view[c] == Raw(seq(2048, _ => 0))
      decreases |UnderSet(layout, layout.owner[dirCluster])|, 1
    {
      ghost var v, p := State(), layout.owner[dirCluster];
      assert layout.nodes[p].Has(dirCluster);
      assert NodeOk(v, layout.nodes, p);
      disk.ReadTable(dirTableBuf, dirCluster);
      var b := ZeroBuffer();
      EraseStart(v, layout, p);
      for i := 2 to SLOTS
        invariant Wired() && IsZeroBuffer(b)
        invariant dirTableBuf[..] == v.disk[dirCluster].entries
        invariant ErasedBelow(v, State(), layout, p, i)
      {
        if !dirTableBuf[i].notEmpty {
          EraseNext(v, State(), State(), layout, p, i);
          continue;
        }
        EraseSlot(dirCluster, i, b, v);
      }
      ghost var v' := State();
      var _ := Release(b, dirCluster);
      EraseLast(v, v', State(), layout, p);
    }

    /** Erases the child in slot `i` of the folder at `dirCluster`. */
    method EraseSlot(dirCluster: uint32, i: nat, b: array<byte>, ghost v: Volume)
      requires Wired() && Structured(layout) && IsFolder(layout, dirCluster) && IsZeroBuffer(b)
      requires Intact(v, layout.nodes, layout.owner[dirCluster])
      requires 2 <= i < SLOTS && ErasedBelow(v, State(), layout, layout.owner[dirCluster], i)
      requires dirCluster < CLUSTER_MAP_SIZE && v.disk[dirCluster].Table?
      requires dirTableBuf[..] == v.disk[dirCluster].entries && dirTableBuf[i].notEmpty
      modifies clusterMap, dirTableBuf, disk`view, disk.image
      ensures Wired() && IsZeroBuffer(b) && dirTableBuf[..] == old(dirTableBuf[..])
      ensures ErasedBelow(v, State(), layout, layout.owner[dirCluster], i + 1)
      decreases |UnderSet(layout, layout.owner[dirCluster])|, 0
    {
      ghost var v', p := State(), layout.owner[dirCluster];
      assert layout.nodes[p].Has(dirCluster);
      var clusterNumber := dirTableBuf[i].cluster;
      ghost var k := KeyOf(dirTableBuf[i]);
      SlotAhead(v, v', layout, p, i);
      if dirTableBuf[i].subdirectory {
        UnderShrinks(layout, p, k);
        RecDelete(clusterNumber);
        EraseNext(v, v', State(), layout, p, i);
        OwnClusterStays(v, State(), layout, p, i + 1);
        disk.ReadTable(dirTableBuf, dirCluster);
      } else {
        ReleaseChain(b, clusterNumber, layout.nodes[Child(p, k)].chain);
        ChainErased(v', State(), layout, Child(p, k));
        EraseNext(v, v', State(), layout, p, i);
      }
    }

    /** What lies under the child in slot `i` is erased; its slot is cleared and the tables go
        to the disk. */
    method Unlink(parent: uint32, i: nat, ghost v: Volume, ghost k: Key)
      requires Wired() && HasSignature(disk.view) && Inv(v, layout) && IsFolder(layout, parent)
      requires Child(layout.owner[parent], k) in layout.nodes && layout.nodes[Child(layout.owner[parent], k)].slot == i
      requires Erased(v, State(), layout, Child(layout.owner[parent], k))
      modifies this`layout, dirTableBuf, disk`view, disk.image
      ensures Valid() && layout == Pruned(old(layout), Child(old(layout).owner[parent], k))
      ensures Tree() == RemoveTree(TreeOf(v, old(layout)), Child(old(layout).owner[parent], k))
      ensures FreeCount(clusterMap[..]) == FreeCount(v.fat) + |UnderSet(old(layout), Child(old(layout).owner[parent], k))|
    {
      ghost var mid, r := State(), layout.owner[parent];
      ParentFacts(v, layout, parent);
      ParentStays(v, mid, layout, r, k);
      assert Child(r, k) in layout.nodes;
      disk.ReadTable(dirTableBuf, parent);
      dirTableBuf[i] := EMPTY_SLOT;
      Flush(parent);
      ErasedRemoved(v, mid, State(), layout, r, k);
      RemoveNode(v, State(), layout, r, k);
      FreeAfterRemove(v, State(), layout, Child(r, k));
      layout := Pruned(layout, Child(r, k));
    }

    /** Scans for an entry with the requested name and extension. */
    method ScanForEntry(k: Key) returns (slot: nat)
      requires dirTableBuf.Length == SLOTS
      ensures slot != 0 ==> 2 <= slot < SLOTS && Matches(dirTableBuf[slot], k)
      ensures slot == 0 ==> forall j :: 2 <= j < SLOTS ==> !Matches(dirTableBuf[j], k)
    {
      for i := 2 to SLOTS
        invariant forall j :: 2 <= j < i ==> !Matches(dirTableBuf[j], k)
      {
        if !dirTableBuf[i].notEmpty {
          continue;
        }
        if KeyOf(dirTableBuf[i]) == k {
          return i;
        }
      }
      return 0;
    }

    /** Deletes a folder and everything below it. Returns 0 on success, 1 if the name is a
        file's, 2 if nothing has it, -1 if the parent is no folder. */
    method DeleteFolderRec(request: Request) returns (code: int)
      requires Valid() && ParentOk(request.parent)
      modifies this`layout, clusterMap, dirTableBuf, disk`view, disk.image
      ensures Valid()
      ensures code == old(DeleteFolderCode(request)) && -1 <= code <= 2
      ensures code == -1 <==> old(clusterMap[request.parent]) != END_OF_FILE
      ensures code == 2 <==> old(clusterMap[request.parent] == END_OF_FILE
                                 && Child(layout.owner[request.parent], Key(request.name, request.ext)) !in Tree())
      ensures code == 0 <==> old(clusterMap[request.parent] == END_OF_FILE
                                 && var q := Child(layout.owner[request.parent], Key(request.name, request.ext));
                                    q in Tree() && Tree()[q] == Directory)
      ensures code != 0 ==> State() == old(State()) && layout == old(layout)
      ensures code == 0 ==>
        var q := Child(old(layout).owner[request.parent], request.FullName());
        && layout == Pruned(old(layout), q) && Tree() == RemoveTree(old(Tree()), q)
        && FreeCount(clusterMap[..]) == FreeCount(old(clusterMap[..])) + |UnderSet(old(layout), q)|
    {
      if clusterMap[request.parent] != END_OF_FILE {
        return -1;
      }
      ghost var v, p := State(), layout.owner[request.parent];
      ParentFacts(v, layout, request.parent);
      MatchIsChild(v, layout, p, request.FullName());
      disk.ReadTable(dirTableBuf, request.parent);
      var i := ScanForEntry(request.FullName());
      if i == 0 {
        return 2;
      }
      EntryKind(v, layout, p, i);
      if !dirTableBuf[i].subdirectory {
        return 1;
      }
      RecDelete(dirTableBuf[i].cluster);
      Unlink(request.parent, i, v, request.FullName());
      return 0;
    }

    ghost function DeleteFolderCode(request: Request): int
      requires Valid() && ParentOk(request.parent)
      reads this, clusterMap, disk, disk.image
    {
      if clusterMap[request.parent] != END_OF_FILE then -1
      else
        var q := Child(layout.owner[request.parent], request.FullName());
        if q !in Tree() then 2 else if Tree()[q] == Directory then 0 else 1
    }

    /** Does the table at `clusterNumber` have a used slot? */
    method HasEntries(clusterNumber: uint32) returns (some: bool)
      requires Wired() && clusterNumber < CLUSTER_MAP_SIZE && IsTable(disk.view[clusterNumber])
      ensures some <==> exists j :: 2 <= j < SLOTS && disk.view[clusterNumber].entries[j].notEmpty
    {
      var folderTable := new DirEntry[SLOTS](_ => EMPTY_SLOT);
      disk.ReadTable(folderTable, clusterNumber);
      for j := 2 to SLOTS
        invariant folderTable[..] == disk.view[clusterNumber].entries
        invariant forall i :: 2 <= i < j ==> !folderTable[i].notEmpty
      {
        if folderTable[j].notEmpty {
          return true;
        }
      }
      return false;
    }

    /** Deletes a file or an empty folder. Returns 0 on success, 1 if nothing has the name, 2 if
        the folder is not empty, -1 if the parent is no folder. */
    method Delete(request: Request) returns (code: int)
      requires Valid() && ParentOk(request.parent)
      modifies this`layout, clusterMap, dirTableBuf, disk`view, disk.image
      ensures Valid()
      ensures code == old(DeleteCode(request)) && -1 <= code <= 2
      ensures code == -1 <==> old(clusterMap[request.parent]) != END_OF_FILE
      ensures code == 1 <==> old(clusterMap[request.parent] == END_OF_FILE
                                 && Child(layout.owner[request.parent], Key(request.name, request.ext)) !in Tree())
      ensures code == 2 <==> old(clusterMap[request.parent] == END_OF_FILE
                                 && var q := Child(layout.owner[request.parent], Key(request.name, request.ext));
                                    q in Tree() && exists k :: Child(q, k) in Tree())
      ensures code != 0 ==> State() == old(State()) && layout == old(layout)
      ensures code == 0 ==>
        var q := Child(old(layout).owner[request.parent], request.FullName());
        && layout == Pruned(old(layout), q) && Tree() == RemoveTree(old(Tree()), q)
        && FreeCount(clusterMap[..]) == FreeCount(old(clusterMap[..])) + |UnderSet(old(layout), q)|
    {
      if clusterMap[request.parent] != END_OF_FILE {
        return -1;
      }
      ghost var v, p := State(), layout.owner[request.parent];
      ParentFacts(v, layout, request.parent);
      MatchIsChild(v, layout, p, request.FullName());
      disk.ReadTable(dirTableBuf, request.parent);
      var i := ScanForEntry(request.FullName());
      if i == 0 {
        return 1;
      }
      var released := DeleteTarget(request, i);
      if !released {
        return 2;
      }
      Unlink(request.parent, i, v, request.FullName());
      return 0;
    }

    /** Frees what the entry in slot `i` owns, unless it is a folder that is not empty. */
    method DeleteTarget(request: Request, i: nat) returns (released: bool)
      requires Valid() && request.parent < CLUSTER_MAP_SIZE && IsFolder(layout, request.parent)
      requires 2 <= i < SLOTS && dirTableBuf[..] == disk.view[request.parent].EntriesOrNone()
      requires Matches(dirTableBuf[i], request.FullName())
      modifies clusterMap, disk`view, disk.image
      ensures Wired() && HasSignature(disk.view)
      ensures released <==> old(Removable(Tree(), Child(layout.owner[request.parent], request.FullName())))
      ensures !released ==> State() == old(State())
      ensures released ==>
                Erased(old(State()), State(), layout, Child(layout.owner[request.parent], request.FullName()))
      ensures var q := Child(layout.owner[request.parent], request.FullName());
        q in layout.nodes && layout.nodes[q].slot == i
    {
      ghost var v, p := State(), layout.owner[request.parent];
      ghost var q := Child(p, request.FullName());
      ParentFacts(v, layout, request.parent);
      EntryKind(v, layout, p, i);
      var clusterNumber := dirTableBuf[i].cluster;
      assert NodeOk(v, layout.nodes, q);
      if dirTableBuf[i].subdirectory {
        EmptyTableNoChildren(v, layout, q);
        var some := HasEntries(clusterNumber);
        if some {
          return false;
        }
        var b := ZeroBuffer();
        var _ := Release(b, clusterNumber);
        EmptyFolderErased(v, State(), layout, q);
      } else {
        var b := ZeroBuffer();
        ReleaseChain(b, clusterNumber, layout.nodes[q].chain);
        ChainErased(v, State(), layout, q);
        NoChildOfFile(v, layout, q);
      }
      return true;
    }

    ghost function DeleteCode(request: Request): int
      requires Valid() && ParentOk(request.parent)
      reads this, clusterMap, disk, disk.image
    {
      if clusterMap[request.parent] != END_OF_FILE then -1
      else
        var q := Child(layout.owner[request.parent], request.FullName());
        if q !in Tree() then 1 else if Removable(Tree(), q) then 0 else 2
    }

    // ---- lookup and copy ------------------------------------------------------------------

    /** The cluster of the first folder entry with the requested name; 0 if there is none. The
        extension is not looked at. */
    method GetClusterNumber(request: Request) returns (clusterNumber: uint32)
      requires Valid() && ParentOk(request.parent)
      modifies dirTableBuf
      ensures Valid() && State() == old(State())
      ensures clusterNumber == 0 <==>
                clusterMap[request.parent] != END_OF_FILE
                || FolderNamed(Order(), layout.owner[request.parent], request.name).None?
      ensures clusterNumber != 0 ==>
                IsFolder(layout, clusterNumber)
                && FolderNamed(Order(), layout.owner[request.parent], request.name) == Some(layout.owner[clusterNumber])
    {
      if clusterMap[request.parent] != END_OF_FILE {
        return 0;
      }
      ghost var p := layout.owner[request.parent];
      ParentFacts(State(), layout, request.parent);
      disk.ReadTable(dirTableBuf, request.parent);
      var i := ScanForFolder(request.name);
      FoundInTable(State(), layout, p, request.name, 2, if i == 0 then SLOTS else i);
      if i == 0 {
        return 0;
      }
      EntryKind(State(), layout, p, i);
      ParentFacts(State(), layout, dirTableBuf[i].cluster);
      return dirTableBuf[i].cluster;
    }

    method ScanForFolder(name: Name) returns (slot: nat)
      requires dirTableBuf.Length == SLOTS
      ensures slot != 0 ==> 2 <= slot < SLOTS && FolderEntry(dirTableBuf[slot], name)
      ensures forall j :: 2 <= j < (if slot == 0 then SLOTS else slot) ==> !FolderEntry(dirTableBuf[j], name)
    {
      for i := 2 to SLOTS
        invariant forall j :: 2 <= j < i ==> !FolderEntry(dirTableBuf[j], name)
      {
        if !dirTableBuf[i].notEmpty {
          continue;
        }
        if dirTableBuf[i].name == name {
          if dirTableBuf[i].subdirectory {
            return i;
          }
        }
      }
      return 0;
    }

    /** The whole of the file recorded in slot `i`, in a buffer of whole clusters. */
    method LoadFile(parent: uint32, i: nat) returns (buf: array<byte>, filesize: uint32)
      requires Valid() && parent < CLUSTER_MAP_SIZE && IsFolder(layout, parent)
      requires 2 <= i < SLOTS && dirTableBuf[..] == disk.view[parent].EntriesOrNone()
      requires dirTableBuf[i].notEmpty && !dirTableBuf[i].subdirectory
      ensures fresh(buf) && Separate(buf) && Span(ClustersFor(filesize)) <= buf.Length
      ensures filesize == dirTableBuf[i].filesize && 0 < filesize <= buf.Length
      ensures var q := Child(layout.owner[parent], KeyOf(dirTableBuf[i]));
        && q in layout.nodes && layout.nodes[q].slot == i && layout.nodes[q].File?
        && |layout.nodes[q].chain| == ClustersFor(filesize) && layout.nodes[q].size == filesize
        && q in Tree() && Tree()[q] == Document(buf[..filesize])
    {
      ghost var q := Child(layout.owner[parent], KeyOf(dirTableBuf[i]));
      ParentFacts(State(), layout, parent);
      EntryKind(State(), layout, layout.owner[parent], i);
      assert NodeOk(State(), layout.nodes, q);
      FileBytes(State(), layout, q);
      filesize := dirTableBuf[i].filesize;
      buf := new byte[Span(ClustersFor(filesize))];
      ReadChain(buf, dirTableBuf[i].cluster, layout.nodes[q].chain);
      assert buf[..filesize] == ChainBytes(disk.view, layout.nodes[q].chain)[..filesize];
    }

    /** Copies a file, replacing a file of the same name at the destination. Returns -1 if the
        source's parent is no folder, 1 if there is no such file, and otherwise what the write
        at the destination returns. */
    method CopyFile(src: Request, dest: Request) returns (code: int)
      requires Valid() && ParentOk(src.parent) && ParentOk(dest.parent)
      modifies this`layout, clusterMap, dirTableBuf, disk`view, disk.image
      ensures Wired() && Synced()
      ensures code == old(CopyFileCode(src, dest)) && -1 <= code <= 2
      ensures code == 2 <==> old(clusterMap[src.parent] == END_OF_FILE && clusterMap[dest.parent] != END_OF_FILE
                                 && var q := Child(layout.owner[src.parent], Key(src.name, src.ext));
                                    q in Tree() && Tree()[q].Document?)
      ensures code == 1 <==> old(clusterMap[src.parent] == END_OF_FILE
                                 && var q := Child(layout.owner[src.parent], Key(src.name, src.ext));
                                    q in Tree() && Tree()[q].Document? ==>
                                      clusterMap[dest.parent] == END_OF_FILE
                                      && var r := Child(layout.owner[dest.parent], Key(dest.name, dest.ext));
                                         r in Tree() && Tree()[r] == Directory)
      ensures code == 0 <==> old(clusterMap[src.parent] == END_OF_FILE && clusterMap[dest.parent] == END_OF_FILE
                                 && var q := Child(layout.owner[src.parent], Key(src.name, src.ext));
                                    var r := Child(layout.owner[dest.parent], Key(dest.name, dest.ext));
                                    q in Tree() && Tree()[q].Document?
                                    && if r in Tree() then Tree()[r].Document?
                                       else |ChildrenOf(Tree(), layout.owner[dest.parent])| != 62)
      ensures code != 0 ==> State() == old(State()) && layout == old(layout)
      ensures code == 0 && old(CopyFileFits(src, dest)) ==>
                Valid() && KeepsFolders(old(layout), layout)
                && Tree() == old(Tree())[Child(old(layout).owner[dest.parent], dest.FullName())
                                         := old(Tree()[Child(layout.owner[src.parent], src.FullName())])]
      ensures code == 0 && !old(CopyFileFits(src, dest)) ==> Broken(State())
    {
      hide Inv;
      if clusterMap[src.parent] != END_OF_FILE {
        return -1;
      }
      ParentFacts(State(), layout, src.parent);
      FileSlot(State(), layout, layout.owner[src.parent], src.FullName());
      disk.ReadTable(dirTableBuf, src.parent);
      var i, _ := ScanForFile(src.FullName());
      if i == 0 {
        return 1;
      }
      var buf, filesize := LoadFile(src.parent, i);
      code := Replace(Request(dest.name, dest.ext, dest.parent, filesize), buf);
    }

    /** Writes a file in place of the file that has its name, if any. */
    method Replace(req: Request, buf: array<byte>) returns (code: int)
      requires Valid() && ParentOk(req.parent) && req.bufferSize > 0
      requires Separate(buf) && Span(ClustersFor(req.bufferSize)) <= buf.Length
      modifies this`layout, clusterMap, dirTableBuf, disk`view, disk.image
      ensures Wired() && Synced()
      ensures code == old(ReplaceCode(req))
      ensures code != 0 ==> State() == old(State()) && layout == old(layout)
      ensures code == 0 && old(ReplaceFits(req)) ==>
                Valid() && KeepsFolders(old(layout), layout)
                && Tree() == old(Tree())[Child(old(layout).owner[req.parent], req.FullName()) := Payload(req, buf[..])]
      ensures code == 0 && !old(ReplaceFits(req)) ==> Broken(State())
    {
      var idx := FindAtDestination(req);
      if idx != 0 {
        if clusterMap[req.parent] == END_OF_FILE {
          NoChildOfFile(State(), layout, Child(layout.owner[req.parent], req.FullName()));
        }
        code := ReplaceExisting(req, buf);
      } else {
        if clusterMap[req.parent] == END_OF_FILE && Child(layout.owner[req.parent], req.FullName()) !in layout.nodes {
          NothingThere(State(), layout, Child(layout.owner[req.parent], req.FullName()));
        }
        code := WriteInTree(req, buf);
      }
    }

    /** The slot of the file to replace. If the destination is no folder the slot may be
        anything: what follows refuses the request. */
    method FindAtDestination(req: Request) returns (idx: nat)
      requires Valid() && ParentOk(req.parent)
      modifies dirTableBuf
      ensures Valid() && State() == old(State())
      ensures clusterMap[req.parent] == END_OF_FILE ==>
                (idx != 0 <==> IsDocument(Tree(), Child(layout.owner[req.parent], req.FullName())))
    {
      if clusterMap[req.parent] == END_OF_FILE {
        ParentFacts(State(), layout, req.parent);
        FileSlot(State(), layout, layout.owner[req.parent], req.FullName());
      }
      disk.ReadTable(dirTableBuf, req.parent);
      var code;
      idx, code := ScanForFile(req.FullName());
    }

    method ReplaceExisting(req: Request, buf: array<byte>) returns (code: int)
      requires Valid() && ParentOk(req.parent) && req.bufferSize > 0
      requires clusterMap[req.parent] == END_OF_FILE ==>
                 Removable(Tree(), Child(layout.owner[req.parent], req.FullName()))
                 && IsDocument(Tree(), Child(layout.owner[req.parent], req.FullName()))
      requires Separate(buf) && Span(ClustersFor(req.bufferSize)) <= buf.Length
      modifies this`layout, clusterMap, dirTableBuf, disk`view, disk.image
      ensures Wired() && Synced()
      ensures code == if old(clusterMap[req.parent]) == END_OF_FILE then 0 else 2
      ensures code != 0 ==> State() == old(State()) && layout == old(layout)
      ensures code == 0 && old(ReplaceFits(req)) ==>
                Valid() && KeepsFolders(old(layout), layout)
                && Tree() == old(Tree())[Child(old(layout).owner[req.parent], req.FullName()) := Payload(req, buf[..])]
      ensures code == 0 && !old(ReplaceFits(req)) ==> Broken(State())
    {
      MakeWay(req, Payload(req, buf[..]));
      code := WriteInTree(req, buf);
    }

    /** Deletes the file that is in the way; refused if its parent is no folder. */
    method MakeWay(req: Request, ghost next: Content)
      requires Valid() && ParentOk(req.parent)
      requires clusterMap[req.parent] == END_OF_FILE ==>
                 Removable(Tree(), Child(layout.owner[req.parent], req.FullName()))
                 && IsDocument(Tree(), Child(layout.owner[req.parent], req.FullName()))
      modifies this`layout, clusterMap, dirTableBuf, disk`view, disk.image
      ensures Valid() && ParentOk(req.parent)
      ensures clusterMap[req.parent] == old(clusterMap[req.parent])
      ensures clusterMap[req.parent] != END_OF_FILE ==> State() == old(State()) && layout == old(layout)
      ensures clusterMap[req.parent] == END_OF_FILE ==>
        var q := old(Child(layout.owner[req.parent], req.FullName()));
        && WriteCode(req) == 0 && KeepsFolders(old(layout), layout)
        && Child(layout.owner[req.parent], req.FullName()) == q
        && FreeCount(clusterMap[..]) == FreeCount(old(clusterMap[..])) + |UnderSet(old(layout), q)|
        && Tree()[q := next] == old(Tree())[q := next]
    {
      ghost var v, lay := State(), layout;
      var deleted := Delete(req);
      assert deleted == if v.fat[req.parent] == END_OF_FILE then 0 else -1;
      if deleted == 0 {
        ReplacedLeavesRoom(v, State(), lay, req, next);
        PruneFileKeeps(v, lay, Child(lay.owner[req.parent], req.FullName()));
      }
    }

    /** A write, told by what it does to the tree. */
    method WriteInTree(req: Request, buf: array<byte>) returns (code: int)
      requires Valid() && ParentOk(req.parent)
      requires Separate(buf) && Span(ClustersFor(req.bufferSize)) <= buf.Length
      modifies this`layout, clusterMap, dirTableBuf, disk`view, disk.image
      ensures Wired() && Synced()
      ensures code == old(WriteCode(req))
      ensures code != 0 ==> State() == old(State()) && layout == old(layout)
      ensures code == 0 && Needed(req) <= FreeCount(old(clusterMap[..])) ==>
                Valid() && KeepsFolders(old(layout), layout)
                && Tree() == old(Tree())[Child(old(layout).owner[req.parent], req.FullName()) := Payload(req, buf[..])]
      ensures code == 0 && Needed(req) > FreeCount(old(clusterMap[..])) ==> Broken(State())
    {
      ghost var v, lay := State(), layout;
      code := Write(req, buf);
      if code == 0 && Needed(req) <= FreeCount(v.fat) {
        StoreKeeps(v, lay, layout, Child(lay.owner[req.parent], req.FullName()));
      }
    }

    ghost function ReplaceCode(req: Request): int
      requires Valid() && ParentOk(req.parent)
      reads this, clusterMap, disk, disk.image
    {
      if clusterMap[req.parent] == END_OF_FILE
          && IsDocument(Tree(), Child(layout.owner[req.parent], req.FullName())) then 0
      else WriteCode(req)
    }

    /** Room for the new file once the old one is gone. */
    ghost predicate ReplaceFits(req: Request)
      requires Valid() && ParentOk(req.parent) && clusterMap[req.parent] == END_OF_FILE
      reads this, clusterMap, disk, disk.image
    {
      var q := Child(layout.owner[req.parent], req.FullName());
      Needed(req) <= FreeCount(clusterMap[..]) + |UnderSet(layout, q)|
    }

    ghost function CopyFileCode(src: Request, dest: Request): int
      requires Valid() && ParentOk(src.parent) && ParentOk(dest.parent)
      reads this, clusterMap, disk, disk.image
    {
      if clusterMap[src.parent] != END_OF_FILE then -1
      else if !IsDocument(Tree(), Child(layout.owner[src.parent], src.FullName())) then 1
      else ReplaceCode(dest)
    }

    ghost predicate CopyFileFits(src: Request, dest: Request)
      requires Valid() && ParentOk(src.parent) && ParentOk(dest.parent)
      requires CopyFileCode(src, dest) == 0
      reads this, clusterMap, disk, disk.image
    {
      var q := Child(layout.owner[src.parent], src.FullName());
      ClustersFor(|Tree()[q].data|) <= FreeCount(clusterMap[..]) + |UnderSet(layout, Child(layout.owner[dest.parent], dest.FullName()))|
    }

    // ---- looking up -----------------------------------------------------------------------

    /** Says whether a file exists: 0 if so, 1 if something else has the name, 2 if nothing has
        it, -1 if the parent is no folder. */
    method SearchFile(request: Request) returns (code: int)
      requires Valid() && ParentOk(request.parent)
      modifies dirTableBuf
      ensures Valid() && State() == old(State()) && code == SearchCode(request) && -1 <= code <= 2
      ensures code == -1 <==> clusterMap[request.parent] != END_OF_FILE
      ensures code == 0 <==> clusterMap[request.parent] == END_OF_FILE
                             && var q := Child(layout.owner[request.parent], Key(request.name, request.ext));
                                q in Tree() && Tree()[q].Document?
      ensures code == 2 <==> clusterMap[request.parent] == END_OF_FILE
                             && forall ext: Ext :: Child(layout.owner[request.parent], Key(request.name, ext)) !in Tree()
    {
      if clusterMap[request.parent] != END_OF_FILE {
        return -1;
      }
      ParentFacts(State(), layout, request.parent);
      FileSlot(State(), layout, layout.owner[request.parent], request.FullName());
      NamedSlot(State(), layout, layout.owner[request.parent], request.name);
      disk.ReadTable(dirTableBuf, request.parent);
      code := ScanForName(request.FullName());
    }

    method ScanForName(k: Key) returns (code: int)
      requires dirTableBuf.Length == SLOTS
      ensures code == 0 <==> exists i :: 2 <= i < SLOTS && FileEntry(dirTableBuf[i], k)
      ensures code != 0 ==> code == if exists i :: 2 <= i < SLOTS && EntryNamed(dirTableBuf[i], k.name) then 1 else 2
    {
      code := 2;
      for i := 2 to SLOTS
        invariant forall j :: 2 <= j < i ==> !FileEntry(dirTableBuf[j], k)
        invariant code == if exists j :: 2 <= j < i && EntryNamed(dirTableBuf[j], k.name) then 1 else 2
      {
        if !dirTableBuf[i].notEmpty {
          continue;
        }
        if dirTableBuf[i].name == k.name {
          assert EntryNamed(dirTableBuf[i], k.name);
          if !dirTableBuf[i].subdirectory && dirTableBuf[i].ext == k.ext {
            assert FileEntry(dirTableBuf[i], k);
            return 0;
          }
          code := 1;
        }
      }
    }

    ghost function SearchCode(request: Request): int
      requires Valid() && ParentOk(request.parent)
      reads this, clusterMap, disk, disk.image
    {
      if clusterMap[request.parent] != END_OF_FILE then -1
      else
        var p := layout.owner[request.parent];
        if IsDocument(Tree(), Child(p, request.FullName())) then 0
        else if HasChildNamed(Tree(), p, request.name) then 1
        else 2
    }

    /** Reads the table of a folder that a name opens, ".." included. Returns 0 with the table, 1
        if only files have the name, 2 if nothing has it, -1 if the parent is no folder or the
        buffer is not the size of a table. */
    method ReadDirectory(request: Request, table: array<DirEntry>) returns (code: int)
      requires Valid() && ParentOk(request.parent) && table.Length == SLOTS && table != dirTableBuf
      modifies dirTableBuf, table
      ensures Valid() && State() == old(State()) && code == ReadDirectoryCode(request) && -1 <= code <= 2
      ensures code == 0 <==> clusterMap[request.parent] == END_OF_FILE && request.bufferSize == CLUSTER_SIZE
                             && (request.name == DOT_DOT
                                 || var p := layout.owner[request.parent];
                                    exists ext: Ext :: Child(p, Key(request.name, ext)) in Tree()
                                                       && Tree()[Child(p, Key(request.name, ext))] == Directory)
      ensures code == 1 <==> clusterMap[request.parent] == END_OF_FILE && request.bufferSize == CLUSTER_SIZE
                             && request.name != DOT_DOT
                             && var p := layout.owner[request.parent];
                                && (exists ext: Ext :: Child(p, Key(request.name, ext)) in Tree())
                                && forall ext: Ext :: Child(p, Key(request.name, ext)) in Tree() ==>
                                     Tree()[Child(p, Key(request.name, ext))].Document?
      ensures code == 2 <==> clusterMap[request.parent] == END_OF_FILE && request.bufferSize == CLUSTER_SIZE
                             && request.name != DOT_DOT
                             && forall ext: Ext :: Child(layout.owner[request.parent], Key(request.name, ext)) !in Tree()
      ensures code == 0 ==>
                exists q :: Opens(Order(), layout.owner[request.parent], request.name, q)
                            && q in Tree() && Tree()[q] == Directory && Lists(table[..], Tree(), q)
      ensures code == 0 && request.name == DOT_DOT ==>
                var p := layout.owner[request.parent]; Lists(table[..], Tree(), if p.Root? then Root else p.parent)
      ensures code != 0 ==> table[..] == old(table[..])
    {
      hide Inv, SlotTreeOf, TreeOf, Opens, Lists;
      if clusterMap[request.parent] != END_OF_FILE {
        return -1;
      }
      if request.bufferSize != CLUSTER_SIZE {
        return -1;
      }
      ghost var p := layout.owner[request.parent];
      ParentFacts(State(), layout, request.parent);
      ParentPointer(State(), layout, p);
      FolderNamedSlot(State(), layout, p, request.name);
      NamedSlot(State(), layout, p, request.name);
      disk.ReadTable(dirTableBuf, request.parent);
      var i;
      i, code := ScanFromParent(request.name);
      if i != 0 {
        ghost var _ := OpenFolder(request, dirTableBuf[i].cluster, i, table);
        return 0;
      }
    }

    /** The table of the folder in slot `i` goes to the caller. */
    method OpenFolder(request: Request, cluster: uint32, i: nat, table: array<DirEntry>) returns (ghost q: Path)
      requires Valid() && IsFolder(layout, request.parent) && request.parent < CLUSTER_MAP_SIZE
      requires 1 <= i < SLOTS && IsTable(disk.view[request.parent]) && table.Length == SLOTS
      requires var e := disk.view[request.parent].entries[i]; FolderEntry(e, request.name) && e.cluster == cluster
      requires if i == 1 then request.name == DOT_DOT
               else request.name != DOT_DOT
                    && forall j :: 2 <= j < i ==> !FolderEntry(disk.view[request.parent].entries[j], request.name)
      modifies table
      ensures Opens(Order(), layout.owner[request.parent], request.name, q)
              && q in Tree() && Tree()[q] == Directory && Lists(table[..], Tree(), q)
      ensures request.name == DOT_DOT ==> var p := layout.owner[request.parent]; q == if p.Root? then Root else p.parent
    {
      ghost var p := layout.owner[request.parent];
      q := if i == 1 then (if p.Root? then Root else p.parent)
                     else Child(p, KeyOf(disk.view[request.parent].entries[i]));
      ParentFacts(State(), layout, request.parent);
      ParentPointer(State(), layout, p);
      if i != 1 {
        EntryKind(State(), layout, p, i);
        FoundInTable(State(), layout, p, request.name, 2, i);
      }
      ParentFacts(State(), layout, cluster);
      disk.ReadTable(table, cluster);
      forall k
        ensures Child(q, k) in Tree() <==> exists j :: 2 <= j < SLOTS && Matches(table[..][j], k)
      {
        MatchIsChild(State(), layout, q, k);
      }
      forall j | 2 <= j < SLOTS && table[..][j].notEmpty
        ensures Described(table[..][j], Tree(), q)
      {
        EntryDescribed(State(), layout, q, j);
      }
      assert Opens(Order(), p, request.name, q) && Lists(table[..], Tree(), q);
    }

    method ScanFromParent(name: Name) returns (slot: nat, code: int)
      requires dirTableBuf.Length == SLOTS && dirTableBuf[1].notEmpty && dirTableBuf[1].subdirectory
      requires dirTableBuf[1].name == DOT_DOT
      ensures slot != 0 ==>
                1 <= slot < SLOTS && FolderEntry(dirTableBuf[slot], name) && (slot == 1 <==> name == DOT_DOT)
      ensures slot == 0 ==> name != DOT_DOT
      ensures forall j :: 2 <= j < (if slot == 0 then SLOTS else slot) ==> !FolderEntry(dirTableBuf[j], name)
      ensures slot == 0 ==> code == if exists j :: 2 <= j < SLOTS && EntryNamed(dirTableBuf[j], name) then 1 else 2
    {
      code := 2;
      for i := 1 to SLOTS
        invariant forall j :: 1 <= j < i ==> !FolderEntry(dirTableBuf[j], name)
        invariant code == if exists j :: 2 <= j < i && EntryNamed(dirTableBuf[j], name) then 1 else 2
      {
        if !dirTableBuf[i].notEmpty {
          continue;
        }
        if dirTableBuf[i].name == name {
          assert i >= 2 ==> EntryNamed(dirTableBuf[i], name);
          if dirTableBuf[i].subdirectory {
            assert i > 1 ==> !FolderEntry(dirTableBuf[1], name);
            return i, code;
          }
          code := 1;
        }
      }
      assert !FolderEntry(dirTableBuf[1], name);
      return 0, code;
    }

    ghost function ReadDirectoryCode(request: Request): int
      requires Valid() && ParentOk(request.parent)
      reads this, clusterMap, disk, disk.image
    {
      if clusterMap[request.parent] != END_OF_FILE || request.bufferSize != CLUSTER_SIZE then -1
      else
        var p := layout.owner[request.parent];
        if request.name == DOT_DOT || HasFolderNamed(Tree(), p, request.name) then 0
        else if HasChildNamed(Tree(), p, request.name) then 1
        else 2
    }

    // ---- recursive copy -------------------------------------------------------------------

    /** Copies what lies below the folder at `src` into the folder at `dest`, slot by slot.
        Entries the destination refuses are left out. At most `h` levels lie below the source. */
    method CopyFolder(src: uint32, dest: uint32, ghost h: nat) returns (code: int)
      requires Valid() && ParentOk(src) && ParentOk(dest)
      requires clusterMap[src] == END_OF_FILE ==> Copyable(State(), layout, src, dest, h)
      modifies this`layout, clusterMap, dirTableBuf, disk`view, disk.image
      ensures Valid() && code == if old(clusterMap[src]) == END_OF_FILE then 0 else -1
      ensures code != 0 ==> State() == old(State()) && layout == old(layout)
      ensures code == 0 ==> CopiedTo(old(State()), old(layout), State(), layout, src, dest, h)
      ensures code == 0 && IsFolder(old(layout), dest) ==>
                CopyResult(old(Tree()), Tree(), old(layout).owner[src], old(layout).owner[dest])
      ensures code == 0 && IsFolder(old(layout), dest)
              && WholeBetween(old(Tree()), old(layout).owner[src], old(layout).owner[dest]) ==>
                FreeCount(clusterMap[..]) + |BelowSet(old(layout), old(layout).owner[src])| == FreeCount(old(clusterMap[..]))
      ensures h == 0 ==> State() == old(State()) && layout == old(layout)
      decreases h, 1
    {
      hide Inv, SlotTreeOf, TreeOf, Midway, CopyResult, WholeBetween, Copyable, CopiedTo, Bounded, CopyFrom;
      if clusterMap[src] != END_OF_FILE {
        return -1;
      }
      ghost var v0, lay0 := State(), layout;
      CopyBegins(v0, lay0, src, dest, h);
      disk.ReadTable(dirTableBuf, src);
      for i := 2 to SLOTS
        invariant Valid() && ParentOk(dest) && Midway(v0, lay0, State(), layout, src, dest, i, h)
        invariant dirTableBuf[..] == disk.view[src].EntriesOrNone()
        invariant h == 0 ==> State() == v0 && layout == lay0
      {
        if !dirTableBuf[i].notEmpty {
          SkipSlot(v0, lay0, State(), layout, src, dest, i, h);
          continue;
        }
        CopySlot(src, dest, i, h, v0, lay0);
      }
      CopyFinished(v0, lay0, State(), layout, src, dest, h);
      return 0;
    }

    /** The entry in slot `i` of the source is copied; the shared buffer is loaded again. */
    method CopySlot(src: uint32, dest: uint32, i: nat, ghost h: nat, ghost v0: Volume, ghost lay0: Layout)
      requires Valid() && ParentOk(dest) && 2 <= i < SLOTS
      requires Midway(v0, lay0, State(), layout, src, dest, i, h)
      requires dirTableBuf[..] == disk.view[src].EntriesOrNone() && dirTableBuf[i].notEmpty
      modifies this`layout, clusterMap, dirTableBuf, disk`view, disk.image
      ensures Valid() && ParentOk(dest) && Midway(v0, lay0, State(), layout, src, dest, i + 1, h) && h > 0
      ensures dirTableBuf[..] == disk.view[src].EntriesOrNone()
      decreases h, 0
    {
      hide SlotTreeOf, TreeOf, EntryAhead, EntryDone, CopyFrom, CopyEntry, Bounded, OnCourse;
      ghost var v, lay, k := State(), layout, KeyOf(dirTableBuf[i]);
      NextEntry(v0, lay0, v, lay, src, dest, i, h);
      if dirTableBuf[i].subdirectory {
        CopySubfolder(src, dest, i, h);
      } else {
        CopyFileEntry(src, dest, i, h);
      }
      EntryTaken(v0, lay0, v, lay, State(), layout, src, dest, i, k, h);
      disk.ReadTable(dirTableBuf, src);
    }

    /** The file in slot `i` of the source is written to the destination. */
    method CopyFileEntry(src: uint32, dest: uint32, i: nat, ghost h: nat)
      requires Valid() && ParentOk(dest) && 2 <= i < SLOTS && src < CLUSTER_MAP_SIZE
      requires dirTableBuf[..] == disk.view[src].EntriesOrNone()
      requires dirTableBuf[i].notEmpty && !dirTableBuf[i].subdirectory
      requires EntryAhead(State(), layout, src, dest, i, KeyOf(dirTableBuf[i]), h)
      modifies this`layout, clusterMap, dirTableBuf, disk`view, disk.image
      ensures Valid()
      ensures EntryDone(old(State()), old(layout), State(), layout, src, dest, i, old(KeyOf(dirTableBuf[i])), h)
    {
      hide Inv, CopyEntry, EntryDone, Wrote, Put, PutCost;
      ghost var v, lay, k := State(), layout, KeyOf(dirTableBuf[i]);
      var buf, filesize := LoadFile(src, i);
      var req := Request(dirTableBuf[i].name, dirTableBuf[i].ext, dest, filesize);
      FileAhead(v, lay, src, dest, i, k, h, Payload(req, buf[..]));
      var _ := WriteInOrder(req, buf);
      FileDone(v, lay, State(), layout, src, dest, i, k, h, Payload(req, buf[..]));
    }

    /** The folder in slot `i` of the source is made at the destination, without its extension,
        looked up by name, and what is in it copied into what the lookup finds. */
    method CopySubfolder(src: uint32, dest: uint32, i: nat, ghost h: nat)
      requires Valid() && ParentOk(dest) && 2 <= i < SLOTS && src < CLUSTER_MAP_SIZE
      requires dirTableBuf[..] == disk.view[src].EntriesOrNone()
      requires dirTableBuf[i].notEmpty && dirTableBuf[i].subdirectory
      requires EntryAhead(State(), layout, src, dest, i, KeyOf(dirTableBuf[i]), h)
      modifies this`layout, clusterMap, dirTableBuf, disk`view, disk.image
      ensures Valid()
      ensures EntryDone(old(State()), old(layout), State(), layout, src, dest, i, old(KeyOf(dirTableBuf[i])), h)
      decreases h - 1, 4
    {
      hide Inv, SlotTreeOf, TreeOf, Bounded, CopyEntry, FolderMade, EntryDone;
      ghost var v, lay, k := State(), layout, KeyOf(dirTableBuf[i]);
      var currSrcCluster := dirTableBuf[i].cluster;
      var currDestCluster := MakeSubfolder(src, dest, i, h);
      FillSubfolder(src, dest, i, h, currSrcCluster, currDestCluster, v, lay, k);
    }

    /** The folder is made and looked up. */
    method MakeSubfolder(src: uint32, dest: uint32, i: nat, ghost h: nat) returns (c: uint32)
      requires Valid() && ParentOk(dest) && 2 <= i < SLOTS && src < CLUSTER_MAP_SIZE
      requires dirTableBuf[..] == disk.view[src].EntriesOrNone()
      requires dirTableBuf[i].notEmpty && dirTableBuf[i].subdirectory
      requires EntryAhead(State(), layout, src, dest, i, KeyOf(dirTableBuf[i]), h)
      modifies this`layout, clusterMap, dirTableBuf, disk`view, disk.image
      ensures Valid() && ParentOk(c)
      ensures FolderMade(old(State()), old(layout), State(), layout, src, dest, i, old(KeyOf(dirTableBuf[i])), h,
                         old(dirTableBuf[i].cluster), c)
    {
      hide Inv, SlotTreeOf, TreeOf, Bounded, CopyEntry, CopyFrom, Put, PutCost;
      ghost var v, lay, k := State(), layout, KeyOf(dirTableBuf[i]);
      SubfolderEntry(v, lay, src, i);
      var temp := new byte[CLUSTER_SIZE];
      var req := Request(dirTableBuf[i].name, NO_EXT, dest, 0);
      FolderAhead(v, lay, src, dest, i, k, h);
      var _ := WriteInOrder(req, temp);
      c := FindMade(req);
    }

    /** A copy told only by the state it leaves. */
    method CopyNested(src: uint32, dest: uint32, ghost h: nat)
      requires Valid() && ParentOk(src) && ParentOk(dest) && clusterMap[src] == END_OF_FILE
      requires Copyable(State(), layout, src, dest, h)
      modifies this`layout, clusterMap, dirTableBuf, disk`view, disk.image
      ensures Valid() && CopiedTo(old(State()), old(layout), State(), layout, src, dest, h)
      decreases h, 2
    {
      var _ := CopyFolder(src, dest, h);
    }

    /** The nested copy. */
    method FillSubfolder(src: uint32, dest: uint32, i: nat, ghost h: nat, a: uint32, c: uint32,
                         ghost v: Volume, ghost lay: Layout, ghost k: Key)
      requires Valid() && ParentOk(c) && FolderMade(v, lay, State(), layout, src, dest, i, k, h, a, c) && h > 0
      modifies this`layout, clusterMap, dirTableBuf, disk`view, disk.image
      ensures Valid() && EntryDone(v, lay, State(), layout, src, dest, i, k, h)
      decreases h - 1, 3
    {
      hide Inv, SlotTreeOf, TreeOf, EntryAhead, FolderMade, EntryDone, Copyable, CopiedTo, HasSignature, IsFolder;
      ghost var v1, lay1 := State(), layout;
      NestedBegins(v, lay, v1, lay1, src, dest, i, k, h, a, c);
      CopyNested(a, c, h - 1);
      FolderDone(v, lay, v1, lay1, State(), layout, src, dest, i, k, h, a, c);
    }

    /** The cluster of the folder that the copy goes on into; 0 if there is none. */
    method FindMade(req: Request) returns (c: uint32)
      requires Valid() && ParentOk(req.parent)
      modifies dirTableBuf
      ensures Valid() && State() == old(State()) && ParentOk(c)
      ensures Lookup(State(), layout, req.parent, req.name, c)
    {
      if clusterMap[req.parent] != END_OF_FILE && IsFolder(layout, req.parent) {
        ParentFacts(State(), layout, req.parent);
      }
      c := GetClusterNumber(req);
      if c != 0 {
        ParentFacts(State(), layout, c);
      } else if IsFolder(layout, 0) {
        ParentFacts(State(), layout, 0);
      }
    }

    /** A write, told by the slots of the tree. */
    method WriteInOrder(req: Request, buf: array<byte>) returns (code: int)
      requires Valid() && ParentOk(req.parent) && Separate(buf) && Span(ClustersFor(req.bufferSize)) <= buf.Length
      requires IsFolder(layout, req.parent) ==>
                 PutCost(Order(), layout.owner[req.parent], req.FullName(), Payload(req, buf[..])) <= FreeCount(clusterMap[..])
      modifies this`layout, clusterMap, dirTableBuf, disk`view, disk.image
      ensures Valid() && ParentOk(req.parent) && code == old(WriteCode(req))
      ensures code != 0 ==> State() == old(State()) && layout == old(layout)
      ensures code == 0 ==> IsFolder(old(layout), req.parent)
                            && Placed(old(clusterMap[..]), old(layout), layout, Child(old(layout).owner[req.parent], req.FullName()))
      ensures Wrote(old(State()), old(layout), State(), layout, req.parent, req.FullName(), Payload(req, buf[..]))
    {
      ghost var v, lay := State(), layout;
      if clusterMap[req.parent] == END_OF_FILE {
        PutAhead(v, lay, req, buf[..]);
      } else if IsFolder(layout, req.parent) {
        ParentFacts(v, lay, req.parent);
      }
      code := Write(req, buf);
      PutDone(v, lay, State(), layout, req, buf[..], code == 0);
    }
  }
}
