/** Laws of pairs of driver calls: what one call writes another reads back, what one makes
    another undoes, and what a completed call leaves behind survives a new start. */
module Laws {
  import opened Codec
  import opened Paths
  import opened Volumes
  import opened FreeSpace
  import opened Insertion
  import opened Removal
  import opened WriteOutcome
  import opened Erasure
  import opened Options
  import opened SlotTrees
  import opened BlockDisk
  import opened Fat32

  /** The file or folder can be stored: its parent is a folder with room, the name is free there,
      and there are clusters for it. */
  ghost predicate Storable(d: Driver, req: Request)
    requires d.Valid()
    reads d, d.clusterMap, d.disk, d.disk.image
  {
    IsFolder(d.layout, req.parent) && d.ParentOk(req.parent) && d.WriteCode(req) == 0
    && Needed(req) <= FreeCount(d.clusterMap[..])
  }

  /** A file reads back as it was written, whatever the free clusters it landed in, and another
      file reads as it did before. */
  method WriteThenRead(d: Driver, req: Request, data: array<byte>, out: array<byte>)
    requires d.Valid() && Storable(d, req) && req.bufferSize > 0 && data != out
    requires d.Separate(data) && Span(ClustersFor(req.bufferSize)) <= data.Length
    requires d.Separate(out) && Span(ClustersFor(req.bufferSize)) <= out.Length
    modifies d`layout, d.clusterMap, d.dirTableBuf, d.disk`view, d.disk.image, out
    ensures d.Valid() && out[..req.bufferSize] == data[..req.bufferSize]
    ensures forall q :: q in old(d.Tree()) ==> q in d.Tree() && d.Tree()[q] == old(d.Tree())[q]
  {
    hide Inv, TreeOf, WithNode;
    ghost var q := Child(d.layout.owner[req.parent], req.FullName());
    StoreFrom(d, req, data);
    assert IsDocument(d.Tree(), q);
    var code := d.Read(req, out);
    assert code == 0;
  }

  /** The write, told by the tree and the layout it leaves. */
  method StoreFrom(d: Driver, req: Request, data: array<byte>)
    requires d.Valid() && Storable(d, req)
    requires d.Separate(data) && Span(ClustersFor(req.bufferSize)) <= data.Length
    modifies d`layout, d.clusterMap, d.dirTableBuf, d.disk`view, d.disk.image
    ensures d.Valid() && IsFolder(d.layout, req.parent) && d.ParentOk(req.parent)
    ensures d.clusterMap[req.parent] == END_OF_FILE
    ensures d.layout.owner[req.parent] == old(d.layout).owner[req.parent]
    ensures var q := Child(d.layout.owner[req.parent], req.FullName());
      && q !in old(d.Tree()) && d.Tree() == old(d.Tree())[q := Payload(req, data[..])]
      && q in d.layout.nodes && d.layout == WithNode(old(d.layout), q, d.layout.nodes[q])
  {
    ghost var lay := d.layout;
    ParentFacts(d.State(), lay, req.parent);
    var _ := d.Write(req, data);
    StoredKeepsParent(lay, d.State(), d.layout, req);
  }

  lemma StoredKeepsParent(lay: Layout, v: Volume, lay': Layout, req: Request)
    requires Inv(v, lay') && IsFolder(lay, req.parent) && Owned(lay)
    requires forall q :: q in lay.nodes ==> q in lay'.nodes && lay'.nodes[q] == lay.nodes[q]
    ensures IsFolder(lay', req.parent) && lay'.owner[req.parent] == lay.owner[req.parent]
    ensures req.parent < CLUSTER_MAP_SIZE && v.fat[req.parent] == END_OF_FILE
  {
    assert lay.nodes[lay.owner[req.parent]].Has(req.parent);
    assert lay'.nodes[lay.owner[req.parent]].Has(req.parent);
    ParentFacts(v, lay', req.parent);
  }

  /** Deleting what was just written brings back the tree and the free clusters. */
  method WriteThenDelete(d: Driver, req: Request, data: array<byte>)
    requires d.Valid() && Storable(d, req)
    requires d.Separate(data) && Span(ClustersFor(req.bufferSize)) <= data.Length
    modifies d`layout, d.clusterMap, d.dirTableBuf, d.disk`view, d.disk.image
    ensures d.Valid() && d.Tree() == old(d.Tree())
    ensures FreeCount(d.clusterMap[..]) == FreeCount(old(d.clusterMap[..]))
  {
    ghost var v, lay := d.State(), d.layout;
    ghost var q := Child(lay.owner[req.parent], req.FullName());
    StoreFrom(d, req, data);
    PruneUndoesAdd(lay, q, d.layout.nodes[q]);
    RemoveUndoesInsert(v, lay, q, Payload(req, data[..]));
    var _ := d.Delete(req);
    Conservation(v, lay);
    Conservation(d.State(), d.layout);
  }

  /** The same request again is refused because the name is taken, and changes nothing. */
  method WriteTwice(d: Driver, req: Request, data: array<byte>, again: array<byte>) returns (code: int)
    requires d.Valid() && Storable(d, req)
    requires d.Separate(data) && Span(ClustersFor(req.bufferSize)) <= data.Length
    requires d.Separate(again) && Span(ClustersFor(req.bufferSize)) <= again.Length
    modifies d`layout, d.clusterMap, d.dirTableBuf, d.disk`view, d.disk.image
    ensures d.Valid() && code == 1
    ensures d.Tree() == old(d.Tree()[Child(d.layout.owner[req.parent], Key(req.name, req.ext)) := Payload(req, data[..])])
  {
    hide Inv, TreeOf, WithNode;
    StoreFrom(d, req, data);
    code := d.Write(req, again);
  }

  /** Every folder with the name sits in a slot after the one that a new entry takes. */
  ghost predicate NewIsFirst(o: SlotTree, p: Path, name: Name) {
    forall ext: Ext :: IsDir(o, Child(p, Key(name, ext))) ==> NextVacant(o, p, 2) < o[Child(p, Key(name, ext))].slot
  }

  /** A folder just made is opened by its name and lists nothing, if no other folder beside it with
      the name sits in a slot before the one it takes. */
  method MakeThenList(d: Driver, req: Request, data: array<byte>, table: array<DirEntry>) returns (code: int)
    requires d.Valid() && Storable(d, req) && req.bufferSize == 0 && req.name != DOT_DOT && d.Separate(data)
    requires table.Length == SLOTS && table != d.dirTableBuf
    modifies d`layout, d.clusterMap, d.dirTableBuf, d.disk`view, d.disk.image, table
    ensures d.Valid() && code == 0
    ensures old(NewIsFirst(d.Order(), d.layout.owner[req.parent], req.name)) ==>
              forall i :: 2 <= i < SLOTS ==> !table[i].notEmpty
  {
    hide Inv, TreeOf, SlotTreeOf, Put, FolderNamed, NewIsFirst;
    ghost var v, lay, p := d.State(), d.layout, d.layout.owner[req.parent];
    StoreInOrder(d, req, data);
    MadeFolderFound(v, lay, d.State(), d.layout, p, Key(req.name, req.ext));
    MadeFolderEmpty(v, lay, d.State(), d.layout, Child(p, Key(req.name, req.ext)));
    code := d.ReadDirectory(Request(req.name, req.ext, req.parent, CLUSTER_SIZE), table);
  }

  /** The write of a folder, told by the slots of the tree it leaves. */
  method StoreInOrder(d: Driver, req: Request, data: array<byte>)
    requires d.Valid() && Storable(d, req) && req.bufferSize == 0 && d.Separate(data)
    modifies d`layout, d.clusterMap, d.dirTableBuf, d.disk`view, d.disk.image
    ensures d.Valid() && IsFolder(d.layout, req.parent) && d.ParentOk(req.parent)
    ensures d.clusterMap[req.parent] == END_OF_FILE
    ensures var p := old(d.layout).owner[req.parent];
      && d.layout.owner[req.parent] == p && Child(p, Key(req.name, req.ext)) !in old(d.layout).nodes
      && d.Order() == Put(old(d.Order()), p, Key(req.name, req.ext), Directory) && d.Order() != old(d.Order())
  {
    hide SlotTreeOf, Put;
    ghost var v, lay := d.State(), d.layout;
    ParentFacts(v, lay, req.parent);
    var _ := d.Write(req, data);
    StoredKeepsParent(lay, d.State(), d.layout, req);
    StoredIsPut(v, lay, d.State(), d.layout, req, []);
  }

  /** The lookup finds the new folder if it is the first of its name. */
  lemma MadeFolderFound(v: Volume, lay: Layout, v': Volume, lay': Layout, p: Path, k: Key)
    requires Inv(v, lay) && Inv(v', lay') && Child(p, k) !in lay.nodes
    requires SlotTreeOf(v', lay') == Put(SlotTreeOf(v, lay), p, k, Directory) && SlotTreeOf(v', lay') != SlotTreeOf(v, lay)
    ensures Child(p, k) in TreeOf(v', lay') && TreeOf(v', lay')[Child(p, k)] == Directory
    ensures NewIsFirst(SlotTreeOf(v, lay), p, k.name) ==> FolderNamed(SlotTreeOf(v', lay'), p, k.name) == Some(Child(p, k))
  {
    hide NextVacant, FolderNamed, SlotTreeOf;
    var o, o' := SlotTreeOf(v, lay), SlotTreeOf(v', lay');
    SlotTreeSound(v', lay');
    ContentsOf(v', lay');
    assert o'[Child(p, k)].content == Directory && Contents(o')[Child(p, k)] == Directory;
    FoundWhenFirst(o', p, k);
    forall j: Key | NewIsFirst(o, p, k.name) && j.name == k.name && IsDir(o', Child(p, j))
      ensures o'[Child(p, k)].slot <= o'[Child(p, j)].slot
    {
      assert j == Key(k.name, j.ext);
    }
  }

  lemma MadeFolderEmpty(v: Volume, lay: Layout, v': Volume, lay': Layout, q: Path)
    requires Inv(v, lay) && q.Child? && q !in lay.nodes
    requires SlotTreeOf(v', lay') == Put(SlotTreeOf(v, lay), q.parent, q.key, Directory)
    ensures forall k :: Child(q, k) !in TreeOf(v', lay')
  {
    hide NextVacant;
    NothingBelow(lay, q);
    forall k
      ensures Child(q, k) !in TreeOf(v', lay')
    {
      assert Under(q, Child(q, k));
      UnderDepth(q, Child(q, k));
      assert Child(q, k) in TreeOf(v', lay') <==> Child(q, k) in SlotTreeOf(v', lay');
    }
  }

  /** Nothing lies below a path that is not there. */
  lemma NothingBelow(lay: Layout, q: Path)
    requires TreeShaped(lay.nodes) && q !in lay.nodes
    ensures forall r :: r in lay.nodes ==> !Under(q, r)
  {
    forall r | r in lay.nodes
      ensures !Under(q, r)
    {
      if Under(q, r) {
        AncestorStays(lay, q, r);
      }
    }
  }

  /** Pruning a node that was just added brings back the layout. */
  lemma PruneUndoesAdd(lay: Layout, q: Path, n: Node)
    requires TreeShaped(lay.nodes) && Owned(lay) && q !in lay.nodes && Owned(WithNode(lay, q, n))
    ensures Pruned(WithNode(lay, q, n), q) == lay
  {
    var more := WithNode(lay, q, n);
    NothingBelow(lay, q);
    forall c | c in lay.owner
      ensures more.owner[c] == lay.owner[c] && !Under(q, lay.owner[c])
    {
      AddKeepsOwner(lay, q, n, c);
    }
    assert Pruned(more, q).nodes == lay.nodes;
    assert Pruned(more, q).owner == lay.owner;
  }

  lemma AddKeepsOwner(lay: Layout, q: Path, n: Node, c: uint32)
    requires Owned(lay) && q !in lay.nodes && Owned(WithNode(lay, q, n)) && c in lay.owner
    ensures WithNode(lay, q, n).owner[c] == lay.owner[c] && lay.owner[c] in lay.nodes
  {
    assert WithNode(lay, q, n).nodes[lay.owner[c]].Has(c);
  }

  /** Taking out of a tree what was just put in. */
  lemma RemoveUndoesInsert(v: Volume, lay: Layout, q: Path, c: Content)
    requires Inv(v, lay) && q !in lay.nodes
    ensures Removable(TreeOf(v, lay)[q := c], q) && RemoveTree(TreeOf(v, lay)[q := c], q) == TreeOf(v, lay)
  {
    NothingBelow(lay, q);
    forall k
      ensures Child(q, k) !in TreeOf(v, lay)[q := c]
    {
      assert Under(q, Child(q, k));
      UnderDepth(q, Child(q, k));
    }
  }

  /** A new start on the disk of a running driver finds the tree the driver had. */
  method Remount(d: Driver, rootName: Name) returns (restarted: Driver)
    requires d.Valid()
    modifies d.disk`view, d.disk.image
    ensures restarted.Valid() && restarted.disk == d.disk && restarted.Tree() == old(d.Tree())
  {
    ghost var v := d.State();
    assert HoldsVolume(d.disk.view) by {
      AllFit(d.disk.image[..], d.disk.view);
      assert Vol(d.disk.view[FAT_CLUSTER].clusterMap, d.disk.view) == v;
    }
    AllFit(d.disk.image[..], d.disk.view);
    Driver.SameTree(v, d.layout);
    restarted := new Driver.Mount(d.disk, rootName);
  }
}
