/** The tree with the slot of every entry: what a copy of a folder reads and writes, since it goes
    through the source slot by slot, fills the first clear slot of the destination, and finds a
    folder by the first slot that has its name. */
module SlotTrees {
  import opened Codec
  import opened Options
  import opened Paths
  import opened Volumes
  import opened Insertion
  import opened Removal
  import opened FreeSpace
  import opened Allocation
  import opened WriteOutcome
  import opened Occupancy
  import opened Copying

  datatype Item = Item(slot: nat, content: Content)
  type SlotTree = map<Path, Item>

  ghost function SlotTreeOf(v: Volume, lay: Layout): SlotTree {
    map p | p in lay.nodes :: Item(lay.nodes[p].slot, ContentOf(v.disk, lay.nodes[p]))
  }

  /** The tree without the slots. */
  ghost function Contents(o: SlotTree): Tree {
    map p | p in o :: o[p].content
  }

  lemma ContentsOf(v: Volume, lay: Layout)
    ensures Contents(SlotTreeOf(v, lay)) == TreeOf(v, lay)
  {
  }

  ghost predicate IsDir(o: SlotTree, p: Path) {
    p in o && o[p].content == Directory
  }

  /** Entries lie in folders, and each has a slot of its own there. */
  ghost predicate Sound(o: SlotTree) {
    && IsDir(o, Root)
    && (forall p, k :: Child(p, k) in o ==> IsDir(o, p) && 2 <= o[Child(p, k)].slot < SLOTS)
    && (forall p, j, k :: Clash(o, p, j, k) ==> j == k)
  }

  ghost predicate Clash(o: SlotTree, p: Path, j: Key, k: Key) {
    Child(p, j) in o && Child(p, k) in o && o[Child(p, j)].slot == o[Child(p, k)].slot
  }

  lemma SlotTreeSound(v: Volume, lay: Layout)
    requires Inv(v, lay)
    ensures Sound(SlotTreeOf(v, lay))
  {
    forall p, j, k | Clash(SlotTreeOf(v, lay), p, j, k)
      ensures j == k
    {
      SameSlot(v, lay, p, j, k);
    }
  }

  /** The two agree on `s` and all that is below it. */
  ghost predicate SameUnder(o: SlotTree, o': SlotTree, s: Path) {
    forall q :: Under(s, q) ==> (q in o <==> q in o') && (q in o ==> o[q] == o'[q])
  }

  // ---- slots --------------------------------------------------------------------------------

  ghost predicate Vacant(o: SlotTree, p: Path, i: nat) {
    forall k :: Child(p, k) in o ==> o[Child(p, k)].slot != i
  }

  /** The entry in slot `i` of folder `p`. */
  ghost function KeyAt(o: SlotTree, p: Path, i: nat): (r: Option<Key>)
    ensures r.Some? ==> Child(p, r.value) in o && o[Child(p, r.value)].slot == i
    ensures r.None? <==> Vacant(o, p, i)
  {
    if Vacant(o, p, i) then None
    else
      var k :| Child(p, k) in o && o[Child(p, k)].slot == i;
      Some(k)
  }

  lemma KeyAtIs(o: SlotTree, p: Path, k: Key)
    requires Sound(o) && Child(p, k) in o
    ensures KeyAt(o, p, o[Child(p, k)].slot) == Some(k)
  {
    var i := o[Child(p, k)].slot;
    assert !Vacant(o, p, i);
    assert Clash(o, p, k, KeyAt(o, p, i).value);
  }

  /** A used slot, read as a child of its folder. */
  lemma EntryKind(v: Volume, lay: Layout, p: Path, i: nat)
    requires Inv(v, lay) && p in lay.nodes && lay.nodes[p].Folder? && 2 <= i < SLOTS
    ensures lay.nodes[p].cluster < CLUSTER_MAP_SIZE && IsTable(v.disk[lay.nodes[p].cluster])
    ensures var e := v.disk[lay.nodes[p].cluster].entries[i];
      e.notEmpty ==>
        var q := Child(p, KeyOf(e));
        && q in lay.nodes && lay.nodes[q].slot == i && (e.subdirectory <==> lay.nodes[q].Folder?)
        && (lay.nodes[q].Folder? ==> e.cluster == lay.nodes[q].cluster && IsFolder(lay, e.cluster) && lay.owner[e.cluster] == q)
        && (lay.nodes[q].File? ==>
              e.filesize == lay.nodes[q].size > 0 && lay.nodes[q].chain != [] && e.cluster == lay.nodes[q].chain[0])
  {
    SlotIsChild(v, lay, p, i);
    var e := v.disk[lay.nodes[p].cluster].entries[i];
    if e.notEmpty {
      var q := Child(p, KeyOf(e));
      assert NodeOk(v, lay.nodes, q);
      assert lay.nodes[q].Folder? ==> lay.nodes[q].Has(e.cluster);
      if lay.nodes[q].File? {
        ClustersCover(lay.nodes[q].size);
      }
    }
  }

  /** What a slot of a table holds is what the tree has there. */
  lemma SlotKey(v: Volume, lay: Layout, p: Path, i: nat)
    requires Inv(v, lay) && p in lay.nodes && lay.nodes[p].Folder? && 2 <= i < SLOTS
    ensures lay.nodes[p].cluster < CLUSTER_MAP_SIZE && IsTable(v.disk[lay.nodes[p].cluster])
    ensures var e := v.disk[lay.nodes[p].cluster].entries[i];
      KeyAt(SlotTreeOf(v, lay), p, i) == if e.notEmpty then Some(KeyOf(e)) else None
  {
    SlotIsChild(v, lay, p, i);
    SlotTreeSound(v, lay);
    var e, o := v.disk[lay.nodes[p].cluster].entries[i], SlotTreeOf(v, lay);
    if e.notEmpty {
      KeyAtIs(o, p, KeyOf(e));
    } else {
      forall k | Child(p, k) in o
        ensures o[Child(p, k)].slot != i
      {
        ChildHasSlot(v, lay, p, k);
      }
    }
  }

  /** Trees that agree on a folder hold the same in its slots. */
  lemma SameKeyAt(o: SlotTree, o': SlotTree, p: Path, i: nat)
    requires Sound(o) && Sound(o') && SameUnder(o, o', p)
    ensures KeyAt(o, p, i) == KeyAt(o', p, i)
  {
    forall k
      ensures Under(p, Child(p, k))
    {
    }
    if KeyAt(o, p, i).Some? {
      KeyAtIs(o', p, KeyAt(o, p, i).value);
    } else {
      assert Vacant(o', p, i);
    }
  }

  /** The first clear slot from `i` on; `SLOTS` if there is none. */
  ghost function NextVacant(o: SlotTree, p: Path, i: nat): (j: nat)
    requires i <= SLOTS
    ensures i <= j <= SLOTS && (j < SLOTS ==> Vacant(o, p, j))
    ensures forall x :: i <= x < j ==> !Vacant(o, p, x)
    decreases SLOTS - i
  {
    if i == SLOTS || Vacant(o, p, i) then i else NextVacant(o, p, i + 1)
  }

  /** A write: the entry takes the first clear slot, unless its name is taken or the table full. */
  ghost function Put(o: SlotTree, p: Path, k: Key, c: Content): SlotTree {
    var i := NextVacant(o, p, 2);
    if Child(p, k) in o || i == SLOTS then o else o[Child(p, k) := Item(i, c)]
  }

  /** The first folder from slot `i` on that has this name, whatever its extension. */
  ghost function FolderFrom(o: SlotTree, p: Path, name: Name, i: nat): (r: Option<Path>)
    requires i <= SLOTS
    ensures r.Some? ==> r.value.Child? && r.value.parent == p && r.value.key.name == name && IsDir(o, r.value)
                        && o[r.value].slot >= i
    decreases SLOTS - i
  {
    if i == SLOTS then None
    else
      var k := KeyAt(o, p, i);
      if k.Some? && k.value.name == name && IsDir(o, Child(p, k.value)) then Some(Child(p, k.value))
      else FolderFrom(o, p, name, i + 1)
  }

  /** What a lookup by name finds. */
  ghost function FolderNamed(o: SlotTree, p: Path, name: Name): Option<Path> {
    FolderFrom(o, p, name, 2)
  }

  /** Unfolding the search at a slot and after the last one. */
  lemma FolderFromStep(o: SlotTree, p: Path, name: Name, i: nat)
    requires i < SLOTS
    ensures var k := KeyAt(o, p, i);
      FolderFrom(o, p, name, i) ==
      if k.Some? && k.value.name == name && IsDir(o, Child(p, k.value)) then Some(Child(p, k.value))
      else FolderFrom(o, p, name, i + 1)
  {
  }

  lemma FolderFromEnd(o: SlotTree, p: Path, name: Name)
    ensures FolderFrom(o, p, name, SLOTS) == None
  {
  }

  /** It is the folder with the name that sits in the lowest slot. */
  lemma {:induction false} FolderFromFirst(o: SlotTree, p: Path, name: Name, i: nat, k: Key)
    requires Sound(o) && i <= SLOTS && IsDir(o, Child(p, k)) && k.name == name && o[Child(p, k)].slot >= i
    ensures FolderFrom(o, p, name, i).Some?
    ensures var q := FolderFrom(o, p, name, i).value; o[q].slot <= o[Child(p, k)].slot
    decreases SLOTS - i
  {
    KeyAtIs(o, p, k);
    if o[Child(p, k)].slot != i {
      FolderFromFirst(o, p, name, i + 1, k);
    }
  }

  /** A folder is found exactly when no other folder with its name sits in an earlier slot. */
  lemma FoundWhenFirst(o: SlotTree, p: Path, k: Key)
    requires Sound(o) && IsDir(o, Child(p, k))
    ensures FolderNamed(o, p, k.name).Some?
    ensures FolderNamed(o, p, k.name) == Some(Child(p, k)) <==>
            forall j: Key :: j.name == k.name && IsDir(o, Child(p, j)) ==> o[Child(p, k)].slot <= o[Child(p, j)].slot
  {
    FolderFromFirst(o, p, k.name, 2, k);
    var q := FolderNamed(o, p, k.name).value;
    forall j: Key | j.name == k.name && IsDir(o, Child(p, j))
      ensures o[q].slot <= o[Child(p, j)].slot
    {
      FolderFromFirst(o, p, k.name, 2, j);
    }
    assert q == Child(p, q.key);
    assert Clash(o, p, k, q.key) <==> o[q].slot == o[Child(p, k)].slot;
  }

  // ---- growth -------------------------------------------------------------------------------

  /** Entries were only added, below `d`, no deeper than `h` under it, and the folders among them
      have no extension. */
  ghost predicate Grown(o: SlotTree, o': SlotTree, d: Path, h: nat) {
    && (forall p :: p in o ==> p in o' && o'[p] == o[p])
    && (forall p :: p in o' && p !in o ==>
          Under(d, p) && p != d && Depth(p) <= Depth(d) + h && (o'[p].content == Directory ==> p.key.ext == NO_EXT))
  }

  lemma GrownOn(o: SlotTree, o1: SlotTree, o2: SlotTree, d: Path, c: Path, h: nat, h1: nat)
    requires Grown(o, o1, d, h) && Grown(o1, o2, c, h1) && Under(d, c) && Depth(c) + h1 <= Depth(d) + h
    ensures Grown(o, o2, d, h)
  {
    forall p | p in o2 && p !in o
      ensures Under(d, p) && p != d && Depth(p) <= Depth(d) + h && (o2[p].content == Directory ==> p.key.ext == NO_EXT)
    {
      if p !in o1 {
        UnderTransitive(d, c, p);
        UnderDepth(d, c);
        UnderDepth(c, p);
      }
    }
  }

  lemma PutSound(o: SlotTree, p: Path, k: Key, c: Content)
    requires Sound(o) && IsDir(o, p)
    ensures Sound(Put(o, p, k, c))
    ensures (c == Directory ==> k.ext == NO_EXT) ==> Grown(o, Put(o, p, k, c), p, 1)
  {
    var q, o1 := Child(p, k), Put(o, p, k, c);
    UnderDepth(p, q);
    assert Under(p, q);
    forall r, i, j | Clash(o1, r, i, j)
      ensures i == j
    {
      assert Clash(o, r, i, j) <==> Child(r, i) in o && Child(r, j) in o;
    }
    forall r, j | Child(r, j) in o1
      ensures IsDir(o1, r) && 2 <= o1[Child(r, j)].slot < SLOTS
    {
      assert IsDir(o, r);
    }
  }

  /** The way down to an entry goes through entries. */
  lemma {:induction false} StepInOrder(o: SlotTree, p: Path, q: Path)
    requires Sound(o) && q in o && Under(p, q) && q != p
    ensures Step(p, q) in o
  {
    assert Child(q.parent, q.key) in o;
    if q.parent != p {
      StepInOrder(o, p, q.parent);
    }
  }

  /** What is apart from where a tree grew is as it was. */
  lemma ApartGrown(o: SlotTree, o': SlotTree, s: Path, d: Path, h: nat)
    requires Grown(o, o', d, h) && Apart(s, d)
    ensures SameUnder(o', o, s)
  {
    forall q | Under(s, q)
      ensures !Under(d, q)
    {
      ApartBelow(s, d, q);
    }
  }

  // ---- what the driver's calls do ------------------------------------------------------------

  /** The clusters that a write takes. */
  ghost function PutCost(o: SlotTree, p: Path, k: Key, c: Content): nat {
    if Put(o, p, k, c) == o then 0 else ClustersOf(c)
  }

  function ClustersOf(c: Content): nat {
    match c
    case Directory => 1
    case Document(data) => ClustersFor(|data|)
  }

  /** The first clear slot of the table is the first vacant one of the tree. */
  lemma FirstVacant(v: Volume, lay: Layout, p: Path)
    requires Inv(v, lay) && p in lay.nodes && lay.nodes[p].Folder?
    ensures lay.nodes[p].cluster < CLUSTER_MAP_SIZE && IsTable(v.disk[lay.nodes[p].cluster])
    ensures var t, j := v.disk[lay.nodes[p].cluster].entries, NextVacant(SlotTreeOf(v, lay), p, 2);
      && (TableFull(t) <==> j == SLOTS)
      && forall i :: FirstClear(t, i) ==> i == j
  {
    hide SlotTreeOf, Vacant;
    assert NodeOk(v, lay.nodes, p);
    forall i | 2 <= i < SLOTS
      ensures Vacant(SlotTreeOf(v, lay), p, i) <==> !v.disk[lay.nodes[p].cluster].entries[i].notEmpty
    {
      SlotKey(v, lay, p, i);
    }
  }

  /** A stored request is a write in the tree. */
  lemma StoredIsPut(v: Volume, lay: Layout, v': Volume, lay': Layout, req: Request, data: seq<byte>)
    requires Inv(v, lay) && IsFolder(lay, req.parent) && Child(lay.owner[req.parent], req.FullName()) !in lay.nodes
    requires Stored(v, lay, v', lay', req, data) && StoredFirst(v, lay, lay', req)
    ensures SlotTreeOf(v', lay') == Put(SlotTreeOf(v, lay), lay.owner[req.parent], req.FullName(), Payload(req, data))
    ensures SlotTreeOf(v', lay') != SlotTreeOf(v, lay)
  {
    hide NextVacant, Inv, TreeOf, SlotTreeOf;
    var q := Child(lay.owner[req.parent], req.FullName());
    ParentFacts(v, lay, req.parent);
    FirstVacant(v, lay, lay.owner[req.parent]);
    InsertedOrder(v, lay, v', lay', q, Payload(req, data));
  }

  lemma InsertedOrder(v: Volume, lay: Layout, v': Volume, lay': Layout, q: Path, c: Content)
    requires q !in lay.nodes && q in lay'.nodes && lay'.nodes == lay.nodes[q := lay'.nodes[q]]
    requires TreeOf(v', lay') == TreeOf(v, lay)[q := c]
    ensures q !in SlotTreeOf(v, lay)
    ensures SlotTreeOf(v', lay') == SlotTreeOf(v, lay)[q := Item(lay'.nodes[q].slot, c)]
  {
    forall r | r in lay'.nodes
      ensures ContentOf(v'.disk, lay'.nodes[r]) == if r == q then c else ContentOf(v.disk, lay.nodes[r])
    {
      assert TreeOf(v', lay')[r] == TreeOf(v, lay)[q := c][r];
    }
  }

  /** A refused request changes nothing in the tree either. */
  lemma RefusedIsPut(v: Volume, lay: Layout, p: Path, k: Key, c: Content)
    requires Inv(v, lay) && p in lay.nodes && lay.nodes[p].Folder?
    requires Child(p, k) in lay.nodes || Crowded(TreeOf(v, lay), p)
    ensures Put(SlotTreeOf(v, lay), p, k, c) == SlotTreeOf(v, lay)
  {
    CrowdedTable(v, lay, p);
    FirstVacant(v, lay, p);
  }

  /** The tree without `p` and everything below it. */
  ghost function Without(o: SlotTree, p: Path): SlotTree {
    map q | q in o && !Under(p, q) :: o[q]
  }

  /** A deletion takes a subtree out and leaves every slot as it was. */
  lemma PrunedIsWithout(v: Volume, lay: Layout, v': Volume, q: Path)
    requires TreeOf(v', Pruned(lay, q)) == RemoveTree(TreeOf(v, lay), q)
    ensures SlotTreeOf(v', Pruned(lay, q)) == Without(SlotTreeOf(v, lay), q)
  {
    forall r | r in Pruned(lay, q).nodes
      ensures SlotTreeOf(v', Pruned(lay, q))[r] == SlotTreeOf(v, lay)[r]
    {
      assert TreeOf(v', Pruned(lay, q))[r] == TreeOf(v, lay)[r];
    }
  }

  lemma WithoutSound(o: SlotTree, p: Path)
    requires Sound(o) && p != Root
    ensures Sound(Without(o, p))
    ensures forall q :: IsDir(o, q) && !Under(p, q) ==> IsDir(Without(o, p), q)
  {
    var o1 := Without(o, p);
    forall q, k | Child(q, k) in o1
      ensures IsDir(o1, q) && 2 <= o1[Child(q, k)].slot < SLOTS
    {
      assert Child(q, k) in o && IsDir(o, q);
    }
    forall q, j, k | Clash(o1, q, j, k)
      ensures j == k
    {
      assert Clash(o, q, j, k);
    }
  }
}
