/** Erasing a subtree cluster by cluster, child by child. */
module Erasure {
  import opened Codec
  import opened Sets
  import opened Paths
  import opened Volumes
  import opened Removal
  import opened FreeSpace

  ghost predicate Structured(lay: Layout) {
    TreeShaped(lay.nodes) && Owned(lay)
  }

  /** The clusters at `p` and below it. */
  ghost function UnderSet(lay: Layout, p: Path): set<uint32> {
    set c | c in lay.owner && Under(p, lay.owner[c])
  }

  /** From `v` to `v'` the clusters under `p` are freed and zeroed; the rest is the same. */
  ghost predicate Erased(v: Volume, v': Volume, lay: Layout, p: Path) {
    forall c: uint32 :: c < CLUSTER_MAP_SIZE ==>
      && v'.fat[c] == (if OwnedUnder(lay, p, c) then EMPTY_ENTRY else v.fat[c])
      && v'.disk[c] == (if OwnedUnder(lay, p, c) then ZeroCluster() else v.disk[c])
  }

  /** Does `c` lie under a child of `p` in a slot below `i`? */
  ghost predicate Done(lay: Layout, p: Path, i: nat, c: uint32) {
    && OwnedUnder(lay, p, c) && lay.owner[c] != p
    && Step(p, lay.owner[c]) in lay.nodes && lay.nodes[Step(p, lay.owner[c])].slot < i
  }

  /** The children of `p` in the slots below `i` are erased, and nothing else is. */
  ghost predicate ErasedBelow(v: Volume, v': Volume, lay: Layout, p: Path, i: nat) {
    forall c: uint32 :: c < CLUSTER_MAP_SIZE ==>
      && v'.fat[c] == (if Done(lay, p, i, c) then EMPTY_ENTRY else v.fat[c])
      && v'.disk[c] == (if Done(lay, p, i, c) then ZeroCluster() else v.disk[c])
  }

  /** The way down to a node goes through nodes. */
  lemma {:induction false} StepInNodes(lay: Layout, p: Path, q: Path)
    requires TreeShaped(lay.nodes) && q in lay.nodes && Under(p, q) && q != p
    ensures Step(p, q) in lay.nodes
  {
    assert Child(q.parent, q.key) in lay.nodes;
    if q.parent != p {
      StepInNodes(lay, p, q.parent);
    }
  }

  /** Nothing lies below a file. */
  lemma {:induction false} FileHasNoChildren(lay: Layout, q: Path, r: Path)
    requires TreeShaped(lay.nodes) && q in lay.nodes && lay.nodes[q].File?
    requires Under(q, r) && r in lay.nodes
    ensures r == q
  {
    if r != q {
      assert Child(r.parent, r.key) in lay.nodes;
      FileHasNoChildren(lay, q, r.parent);
    }
  }

  lemma FileOwns(lay: Layout, q: Path, c: uint32)
    requires Structured(lay) && q in lay.nodes && lay.nodes[q].File?
    ensures OwnedUnder(lay, q, c) <==> c in lay.nodes[q].chain
  {
    if OwnedUnder(lay, q, c) {
      FileHasNoChildren(lay, q, lay.owner[c]);
    }
    if c in lay.nodes[q].chain {
      assert lay.nodes[q].Has(c);
    }
  }

  /** Erasure advances by one slot: what is done grows by what lies under that slot's child. */
  lemma DoneNext(v: Volume, lay: Layout, p: Path, i: nat, c: uint32)
    requires Structured(lay) && p in lay.nodes && lay.nodes[p].Folder? && 2 <= i < SLOTS
    requires NodeOk(v, lay.nodes, p)
    requires forall k {:trigger Linked(v, lay.nodes, p, k)} :: Child(p, k) in lay.nodes ==> Linked(v, lay.nodes, p, k)
    ensures lay.nodes[p].cluster < CLUSTER_MAP_SIZE && IsTable(v.disk[lay.nodes[p].cluster])
    ensures var e := v.disk[lay.nodes[p].cluster].entries[i];
      Done(lay, p, i + 1, c) <==> Done(lay, p, i, c) || (e.notEmpty && OwnedUnder(lay, Child(p, KeyOf(e)), c))
  {
    var e := v.disk[lay.nodes[p].cluster].entries[i];
    assert SlotOk(lay.nodes, p, e, i);
    var q := Child(p, KeyOf(e));
    if Done(lay, p, i + 1, c) && !Done(lay, p, i, c) {
      var s := Step(p, lay.owner[c]);
      assert Linked(v, lay.nodes, p, s.key);
      assert s == q;
    }
    if e.notEmpty && OwnedUnder(lay, q, c) {
      StepUnique(p, KeyOf(e), lay.owner[c]);
    }
  }

  lemma EraseStart(v: Volume, lay: Layout, p: Path)
    requires Structured(lay)
    ensures ErasedBelow(v, v, lay, p, 2)
  {
    forall c: uint32 | OwnedUnder(lay, p, c) && lay.owner[c] != p && Step(p, lay.owner[c]) in lay.nodes
      ensures lay.nodes[Step(p, lay.owner[c])].slot >= 2
    {
      var s := Step(p, lay.owner[c]);
      assert Child(s.parent, s.key) in lay.nodes;
    }
  }

  /** One more child erased. */
  lemma EraseNext(v: Volume, v': Volume, v'': Volume, lay: Layout, p: Path, i: nat)
    requires Structured(lay) && p in lay.nodes && lay.nodes[p].Folder? && 2 <= i < SLOTS
    requires Intact(v, lay.nodes, p) && ErasedBelow(v, v', lay, p, i)
    requires lay.nodes[p].cluster < CLUSTER_MAP_SIZE && IsTable(v.disk[lay.nodes[p].cluster])
    requires var e := v.disk[lay.nodes[p].cluster].entries[i];
      if e.notEmpty then Erased(v', v'', lay, Child(p, KeyOf(e))) else v'' == v'
    ensures ErasedBelow(v, v'', lay, p, i + 1)
  {
    assert NodeOk(v, lay.nodes, p);
    forall k {:trigger Linked(v, lay.nodes, p, k)} | Child(p, k) in lay.nodes
      ensures Linked(v, lay.nodes, p, k)
    {
      assert Under(p, p);
    }
    forall c: uint32 | c < CLUSTER_MAP_SIZE
      ensures v''.fat[c] == (if Done(lay, p, i + 1, c) then EMPTY_ENTRY else v.fat[c])
      ensures v''.disk[c] == (if Done(lay, p, i + 1, c) then ZeroCluster() else v.disk[c])
    {
      DoneNext(v, lay, p, i, c);
    }
  }

  /** After the last slot only the folder's own cluster is left to erase. */
  lemma EraseLast(v: Volume, v': Volume, v'': Volume, lay: Layout, p: Path)
    requires Structured(lay) && p in lay.nodes && lay.nodes[p].Folder?
    requires ErasedBelow(v, v', lay, p, SLOTS)
    requires var d := lay.nodes[p].cluster;
      d < CLUSTER_MAP_SIZE && v'' == Vol(v'.fat[d := EMPTY_ENTRY], v'.disk[d := ZeroCluster()])
    ensures Erased(v, v'', lay, p)
  {
    var d := lay.nodes[p].cluster;
    assert lay.nodes[p].Has(d);
    forall c: uint32 | OwnedUnder(lay, p, c) && c != d
      ensures Done(lay, p, SLOTS, c)
    {
      var q := lay.owner[c];
      StepInNodes(lay, p, q);
      assert Child(p, Step(p, q).key) in lay.nodes;
    }
  }

  /** The clusters under a child are untouched until its slot is reached. */
  lemma AheadUntouched(v: Volume, v': Volume, lay: Layout, p: Path, i: nat, k: Key, c: uint32)
    requires Structured(lay) && ErasedBelow(v, v', lay, p, i)
    requires Child(p, k) in lay.nodes && i <= lay.nodes[Child(p, k)].slot
    requires OwnedUnder(lay, Child(p, k), c) && c < CLUSTER_MAP_SIZE
    ensures v'.fat[c] == v.fat[c] && v'.disk[c] == v.disk[c]
  {
    StepUnique(p, k, lay.owner[c]);
  }

  /** What is in order at `q` stays in order when its clusters stay the same. */
  lemma NodeFrame(v: Volume, v': Volume, lay: Layout, q: Path)
    requires Structured(lay) && q in lay.nodes && NodeOk(v, lay.nodes, q)
    requires forall c: uint32 :: lay.nodes[q].Has(c) && c < CLUSTER_MAP_SIZE ==>
              v'.fat[c] == v.fat[c] && v'.disk[c] == v.disk[c]
    ensures NodeOk(v', lay.nodes, q)
  {
    match lay.nodes[q]
    case File(_, _, chain) =>
      assert forall j :: 0 <= j < |chain| ==> lay.nodes[q].Has(chain[j]);
    case Folder(_, d) =>
      assert lay.nodes[q].Has(d);
      var t := v.disk[d].entries;
      forall i: nat {:trigger SlotOk(lay.nodes, q, t[i], i)} | 2 <= i < SLOTS
        ensures SlotOk(lay.nodes, q, t[i], i)
      {
      }
  }

  lemma IntactFrame(v: Volume, v': Volume, lay: Layout, p: Path)
    requires Structured(lay) && Intact(v, lay.nodes, p)
    requires forall c: uint32 :: OwnedUnder(lay, p, c) && c < CLUSTER_MAP_SIZE ==>
              v'.fat[c] == v.fat[c] && v'.disk[c] == v.disk[c]
    ensures Intact(v', lay.nodes, p)
  {
    forall q {:trigger NodeOk(v', lay.nodes, q)} | q in lay.nodes && Under(p, q)
      ensures NodeOk(v', lay.nodes, q)
    {
      assert NodeOk(v, lay.nodes, q);
      forall c: uint32 | lay.nodes[q].Has(c) && c < CLUSTER_MAP_SIZE
        ensures v'.fat[c] == v.fat[c] && v'.disk[c] == v.disk[c]
      {
        assert OwnedUnder(lay, p, c);
      }
      NodeFrame(v, v', lay, q);
    }
    forall q, k {:trigger Linked(v', lay.nodes, q, k)} | Child(q, k) in lay.nodes && Under(p, q)
      ensures Linked(v', lay.nodes, q, k)
    {
      assert Linked(v, lay.nodes, q, k);
      var d, n := lay.nodes[q].cluster, lay.nodes[Child(q, k)];
      assert lay.nodes[q].Has(d) && OwnedUnder(lay, p, d);
      if n.Folder? {
        assert n.Has(n.cluster) && OwnedUnder(lay, p, n.cluster);
      }
    }
  }

  lemma IntactBelow(v: Volume, nodes: map<Path, Node>, p: Path, q: Path)
    requires TreeShaped(nodes) && Intact(v, nodes, p) && Under(p, q)
    ensures Intact(v, nodes, q)
  {
    forall r {:trigger NodeOk(v, nodes, r)} | r in nodes && Under(q, r)
      ensures NodeOk(v, nodes, r)
    {
      UnderTransitive(p, q, r);
    }
    forall r, k {:trigger Linked(v, nodes, r, k)} | Child(r, k) in nodes && Under(q, r)
      ensures Linked(v, nodes, r, k)
    {
      UnderTransitive(p, q, r);
    }
  }

  /** Nothing was at `d`: then deleting there changes nothing. */
  lemma NothingThere(v: Volume, lay: Layout, d: Path)
    requires Inv(v, lay) && d !in lay.nodes
    ensures RemoveTree(TreeOf(v, lay), d) == TreeOf(v, lay) && UnderSet(lay, d) == {}
  {
    forall q | q in lay.nodes
      ensures !Under(d, q)
    {
      if Under(d, q) {
        AncestorStays(lay, d, q);
      }
    }
    assert TreeOf(v, lay) == RemoveTree(TreeOf(v, lay), d);
  }

  lemma {:induction false} AncestorStays(lay: Layout, p: Path, q: Path)
    requires TreeShaped(lay.nodes) && q in lay.nodes && Under(p, q)
    ensures p in lay.nodes
  {
    if q != p {
      assert Child(q.parent, q.key) in lay.nodes;
      AncestorStays(lay, p, q.parent);
    }
  }

  /** There is less under a child than under its parent. */
  lemma UnderShrinks(lay: Layout, p: Path, k: Key)
    requires Structured(lay) && Child(p, k) in lay.nodes
    ensures |UnderSet(lay, Child(p, k))| < |UnderSet(lay, p)|
  {
    var d := lay.nodes[p].cluster;
    assert lay.nodes[p].Has(d);
    UnderDepth(p, Child(p, k));
    if Under(Child(p, k), p) {
      UnderDepth(Child(p, k), p);
    }
    forall c | c in UnderSet(lay, Child(p, k))
      ensures c in UnderSet(lay, p)
    {
      UnderTransitive(p, Child(p, k), lay.owner[c]);
    }
    assert d in UnderSet(lay, p) && d !in UnderSet(lay, Child(p, k));
    SubsetSize(UnderSet(lay, Child(p, k)), UnderSet(lay, p));
  }

  /** From `v` to `v'` the clusters of `chain` are freed and zeroed; the rest is the same. */
  ghost predicate Released(v: Volume, v': Volume, chain: seq<uint32>) {
    forall c: uint32 :: c < CLUSTER_MAP_SIZE ==>
      && v'.fat[c] == (if c in chain then EMPTY_ENTRY else v.fat[c])
      && v'.disk[c] == (if c in chain then ZeroCluster() else v.disk[c])
  }

  /** Releasing the next cluster of a chain; its link, read before, leads on. */
  lemma ReleasedNext(v: Volume, v': Volume, v'': Volume, chain: seq<uint32>, i: nat)
    requires ChainOk(v, chain) && i < |chain| && Released(v, v', chain[..i])
    requires v'' == Vol(v'.fat[chain[i] := EMPTY_ENTRY], v'.disk[chain[i] := ZeroCluster()])
    ensures Released(v, v'', chain[..i + 1])
    ensures v'.fat[chain[i]] == if i + 1 < |chain| then chain[i + 1] else END_OF_FILE
  {
    assert chain[..i + 1] == chain[..i] + [chain[i]];
    assert chain[i] !in chain[..i];
    var j := i + 1;
    assert j < |chain| ==> v.fat[chain[i]] == chain[j];
  }

  lemma ChainErased(v: Volume, v': Volume, lay: Layout, q: Path)
    requires Structured(lay) && q in lay.nodes && lay.nodes[q].File?
    requires Released(v, v', lay.nodes[q].chain)
    ensures Erased(v, v', lay, q)
  {
    forall c: uint32
      ensures OwnedUnder(lay, q, c) <==> c in lay.nodes[q].chain
    {
      FileOwns(lay, q, c);
    }
  }

  /** The child in the next slot is still as it was: a folder in order, or a linked chain. */
  lemma SlotAhead(v: Volume, v': Volume, lay: Layout, p: Path, i: nat)
    requires Structured(lay) && p in lay.nodes && lay.nodes[p].Folder? && 2 <= i < SLOTS
    requires Intact(v, lay.nodes, p) && ErasedBelow(v, v', lay, p, i)
    requires lay.nodes[p].cluster < CLUSTER_MAP_SIZE && IsTable(v.disk[lay.nodes[p].cluster])
    requires v.disk[lay.nodes[p].cluster].entries[i].notEmpty
    ensures var e := v.disk[lay.nodes[p].cluster].entries[i];
      var q := Child(p, KeyOf(e));
      && q in lay.nodes && lay.nodes[q].slot == i && (e.subdirectory <==> lay.nodes[q].Folder?)
      && (lay.nodes[q].Folder? ==> IsFolder(lay, e.cluster) && lay.owner[e.cluster] == q && Intact(v', lay.nodes, q))
      && (lay.nodes[q].File? ==>
            lay.nodes[q].chain != [] && e.cluster == lay.nodes[q].chain[0] && ChainOk(v', lay.nodes[q].chain))
  {
    var e := v.disk[lay.nodes[p].cluster].entries[i];
    assert NodeOk(v, lay.nodes, p);
    assert SlotOk(lay.nodes, p, e, i);
    var q := Child(p, KeyOf(e));
    assert Under(p, q);
    IntactBelow(v, lay.nodes, p, q);
    forall c: uint32 | OwnedUnder(lay, q, c) && c < CLUSTER_MAP_SIZE
      ensures v'.fat[c] == v.fat[c] && v'.disk[c] == v.disk[c]
    {
      AheadUntouched(v, v', lay, p, i, KeyOf(e), c);
    }
    IntactFrame(v, v', lay, q);
    assert NodeOk(v', lay.nodes, q);
    if lay.nodes[q].Folder? {
      assert lay.nodes[q].Has(e.cluster);
    } else {
      assert ClustersFor(lay.nodes[q].size) > 0;
    }
  }

  /** A folder's own table outlives its children. */
  lemma OwnClusterStays(v: Volume, v': Volume, lay: Layout, p: Path, i: nat)
    requires Structured(lay) && p in lay.nodes && lay.nodes[p].Folder? && ErasedBelow(v, v', lay, p, i)
    requires lay.nodes[p].cluster < CLUSTER_MAP_SIZE
    ensures v'.disk[lay.nodes[p].cluster] == v.disk[lay.nodes[p].cluster]
  {
    assert lay.nodes[p].Has(lay.nodes[p].cluster);
  }

  /** An empty folder owns one cluster. */
  lemma EmptyFolderErased(v: Volume, v': Volume, lay: Layout, q: Path)
    requires Structured(lay) && q in lay.nodes && lay.nodes[q].Folder?
    requires forall k :: Child(q, k) !in lay.nodes
    requires lay.nodes[q].cluster < CLUSTER_MAP_SIZE
    requires v' == Vol(v.fat[lay.nodes[q].cluster := EMPTY_ENTRY], v.disk[lay.nodes[q].cluster := ZeroCluster()])
    ensures Erased(v, v', lay, q)
  {
    forall c: uint32
      ensures OwnedUnder(lay, q, c) <==> c == lay.nodes[q].cluster
    {
      assert lay.nodes[q].Has(lay.nodes[q].cluster);
      if OwnedUnder(lay, q, c) && lay.owner[c] != q {
        var s := Step(q, lay.owner[c]);
        assert s == Child(q, s.key);
        StepInNodes(lay, q, lay.owner[c]);
      }
    }
  }

  /** Erasing under a child and clearing its slot is a removal. */
  lemma ErasedRemoved(v: Volume, mid: Volume, v': Volume, lay: Layout, r: Path, k: Key)
    requires Inv(v, lay) && Child(r, k) in lay.nodes && Erased(v, mid, lay, Child(r, k))
    requires v'.fat == mid.fat
    requires var d, i := lay.nodes[r].cluster, lay.nodes[Child(r, k)].slot;
      && d < CLUSTER_MAP_SIZE && IsTable(mid.disk[d]) && i < SLOTS
      && v'.disk == mid.disk[d := Table(mid.disk[d].entries[i := EMPTY_SLOT])][FAT_CLUSTER := v'.disk[FAT_CLUSTER]]
    ensures Removed(v, v', lay, r, k)
  {
    assert NodeOk(v, lay.nodes, r);
    ParentStays(v, mid, lay, r, k);
  }

  /** The parent's table is not part of what is erased. */
  lemma ParentStays(v: Volume, mid: Volume, lay: Layout, r: Path, k: Key)
    requires Structured(lay) && Child(r, k) in lay.nodes && Erased(v, mid, lay, Child(r, k))
    requires lay.nodes[r].cluster < CLUSTER_MAP_SIZE
    ensures mid.disk[lay.nodes[r].cluster] == v.disk[lay.nodes[r].cluster]
    ensures mid.fat[lay.nodes[r].cluster] == v.fat[lay.nodes[r].cluster]
  {
    assert lay.nodes[r].Has(lay.nodes[r].cluster);
    if Under(Child(r, k), r) {
      UnderDepth(Child(r, k), r);
    }
  }

  /** Free clusters go up by what the subtree owned. */
  lemma FreeAfterRemove(v: Volume, v': Volume, lay: Layout, p: Path)
    requires Inv(v, lay) && Inv(v', Pruned(lay, p))
    ensures FreeCount(v'.fat) == FreeCount(v.fat) + |UnderSet(lay, p)|
  {
    Conservation(v, lay);
    Conservation(v', Pruned(lay, p));
    assert lay.owner.Keys == Pruned(lay, p).owner.Keys + UnderSet(lay, p);
  }
}
