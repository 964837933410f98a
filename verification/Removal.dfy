/** Removing a folder or a file, with everything below it, from a volume. */
module Removal {
  import opened Codec
  import opened Paths
  import opened Volumes

  /** The layout without `p` and everything below it. */
  ghost function Pruned(lay: Layout, p: Path): Layout {
    Layout(map q | q in lay.nodes && !Under(p, q) :: lay.nodes[q],
           map c | c in lay.owner && !Under(p, lay.owner[c]) :: lay.owner[c])
  }

  /** Does `c` belong to `p` or to something below it? */
  predicate OwnedUnder(lay: Layout, p: Path, c: uint32) {
    c in lay.owner && Under(p, lay.owner[c])
  }

  /** From `v` to `v'` the clusters under `p` are freed and zeroed, and the slot that records
      `p` is cleared; nothing else changed in the table or in the data area. */
  ghost predicate Removed(v: Volume, v': Volume, lay: Layout, r: Path, k: Key)
    requires Inv(v, lay) && Child(r, k) in lay.nodes
  {
    var p, d := Child(r, k), lay.nodes[r].cluster;
    && NodeOk(v, lay.nodes, r)
    && (forall c: uint32 :: c < CLUSTER_MAP_SIZE ==>
          v'.fat[c] == if OwnedUnder(lay, p, c) then EMPTY_ENTRY else v.fat[c])
    && (forall c: uint32 :: 2 <= c < CLUSTER_MAP_SIZE && c != d ==>
          v'.disk[c] == if OwnedUnder(lay, p, c) then ZeroCluster() else v.disk[c])
    && v'.disk[d] == Table(v.disk[d].entries[lay.nodes[p].slot := EMPTY_SLOT])
  }

  lemma RemoveShape(lay: Layout, p: Path)
    requires TreeShaped(lay.nodes) && p != Root
    ensures TreeShaped(Pruned(lay, p).nodes)
  {
    var nodes' := Pruned(lay, p).nodes;
    forall r, j | Child(r, j) in nodes'
      ensures r in nodes' && nodes'[r].Folder? && 2 <= nodes'[Child(r, j)].slot < SLOTS
    {
      assert Child(r, j) in lay.nodes;
    }
  }

  lemma RemoveOwned(lay: Layout, p: Path)
    requires Owned(lay)
    ensures Owned(Pruned(lay, p))
  {
    var lay' := Pruned(lay, p);
    forall r, c: uint32 {:trigger lay'.nodes[r].Has(c)} | r in lay'.nodes && lay'.nodes[r].Has(c)
      ensures c in lay'.owner && lay'.owner[c] == r && (if r == Root then 2 else 3) <= c < CLUSTER_MAP_SIZE
    {
      assert lay.nodes[r].Has(c);
    }
  }

  /** The tables that stay are unchanged, but for the cleared slot. */
  lemma RemoveKeepsTable(v: Volume, v': Volume, lay: Layout, r: Path, k: Key, q: Path)
    requires Inv(v, lay) && Child(r, k) in lay.nodes && Removed(v, v', lay, r, k)
    requires q in lay.nodes && lay.nodes[q].Folder? && !Under(Child(r, k), q)
    ensures var e := lay.nodes[q].cluster;
      && 2 <= e < CLUSTER_MAP_SIZE && IsTable(v.disk[e]) && IsTable(v'.disk[e])
      && v'.fat[e] == v.fat[e]
      && v'.disk[e].entries ==
           if q == r then v.disk[e].entries[lay.nodes[Child(r, k)].slot := EMPTY_SLOT] else v.disk[e].entries
  {
    var d, e := lay.nodes[r].cluster, lay.nodes[q].cluster;
    assert NodeOk(v, lay.nodes, q);
    assert lay.nodes[r].Has(d) && lay.nodes[q].Has(e);
    if e == d {
      OneOwner(lay, q, r, d);
    }
  }

  lemma RemoveKeepsFolder(v: Volume, v': Volume, lay: Layout, r: Path, k: Key, q: Path)
    requires Inv(v, lay) && Child(r, k) in lay.nodes && Removed(v, v', lay, r, k)
    requires q in lay.nodes && lay.nodes[q].Folder? && !Under(Child(r, k), q)
    ensures FolderOk(v', Pruned(lay, Child(r, k)).nodes, q, lay.nodes[q].cluster)
  {
    var nodes' := Pruned(lay, Child(r, k)).nodes;
    assert NodeOk(v, lay.nodes, q);
    RemoveKeepsTable(v, v', lay, r, k, q);
    var t, t' := v.disk[lay.nodes[q].cluster].entries, v'.disk[lay.nodes[q].cluster].entries;
    forall i: nat {:trigger SlotOk(nodes', q, t'[i], i)} | 2 <= i < SLOTS
      ensures SlotOk(nodes', q, t'[i], i)
    {
      assert SlotOk(lay.nodes, q, t[i], i);
    }
  }

  lemma RemoveKeeps(v: Volume, v': Volume, lay: Layout, r: Path, k: Key, q: Path)
    requires Inv(v, lay) && Child(r, k) in lay.nodes && Removed(v, v', lay, r, k)
    requires q in lay.nodes && !Under(Child(r, k), q)
    ensures NodeOk(v', Pruned(lay, Child(r, k)).nodes, q)
    ensures ContentOf(v'.disk, lay.nodes[q]) == ContentOf(v.disk, lay.nodes[q])
  {
    hide Linked, FolderOk, ChainOk, ChainBytes;
    assert NodeOk(v, lay.nodes, q);
    match lay.nodes[q]
    case File(_, _, chain) =>
      RemoveKeepsChain(v, v', lay, r, k, q);
    case Folder(_, _) =>
      RemoveKeepsFolder(v, v', lay, r, k, q);
  }

  lemma RemoveKeepsChain(v: Volume, v': Volume, lay: Layout, r: Path, k: Key, q: Path)
    requires Inv(v, lay) && Child(r, k) in lay.nodes && Removed(v, v', lay, r, k)
    requires q in lay.nodes && lay.nodes[q].File? && !Under(Child(r, k), q) && ChainOk(v, lay.nodes[q].chain)
    ensures ChainOk(v', lay.nodes[q].chain)
    ensures ChainBytes(v'.disk, lay.nodes[q].chain) == ChainBytes(v.disk, lay.nodes[q].chain)
  {
    hide NodeOk, Linked;
    var chain := lay.nodes[q].chain;
    assert lay.nodes[r].Has(lay.nodes[r].cluster);
    forall c | c in chain
      ensures 3 <= c < CLUSTER_MAP_SIZE && v'.fat[c] == v.fat[c] && v'.disk[c] == v.disk[c]
    {
      assert lay.nodes[q].Has(c);
    }
    ChainBytesFrame(v.disk, v'.disk, chain);
  }

  lemma RemoveLinked(v: Volume, v': Volume, lay: Layout, r: Path, k: Key, q: Path, j: Key)
    requires Inv(v, lay) && Child(r, k) in lay.nodes && Removed(v, v', lay, r, k)
    requires Child(q, j) in Pruned(lay, Child(r, k)).nodes && TreeShaped(Pruned(lay, Child(r, k)).nodes)
    ensures Linked(v', Pruned(lay, Child(r, k)).nodes, q, j)
  {
    assert Child(q, j) in lay.nodes;
    assert Linked(v, lay.nodes, q, j) && Linked(v, lay.nodes, r, k);
    RemoveKeepsTable(v, v', lay, r, k, q);
    if lay.nodes[Child(q, j)].Folder? {
      RemoveKeepsTable(v, v', lay, r, k, Child(q, j));
    }
    if q == r {
      var n, m := lay.nodes[Child(q, j)], lay.nodes[Child(r, k)];
      assert KeyOf(n.Entry(j)) == j && KeyOf(m.Entry(k)) == k;
      assert n.slot != m.slot;
    }
  }

  lemma RemoveInv(v: Volume, v': Volume, lay: Layout, r: Path, k: Key)
    requires Inv(v, lay) && Child(r, k) in lay.nodes && Removed(v, v', lay, r, k)
    ensures Inv(v', Pruned(lay, Child(r, k)))
  {
    var p := Child(r, k);
    var lay' := Pruned(lay, p);
    RemoveShape(lay, p);
    RemoveOwned(lay, p);
    forall q {:trigger NodeOk(v', lay'.nodes, q)} | q in lay'.nodes
      ensures NodeOk(v', lay'.nodes, q)
    {
      RemoveKeeps(v, v', lay, r, k, q);
    }
    forall q, j {:trigger Linked(v', lay'.nodes, q, j)} | Child(q, j) in lay'.nodes
      ensures Linked(v', lay'.nodes, q, j)
    {
      RemoveLinked(v, v', lay, r, k, q, j);
    }
    forall c: uint32 | 3 <= c < CLUSTER_MAP_SIZE && v'.fat[c] != EMPTY_ENTRY
      ensures c in lay'.owner
    {
      assert v.fat[c] != EMPTY_ENTRY;
    }
    assert !OwnedUnder(lay, p, 0) && !OwnedUnder(lay, p, 1);
  }

  /** Freeing what lies under a node and clearing its slot keeps the ownership partition and
      takes exactly that subtree out of the tree. */
  lemma RemoveNode(v: Volume, v': Volume, lay: Layout, r: Path, k: Key)
    requires Inv(v, lay) && Child(r, k) in lay.nodes && Removed(v, v', lay, r, k)
    ensures Inv(v', Pruned(lay, Child(r, k)))
    ensures TreeOf(v', Pruned(lay, Child(r, k))) == RemoveTree(TreeOf(v, lay), Child(r, k))
  {
    RemoveInv(v, v', lay, r, k);
    forall q | q in lay.nodes && !Under(Child(r, k), q)
      ensures ContentOf(v'.disk, lay.nodes[q]) == ContentOf(v.disk, lay.nodes[q])
    {
      RemoveKeeps(v, v', lay, r, k, q);
    }
  }
}
