/** Adding a folder or a file to a volume. */
module Insertion {
  import opened Codec
  import opened Paths
  import opened Volumes

  ghost function WithNode(lay: Layout, q: Path, n: Node): Layout {
    Layout(lay.nodes[q := n],
           map c | c in lay.owner.Keys + n.Clusters() :: if n.Has(c) then q else lay.owner[c])
  }

  /** `n` may become the child `k` of folder `p`: the key is new, the slot is clear and the
      clusters are free. */
  ghost predicate Addable(v: Volume, lay: Layout, p: Path, k: Key, n: Node)
    requires Inv(v, lay)
  {
    && p in lay.nodes && lay.nodes[p].Folder? && Child(p, k) !in lay.nodes
    && NodeOk(v, lay.nodes, p)
    && 2 <= n.slot < SLOTS && !v.disk[lay.nodes[p].cluster].entries[n.slot].notEmpty
    && forall c: uint32 :: n.Has(c) ==> 3 <= c < CLUSTER_MAP_SIZE && v.fat[c] == EMPTY_ENTRY
  }

  /** From `v` to `v'` only the clusters of `n` and one slot of the table of `p` changed. */
  ghost predicate Added(v: Volume, v': Volume, lay: Layout, p: Path, k: Key, n: Node)
    requires Inv(v, lay) && Addable(v, lay, p, k, n)
  {
    var d := lay.nodes[p].cluster;
    && (forall c: uint32 :: c < CLUSTER_MAP_SIZE && !n.Has(c) ==> v'.fat[c] == v.fat[c])
    && (forall c: uint32 :: 2 <= c < CLUSTER_MAP_SIZE && !n.Has(c) && c != d ==> v'.disk[c] == v.disk[c])
    && v'.disk[d] == Table(v.disk[d].entries[n.slot := n.Entry(k)])
    && NodeOk(v', lay.nodes[Child(p, k) := n], Child(p, k))
    && (n.Folder? ==> v'.disk[n.cluster].entries[1] == ParentEntry(d))
  }

  lemma AddShape(v: Volume, lay: Layout, p: Path, k: Key, n: Node)
    requires Inv(v, lay) && Addable(v, lay, p, k, n)
    ensures TreeShaped(WithNode(lay, Child(p, k), n).nodes)
  {
    var q := Child(p, k);
    var nodes' := lay.nodes[q := n];
    forall r, j | Child(r, j) in nodes'
      ensures r in nodes' && nodes'[r].Folder? && 2 <= nodes'[Child(r, j)].slot < SLOTS
    {
      if Child(r, j) != q {
        assert Child(r, j) in lay.nodes;
      }
    }
  }

  lemma AddOwned(v: Volume, lay: Layout, p: Path, k: Key, n: Node)
    requires Inv(v, lay) && Addable(v, lay, p, k, n)
    ensures Owned(WithNode(lay, Child(p, k), n))
  {
    var q := Child(p, k);
    var lay' := WithNode(lay, q, n);
    forall r, c: uint32 | r in lay'.nodes && lay'.nodes[r].Has(c)
      ensures c in lay'.owner && lay'.owner[c] == r && (if r == Root then 2 else 3) <= c < CLUSTER_MAP_SIZE
    {
      if r != q {
        assert lay.nodes[r].Has(c);
        if n.Has(c) {
          FreeIsUnowned(v, lay, c);
        }
      }
    }
    forall c: uint32 | c in lay'.owner
      ensures lay'.owner[c] in lay'.nodes && lay'.nodes[lay'.owner[c]].Has(c)
    {
      if !n.Has(c) {
        assert c in lay.owner;
      }
    }
  }

  /** A node that was there before is still in order. */
  lemma AddKeeps(v: Volume, v': Volume, lay: Layout, p: Path, k: Key, n: Node, r: Path)
    requires Inv(v, lay) && Addable(v, lay, p, k, n) && Added(v, v', lay, p, k, n)
    requires r in lay.nodes
    ensures NodeOk(v', WithNode(lay, Child(p, k), n).nodes, r)
    ensures ContentOf(v'.disk, lay.nodes[r]) == ContentOf(v.disk, lay.nodes[r])
  {
    var nodes' := WithNode(lay, Child(p, k), n).nodes;
    var d := lay.nodes[p].cluster;
    assert NodeOk(v, lay.nodes, r);
    assert lay.nodes[p].Has(d);
    match lay.nodes[r]
    case File(_, _, chain) =>
      forall c | c in chain
        ensures v'.fat[c] == v.fat[c] && v'.disk[c] == v.disk[c]
      {
        assert lay.nodes[r].Has(c);
        FreeIsUnowned(v, lay, c);
      }
      ChainBytesFrame(v.disk, v'.disk, chain);
    case Folder(_, e) =>
      assert lay.nodes[r].Has(e);
      AddKeepsFolder(v, v', lay, p, k, n, r);
  }

  lemma AddKeepsFolder(v: Volume, v': Volume, lay: Layout, p: Path, k: Key, n: Node, r: Path)
    requires Inv(v, lay) && Addable(v, lay, p, k, n) && Added(v, v', lay, p, k, n)
    requires r in lay.nodes && lay.nodes[r].Folder?
    ensures FolderOk(v', WithNode(lay, Child(p, k), n).nodes, r, lay.nodes[r].cluster)
  {
    var nodes' := WithNode(lay, Child(p, k), n).nodes;
    assert NodeOk(v, lay.nodes, r);
    AddKeepsTable(v, v', lay, p, k, n, r);
    var t, t' := v.disk[lay.nodes[r].cluster].entries, v'.disk[lay.nodes[r].cluster].entries;
    forall i: nat {:trigger SlotOk(nodes', r, t'[i], i)} | 2 <= i < SLOTS
      ensures SlotOk(nodes', r, t'[i], i)
    {
      assert SlotOk(lay.nodes, r, t[i], i);
    }
  }

  lemma AddLinked(v: Volume, v': Volume, lay: Layout, p: Path, k: Key, n: Node, r: Path, j: Key)
    requires Inv(v, lay) && Addable(v, lay, p, k, n) && Added(v, v', lay, p, k, n)
    requires Child(r, j) in WithNode(lay, Child(p, k), n).nodes
    requires TreeShaped(WithNode(lay, Child(p, k), n).nodes)
    ensures Linked(v', WithNode(lay, Child(p, k), n).nodes, r, j)
  {
    assert NodeOk(v, lay.nodes, p);
    if Child(r, j) != Child(p, k) {
      assert Linked(v, lay.nodes, r, j);
      AddKeepsTable(v, v', lay, p, k, n, r);
      if lay.nodes[Child(r, j)].Folder? {
        AddKeepsTable(v, v', lay, p, k, n, Child(r, j));
      }
    }
  }

  /** Only the new node's slot changes in the tables that were there before. */
  lemma AddKeepsTable(v: Volume, v': Volume, lay: Layout, p: Path, k: Key, n: Node, r: Path)
    requires Inv(v, lay) && Addable(v, lay, p, k, n) && Added(v, v', lay, p, k, n)
    requires r in lay.nodes && lay.nodes[r].Folder?
    ensures var e := lay.nodes[r].cluster;
      && 2 <= e < CLUSTER_MAP_SIZE && IsTable(v.disk[e]) && IsTable(v'.disk[e])
      && v'.fat[e] == v.fat[e]
      && v'.disk[e].entries == if r == p then v.disk[e].entries[n.slot := n.Entry(k)] else v.disk[e].entries
  {
    var d, e := lay.nodes[p].cluster, lay.nodes[r].cluster;
    assert NodeOk(v, lay.nodes, r);
    assert lay.nodes[p].Has(d) && lay.nodes[r].Has(e);
    if e >= 3 {
      FreeIsUnowned(v, lay, e);
    }
    assert !n.Has(e);
    if e == d {
      OneOwner(lay, p, r, d);
    }
  }

  lemma AddNoLeak(v: Volume, v': Volume, lay: Layout, p: Path, k: Key, n: Node, c: uint32)
    requires Inv(v, lay) && Addable(v, lay, p, k, n) && Added(v, v', lay, p, k, n)
    requires 3 <= c < CLUSTER_MAP_SIZE && v'.fat[c] != EMPTY_ENTRY
    ensures c in WithNode(lay, Child(p, k), n).owner
  {
    if !n.Has(c) {
      FreeIsUnowned(v, lay, c);
    }
  }

  lemma AddInv(v: Volume, v': Volume, lay: Layout, p: Path, k: Key, n: Node)
    requires Inv(v, lay) && Addable(v, lay, p, k, n) && Added(v, v', lay, p, k, n)
    ensures Inv(v', WithNode(lay, Child(p, k), n))
  {
    var q := Child(p, k);
    var lay' := WithNode(lay, q, n);
    AddShape(v, lay, p, k, n);
    AddOwned(v, lay, p, k, n);
    forall r {:trigger NodeOk(v', lay'.nodes, r)} | r in lay'.nodes
      ensures NodeOk(v', lay'.nodes, r)
    {
      if r != q {
        AddKeeps(v, v', lay, p, k, n, r);
      }
    }
    forall r, j {:trigger Linked(v', lay'.nodes, r, j)} | Child(r, j) in lay'.nodes
      ensures Linked(v', lay'.nodes, r, j)
    {
      AddLinked(v, v', lay, p, k, n, r, j);
    }
    forall c: uint32 | 3 <= c < CLUSTER_MAP_SIZE && v'.fat[c] != EMPTY_ENTRY
      ensures c in lay'.owner
    {
      AddNoLeak(v, v', lay, p, k, n, c);
    }
  }

  lemma AddTree(v: Volume, v': Volume, lay: Layout, p: Path, k: Key, n: Node)
    requires Inv(v, lay) && Addable(v, lay, p, k, n) && Added(v, v', lay, p, k, n)
    ensures TreeOf(v', WithNode(lay, Child(p, k), n))
         == TreeOf(v, lay)[Child(p, k) := ContentOf(v'.disk, n)]
  {
    forall r | r in lay.nodes
      ensures ContentOf(v'.disk, lay.nodes[r]) == ContentOf(v.disk, lay.nodes[r])
    {
      AddKeeps(v, v', lay, p, k, n, r);
    }
  }

  /** Recording a new node in a clear slot, on free clusters, keeps the ownership partition
      and inserts the node in the tree. */
  lemma AddNode(v: Volume, v': Volume, lay: Layout, p: Path, k: Key, n: Node)
    requires Inv(v, lay) && Addable(v, lay, p, k, n) && Added(v, v', lay, p, k, n)
    ensures Inv(v', WithNode(lay, Child(p, k), n))
    ensures TreeOf(v', WithNode(lay, Child(p, k), n))
         == TreeOf(v, lay)[Child(p, k) := ContentOf(v'.disk, n)]
  {
    AddInv(v, v', lay, p, k, n);
    AddTree(v, v', lay, p, k, n);
  }
}
