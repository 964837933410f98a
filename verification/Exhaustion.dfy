/** What becomes of a volume when a write runs out of clusters: the entry it records cannot be
    part of any valid layout. */
module Exhaustion {
  import opened Codec
  import opened Paths
  import opened Volumes
  import opened Allocation

  /** From `v` to `v'` the tables of the folders are the same but for one slot of `p`, which
      was clear and now holds `e`. */
  ghost predicate EntryAppeared(v: Volume, v': Volume, lay: Layout, p: Path, slot: nat, e: DirEntry)
    requires Inv(v, lay)
  {
    && p in lay.nodes && lay.nodes[p].Folder? && 2 <= slot < SLOTS && e.notEmpty
    && forall r {:trigger lay.nodes[r].Folder?} :: r in lay.nodes && lay.nodes[r].Folder? ==>
         var d := lay.nodes[r].cluster;
         && d < CLUSTER_MAP_SIZE && IsTable(v.disk[d])
         && v'.disk[d] == if r == p then Table(v.disk[d].entries[slot := e]) else v.disk[d]
  }

  /** Any layout of `v'` has the folders on the way to `p` where `v` has them. */
  lemma {:induction false} AncestorsStay(v: Volume, v': Volume, lay: Layout, lay': Layout, p: Path, slot: nat,
                                         e: DirEntry, r: Path)
    requires Inv(v, lay) && Inv(v', lay') && EntryAppeared(v, v', lay, p, slot, e)
    requires Under(r, p) && r in lay.nodes && lay.nodes[r].Folder?
    ensures r in lay'.nodes && lay'.nodes[r] == lay.nodes[r]
  {
    if r.Child? {
      var a, j := r.parent, r.key;
      assert r == Child(a, j);
      UnderDepth(r, p);
      UnderTransitive(a, r, p);
      AncestorsStay(v, v', lay, lay', p, slot, e, a);
      ChildHasSlot(v, lay, a, j);
      SlotIsChild(v', lay', a, lay.nodes[r].slot);
    }
  }

  lemma AppearedIsChild(v: Volume, v': Volume, lay: Layout, lay': Layout, p: Path, slot: nat, e: DirEntry)
    requires Inv(v, lay) && Inv(v', lay') && EntryAppeared(v, v', lay, p, slot, e)
    ensures var q := Child(p, KeyOf(e));
      q in lay'.nodes && e == lay'.nodes[q].Entry(KeyOf(e)) && NodeOk(v', lay'.nodes, q)
  {
    AncestorsStay(v, v', lay, lay', p, slot, e, p);
    SlotIsChild(v', lay', p, slot);
    assert NodeOk(v', lay'.nodes, Child(p, KeyOf(e)));
  }

  /** A folder for which no cluster was left is recorded as a file without bytes. */
  lemma EmptyFileInvalid(v: Volume, v': Volume, lay: Layout, lay': Layout, p: Path, slot: nat, e: DirEntry)
    requires Inv(v, lay) && EntryAppeared(v, v', lay, p, slot, e)
    requires !e.subdirectory && e.filesize == 0
    ensures !Inv(v', lay')
  {
    if Inv(v', lay') {
      AppearedIsChild(v, v', lay, lay', p, slot, e);
      assert false;
    }
  }

  /** Two chains that start together stay together. */
  lemma {:induction false} ChainsAgree(v: Volume, chain: seq<uint32>, chain': seq<uint32>, n: nat)
    requires ChainOk(v, chain') && n <= |chain| <= |chain'|
    requires forall j :: 0 <= j < |chain| ==> chain[j] < CLUSTER_MAP_SIZE
    requires forall i, j :: 0 <= i && j == i + 1 < |chain| ==> v.fat[chain[i]] == chain[j]
    requires chain != [] ==> chain[0] == chain'[0]
    ensures forall j :: 0 <= j < n ==> chain[j] == chain'[j]
  {
    if n >= 2 {
      ChainsAgree(v, chain, chain', n - 1);
      var i, j := n - 2, n - 1;
      assert v.fat[chain[i]] == chain[j] && v.fat[chain'[i]] == chain'[j];
    }
  }

  /** Inside a chain the table leads on to another cluster. */
  lemma LinkInside(v: Volume, chain: seq<uint32>, i: nat)
    requires ChainOk(v, chain) && i + 1 < |chain|
    ensures chain[i] < CLUSTER_MAP_SIZE && v.fat[chain[i]] != END_OF_FILE
  {
    var j := i + 1;
    assert v.fat[chain[i]] == chain[j];
  }

  /** A file whose chain stops short of its size is not valid. */
  lemma ShortFileInvalid(v: Volume, mid: Volume, v': Volume, lay: Layout, lay': Layout, p: Path, slot: nat, e: DirEntry,
                         chain: seq<uint32>, parts: seq<seq<byte>>)
    requires Inv(v, lay) && EntryAppeared(v, v', lay, p, slot, e)
    requires Chained(v, mid, chain, parts) && v'.fat == mid.fat
    requires !e.subdirectory && e.cluster == (if chain == [] then 0 else chain[0])
    requires |chain| < ClustersFor(e.filesize)
    ensures !Inv(v', lay')
  {
    if Inv(v', lay') {
      AppearedIsChild(v, v', lay, lay', p, slot, e);
      var n := lay'.nodes[Child(p, KeyOf(e))];
      assert n.File? && n.size == e.filesize && |n.chain| == ClustersFor(e.filesize);
      var j := |chain|;
      assert 3 <= n.chain[0] == e.cluster;
      assert j > 0 && v'.fat[chain[j - 1]] == END_OF_FILE;
      LinkInside(v', n.chain, j - 1);
      ChainsAgree(v', chain, n.chain, j);
    }
  }
}
