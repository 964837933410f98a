/** The bytes on the disk determine the tree: two readings of the same bytes agree. */
module Durability {
  import opened Codec
  import opened Paths
  import opened Volumes

  /** Two disks with the same bytes in every cluster, whatever structures one reads them as. */
  ghost predicate SameBytes(disk: seq<Cluster>, disk': seq<Cluster>) {
    && |disk| == |disk'|
    && forall c :: 0 <= c < |disk| ==> disk[c].Fits() && disk'[c].Fits() && disk[c].Encode() == disk'[c].Encode()
  }

  ghost predicate SameVolume(v: Volume, v': Volume) {
    v.fat == v'.fat && SameBytes(v.disk, v'.disk)
  }

  lemma SameTable(v: Volume, v': Volume, d: uint32)
    requires SameVolume(v, v') && d < CLUSTER_MAP_SIZE
    requires IsTable(v.disk[d]) && IsTable(v'.disk[d])
    ensures v.disk[d].entries == v'.disk[d].entries
  {
    assert v.disk[d].Encode() == v'.disk[d].Encode();
    TableRoundTrip(v.disk[d].entries);
    TableRoundTrip(v'.disk[d].entries);
  }

  /** A chain is determined by its first cluster and its length. */
  lemma {:induction false} SameChain(v: Volume, v': Volume, chain: seq<uint32>, chain': seq<uint32>, n: nat)
    requires v.fat == v'.fat && ChainOk(v, chain) && ChainOk(v', chain')
    requires n <= |chain| == |chain'| && (chain != [] ==> chain[0] == chain'[0])
    ensures chain[..n] == chain'[..n]
  {
    if n >= 2 {
      SameChain(v, v', chain, chain', n - 1);
      var i, j := n - 2, n - 1;
      assert chain[..n - 1][i] == chain'[..n - 1][i];
      assert v.fat[chain[i]] == chain[j] && v'.fat[chain'[i]] == chain'[j];
      assert chain[..n] == chain[..j] + [chain[j]] && chain'[..n] == chain'[..j] + [chain'[j]];
    }
  }

  lemma {:induction false} SameNode(v: Volume, v': Volume, lay: Layout, lay': Layout, p: Path)
    requires SameVolume(v, v') && Inv(v, lay) && Inv(v', lay')
    requires p in lay.nodes
    ensures p in lay'.nodes && lay'.nodes[p] == lay.nodes[p]
  {
    if p.Child? {
      var r, k := p.parent, p.key;
      assert p == Child(r, k);
      SameNode(v, v', lay, lay', r);
      var d, n := lay.nodes[r].cluster, lay.nodes[p];
      assert Linked(v, lay.nodes, r, k) && NodeOk(v', lay'.nodes, r);
      SameTable(v, v', d);
      assert SlotOk(lay'.nodes, r, v'.disk[d].entries[n.slot], n.slot);
      var n' := lay'.nodes[p];
      assert n.slot == n'.slot && n.Entry(k) == n'.Entry(k);
      assert NodeOk(v, lay.nodes, p) && NodeOk(v', lay'.nodes, p);
      if n.File? {
        SameChain(v, v', n.chain, n'.chain, |n.chain|);
      }
    }
  }

  lemma SameContent(v: Volume, v': Volume, chain: seq<uint32>)
    requires SameVolume(v, v') && DataClusters(v.disk, chain) && DataClusters(v'.disk, chain)
    ensures ChainBytes(v.disk, chain) == ChainBytes(v'.disk, chain)
    decreases |chain|
  {
    if chain != [] {
      var rest, c := chain[..|chain| - 1], chain[|chain| - 1];
      SameContent(v, v', rest);
      assert v.disk[c].Encode() == v'.disk[c].Encode();
    }
  }

  /** Whatever reading of the bytes a later mount finds, it is the same layout and the same
      tree. */
  lemma BytesDetermineTree(v: Volume, v': Volume, lay: Layout, lay': Layout)
    requires SameVolume(v, v') && Inv(v, lay) && Inv(v', lay')
    ensures lay == lay' && TreeOf(v, lay) == TreeOf(v', lay')
  {
    forall p | p in lay.nodes || p in lay'.nodes
      ensures p in lay.nodes && p in lay'.nodes && lay.nodes[p] == lay'.nodes[p]
    {
      if p in lay.nodes {
        SameNode(v, v', lay, lay', p);
      } else {
        SameNode(v', v, lay', lay, p);
      }
    }
    assert lay.nodes == lay'.nodes;
    SameOwner(lay, lay');
    forall p | p in lay.nodes
      ensures ContentOf(v.disk, lay.nodes[p]) == ContentOf(v'.disk, lay.nodes[p])
    {
      assert NodeOk(v, lay.nodes, p) && NodeOk(v', lay'.nodes, p);
      if lay.nodes[p].File? {
        SameContent(v, v', lay.nodes[p].chain);
      }
    }
  }

  lemma SameOwner(lay: Layout, lay': Layout)
    requires Owned(lay) && Owned(lay') && lay.nodes == lay'.nodes
    ensures lay.owner == lay'.owner
  {
    forall c: uint32 | c in lay.owner || c in lay'.owner
      ensures c in lay.owner && c in lay'.owner && lay.owner[c] == lay'.owner[c]
    {
      var p := if c in lay.owner then lay.owner[c] else lay'.owner[c];
      assert lay.nodes[p].Has(c) && lay'.nodes[p].Has(c);
    }
  }
}
