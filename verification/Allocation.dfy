/** First-fit allocation as the write operation performs it, on whole volumes. */
module Allocation {
  import opened Codec
  import opened Paths
  import opened Volumes
  import opened Insertion
  import opened FreeSpace

  /** A buffer cut into `n` clusters. */
  function Parts(data: seq<byte>, n: nat): (parts: seq<seq<byte>>)
    requires Span(n) <= |data|
    ensures |parts| == n
  {
    if n == 0 then [] else Parts(data, n - 1) + [data[Span(n - 1)..Span(n - 1) + CLUSTER_SIZE]]
  }

  lemma {:induction false} PartAt(data: seq<byte>, n: nat, j: nat)
    requires Span(n) <= |data| && j < n
    ensures Span(j) + CLUSTER_SIZE <= |data|
    ensures Parts(data, n)[j] == data[Span(j)..Span(j) + CLUSTER_SIZE]
    ensures |Parts(data, n)[j]| == CLUSTER_SIZE
  {
    if j < n - 1 {
      PartAt(data, n - 1, j);
    }
  }

  function Concat(parts: seq<seq<byte>>): seq<byte> {
    if parts == [] then [] else Concat(parts[..|parts| - 1]) + parts[|parts| - 1]
  }

  lemma {:induction false} ConcatParts(data: seq<byte>, n: nat)
    requires Span(n) <= |data|
    ensures Concat(Parts(data, n)) == data[..Span(n)]
  {
    if n != 0 {
      ConcatParts(data, n - 1);
      assert Parts(data, n)[..n - 1] == Parts(data, n - 1);
    }
  }

  /** From `v` to `v'` the clusters of `chain` are linked and filled with `parts`; with no
      cluster to link, entry 0 of the table takes the end mark. */
  ghost predicate Chained(v: Volume, v': Volume, chain: seq<uint32>, parts: seq<seq<byte>>) {
    && |chain| <= |parts|
    && (forall j :: 0 <= j < |chain| ==> 3 <= chain[j] < CLUSTER_MAP_SIZE)
    && (forall c: uint32 :: c < CLUSTER_MAP_SIZE && c !in chain && (c == 0 ==> chain != []) ==> v'.fat[c] == v.fat[c])
    && (forall i, j :: 0 <= i && j == i + 1 < |chain| ==> v'.fat[chain[i]] == chain[j])
    && v'.fat[if chain == [] then 0 else chain[|chain| - 1]] == END_OF_FILE
    && (forall c: uint32 :: c < CLUSTER_MAP_SIZE && c !in chain ==> v'.disk[c] == v.disk[c])
    && (forall j :: 0 <= j < |chain| ==> v'.disk[chain[j]] == Raw(parts[j]))
  }

  /** Midway through an allocation: as `Chained`, but the last cluster taken still reads as
      empty in the table, and the end mark is not set. */
  ghost predicate Taking(v: Volume, v': Volume, chain: seq<uint32>, parts: seq<seq<byte>>) {
    && |chain| <= |parts| && Ascending(chain)
    && (forall j :: 0 <= j < |chain| ==> 3 <= chain[j] < CLUSTER_MAP_SIZE)
    && (forall c: uint32 :: c < CLUSTER_MAP_SIZE && (c !in chain || c == Last(chain)) ==> v'.fat[c] == v.fat[c])
    && (forall i, j :: 0 <= i && j == i + 1 < |chain| ==> v'.fat[chain[i]] == chain[j])
    && (forall c: uint32 :: c < CLUSTER_MAP_SIZE && c !in chain ==> v'.disk[c] == v.disk[c])
    && (forall j :: 0 <= j < |chain| ==> v'.disk[chain[j]] == Raw(parts[j]))
  }

  /** The cluster the next link goes to; 0 while nothing has been taken. */
  function Last(chain: seq<uint32>): uint32 {
    if chain == [] then 0 else chain[|chain| - 1]
  }

  function Linking(fat: seq<uint32>, chain: seq<uint32>, next: uint32): seq<uint32> {
    if Last(chain) != 0 && Last(chain) < |fat| then fat[Last(chain) := next] else fat
  }

  lemma TakeNothing(v: Volume, parts: seq<seq<byte>>)
    ensures Taking(v, v, [], parts) && Last([]) == 0
    ensures Scanned(v.fat, 3, [])
  {
    assert [] + FreeFrom(v.fat, 3) == FreeFrom(v.fat, 3);
  }

  /** What lies ahead of the scan is as it was when the scan began. */
  lemma TakeAhead(v: Volume, v': Volume, chain: seq<uint32>, parts: seq<seq<byte>>, i: uint32)
    requires Taking(v, v', chain, parts) && i < CLUSTER_MAP_SIZE && Scanned(v.fat, i, chain)
    ensures i !in chain && v'.fat[i] == v.fat[i]
  {
  }

  lemma TakeOne(v: Volume, v': Volume, v'': Volume, chain: seq<uint32>, parts: seq<seq<byte>>, i: uint32)
    requires Taking(v, v', chain, parts) && |chain| < |parts|
    requires 3 <= i < CLUSTER_MAP_SIZE && forall j :: 0 <= j < |chain| ==> chain[j] < i
    requires v''.fat == Linking(v'.fat, chain, i)
    requires v''.disk == v'.disk[i := Raw(parts[|chain|])]
    ensures Taking(v, v'', chain + [i], parts)
  {
    var more := chain + [i];
    hide Linking;
    OneMore(chain, i);
    TakeOneTable(v, v', v'', chain, parts, i);
    forall a, b | 0 <= a && b == a + 1 < |more|
      ensures v''.fat[more[a]] == more[b]
    {
      TakeOneLink(v, v', v'', chain, parts, i, a);
    }
    TakeOneFill(v, v', v'', chain, parts, i);
  }

  lemma TakeOneFill(v: Volume, v': Volume, v'': Volume, chain: seq<uint32>, parts: seq<seq<byte>>, i: uint32)
    requires Taking(v, v', chain, parts) && |chain| < |parts| && i < CLUSTER_MAP_SIZE && i !in chain
    requires v''.disk == v'.disk[i := Raw(parts[|chain|])]
    ensures forall c: uint32 :: c < CLUSTER_MAP_SIZE && c !in chain && c != i ==> v''.disk[c] == v.disk[c]
    ensures forall j :: 0 <= j < |chain| ==> v''.disk[chain[j]] == Raw(parts[j])
  {
    forall j | 0 <= j < |chain|
      ensures v''.disk[chain[j]] == Raw(parts[j])
    {
      assert chain[j] in chain;
    }
  }

  lemma OneMore(chain: seq<uint32>, i: uint32)
    requires Ascending(chain) && forall j :: 0 <= j < |chain| ==> chain[j] < i
    ensures Ascending(chain + [i]) && i !in chain
    ensures forall c :: c in chain + [i] <==> c in chain || c == i
    ensures forall j :: 0 <= j < |chain| ==> (chain + [i])[j] == chain[j]
    ensures Last(chain + [i]) == i
  {
  }

  lemma TakeOneTable(v: Volume, v': Volume, v'': Volume, chain: seq<uint32>, parts: seq<seq<byte>>, i: uint32)
    requires Taking(v, v', chain, parts) && i < CLUSTER_MAP_SIZE && i !in chain
    requires v''.fat == Linking(v'.fat, chain, i)
    ensures forall c: uint32 :: c < CLUSTER_MAP_SIZE && c !in chain ==> v''.fat[c] == v.fat[c]
  {
    if chain != [] {
      assert Last(chain) in chain;
    }
  }

  lemma TakeOneLink(v: Volume, v': Volume, v'': Volume, chain: seq<uint32>, parts: seq<seq<byte>>, i: uint32, a: nat)
    requires Taking(v, v', chain, parts) && a < |chain|
    requires v''.fat == Linking(v'.fat, chain, i)
    ensures v''.fat[chain[a]] == (chain + [i])[a + 1]
  {
    var b := a + 1;
    if b < |chain| {
      assert chain[a] < chain[|chain| - 1];
      assert v'.fat[chain[a]] == chain[b];
    }
  }

  lemma TakeLast(v: Volume, v': Volume, v'': Volume, chain: seq<uint32>, parts: seq<seq<byte>>)
    requires Taking(v, v', chain, parts)
    requires v'' == Vol(v'.fat[Last(chain) := END_OF_FILE], v'.disk)
    ensures Chained(v, v'', chain, parts)
  {
    forall a, b | 0 <= a && b == a + 1 < |chain|
      ensures v''.fat[chain[a]] == chain[b]
    {
      assert chain[a] < chain[|chain| - 1];
    }
    if chain != [] {
      assert Last(chain) in chain;
    }
  }

  /** What was written is what the chain holds. */
  lemma {:induction false} ChainHolds(disk: seq<Cluster>, chain: seq<uint32>, parts: seq<seq<byte>>)
    requires |chain| == |parts|
    requires forall j :: 0 <= j < |chain| ==> chain[j] < |disk| && disk[chain[j]] == Raw(parts[j])
    ensures ChainBytes(disk, chain) == Concat(parts)
  {
    if chain != [] {
      var n := |chain| - 1;
      ChainHolds(disk, chain[..n], parts[..n]);
    }
  }

  lemma ClustersCover(size: uint32)
    ensures size <= Span(ClustersFor(size))
    ensures size > 0 ==> ClustersFor(size) > 0 && Span(ClustersFor(size) - 1) < size
  {
  }

  /** From `mid` to `v'` only the table of folder cluster `d` changed, in one slot. */
  ghost predicate Recorded(v: Volume, mid: Volume, v': Volume, d: uint32, slot: nat, e: DirEntry)
    requires d < CLUSTER_MAP_SIZE && IsTable(v.disk[d]) && slot < SLOTS
  {
    && v'.fat == mid.fat
    && v'.disk[d] == Table(v.disk[d].entries[slot := e])
    && forall c: uint32 :: 2 <= c < CLUSTER_MAP_SIZE && c != d ==> v'.disk[c] == mid.disk[c]
  }

  /** `n` is a file node for the first clusters of the free list, in a clear slot of `p`. */
  ghost predicate FirstFit(v: Volume, lay: Layout, p: Path, k: Key, n: Node) {
    && Inv(v, lay) && p in lay.nodes && lay.nodes[p].Folder? && NodeOk(v, lay.nodes, p)
    && Child(p, k) !in lay.nodes
    && n.File? && 2 <= n.slot < SLOTS && !v.disk[lay.nodes[p].cluster].entries[n.slot].notEmpty
    && 0 < n.size && |n.chain| == ClustersFor(n.size) <= FreeCount(v.fat)
    && n.chain == FreeList(v.fat)[..|n.chain|]
  }

  lemma FirstFitFree(v: Volume, lay: Layout, p: Path, k: Key, n: Node)
    requires FirstFit(v, lay, p, k, n)
    ensures Ascending(n.chain)
    ensures forall c: uint32 :: n.Has(c) ==> 3 <= c < CLUSTER_MAP_SIZE && v.fat[c] == EMPTY_ENTRY
    ensures forall c: uint32 :: n.Has(c) ==> c != lay.nodes[p].cluster
    ensures Addable(v, lay, p, k, n)
  {
    FreeFromFree(v.fat, 3);
    forall c: uint32 | n.Has(c)
      ensures c in FreeList(v.fat)
    {
    }
  }

  lemma FirstFitFilled(v: Volume, mid: Volume, v': Volume, lay: Layout, p: Path, k: Key, n: Node, parts: seq<seq<byte>>)
    requires FirstFit(v, lay, p, k, n) && |parts| == |n.chain|
    requires Chained(v, mid, n.chain, parts)
    requires Recorded(v, mid, v', lay.nodes[p].cluster, n.slot, n.Entry(k))
    ensures forall j :: 0 <= j < |n.chain| ==> n.chain[j] < CLUSTER_MAP_SIZE && v'.disk[n.chain[j]] == Raw(parts[j])
  {
    FirstFitFree(v, lay, p, k, n);
    forall j | 0 <= j < |n.chain|
      ensures n.chain[j] < CLUSTER_MAP_SIZE && v'.disk[n.chain[j]] == Raw(parts[j])
    {
      assert n.Has(n.chain[j]);
    }
  }

  lemma FirstFitAdded(v: Volume, mid: Volume, v': Volume, lay: Layout, p: Path, k: Key, n: Node, parts: seq<seq<byte>>)
    requires FirstFit(v, lay, p, k, n) && |parts| == |n.chain|
    requires forall j :: 0 <= j < |parts| ==> |parts[j]| == CLUSTER_SIZE
    requires Chained(v, mid, n.chain, parts)
    requires Recorded(v, mid, v', lay.nodes[p].cluster, n.slot, n.Entry(k))
    ensures Addable(v, lay, p, k, n) && Added(v, v', lay, p, k, n)
  {
    FirstFitFree(v, lay, p, k, n);
    FirstFitFilled(v, mid, v', lay, p, k, n, parts);
    ClustersCover(n.size);
    assert ChainOk(v', n.chain);
  }

  /** Writing a file whose clusters all fit adds it to the tree with the buffer's bytes. */
  lemma AddFile(v: Volume, mid: Volume, v': Volume, lay: Layout, p: Path, k: Key, n: Node, data: seq<byte>)
    requires FirstFit(v, lay, p, k, n) && Span(|n.chain|) <= |data|
    requires Chained(v, mid, n.chain, Parts(data, |n.chain|))
    requires Recorded(v, mid, v', lay.nodes[p].cluster, n.slot, n.Entry(k))
    ensures Inv(v', WithNode(lay, Child(p, k), n))
    ensures n.size <= |data|
    ensures TreeOf(v', WithNode(lay, Child(p, k), n))
         == TreeOf(v, lay)[Child(p, k) := Document(data[..n.size])]
  {
    var parts := Parts(data, |n.chain|);
    forall j: nat | j < |parts|
      ensures |parts[j]| == CLUSTER_SIZE
    {
      PartAt(data, |n.chain|, j);
    }
    FirstFitAdded(v, mid, v', lay, p, k, n, parts);
    FirstFitFilled(v, mid, v', lay, p, k, n, parts);
    AddNode(v, v', lay, p, k, n);
    ChainHolds(v'.disk, n.chain, parts);
    TruncatedParts(n.size, data);
  }

  lemma PrefixOfPrefix(data: seq<byte>, i: nat, n: nat)
    requires i <= n <= |data|
    ensures data[..n][..i] == data[..i]
  {
  }

  lemma TruncatedParts(size: uint32, data: seq<byte>)
    requires Span(ClustersFor(size)) <= |data|
    ensures size <= |data|
    ensures Truncated(Concat(Parts(data, ClustersFor(size))), size) == data[..size]
  {
    hide Concat, Parts, ClustersFor;
    ConcatParts(data, ClustersFor(size));
    ClustersCover(size);
    PrefixOfPrefix(data, size, Span(ClustersFor(size)));
  }

  /** The table of a new folder. */
  ghost predicate FreshTable(t: seq<DirEntry>, c: uint32, parent: uint32) {
    && |t| == SLOTS && t[0].subdirectory && t[0].notEmpty && t[0].cluster == c
    && t[1] == ParentEntry(parent)
    && forall i :: 2 <= i < SLOTS ==> t[i] == EMPTY_SLOT
  }

  /** Writing a folder into a free cluster adds it to the tree, empty. */
  lemma AddFolder(v: Volume, v': Volume, lay: Layout, p: Path, k: Key, n: Node)
    requires Inv(v, lay) && p in lay.nodes && lay.nodes[p].Folder? && NodeOk(v, lay.nodes, p)
    requires Child(p, k) !in lay.nodes
    requires n.Folder? && 2 <= n.slot < SLOTS && !v.disk[lay.nodes[p].cluster].entries[n.slot].notEmpty
    requires 3 <= n.cluster < CLUSTER_MAP_SIZE && v.fat[n.cluster] == EMPTY_ENTRY
    requires v'.fat == v.fat[n.cluster := END_OF_FILE]
    requires IsTable(v'.disk[n.cluster]) && FreshTable(v'.disk[n.cluster].entries, n.cluster, lay.nodes[p].cluster)
    requires var d := lay.nodes[p].cluster;
      && v'.disk[d] == Table(v.disk[d].entries[n.slot := n.Entry(k)])
      && forall c :: 2 <= c < CLUSTER_MAP_SIZE && c != d && c != n.cluster ==> v'.disk[c] == v.disk[c]
    ensures Inv(v', WithNode(lay, Child(p, k), n))
    ensures TreeOf(v', WithNode(lay, Child(p, k), n)) == TreeOf(v, lay)[Child(p, k) := Directory]
  {
    var q := Child(p, k);
    var nodes' := lay.nodes[q := n];
    var t := v'.disk[n.cluster].entries;
    forall i: nat {:trigger SlotOk(nodes', q, t[i], i)} | 2 <= i < SLOTS
      ensures SlotOk(nodes', q, t[i], i)
    {
    }
    assert NodeOk(v', nodes', q);
    AddNode(v, v', lay, p, k, n);
  }
}
