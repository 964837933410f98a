/** What a copied folder is: the subtree it repeats, and the clusters that this costs. */
module Copying {
  import opened Codec
  import opened Sets
  import opened Paths
  import opened Volumes
  import opened Insertion
  import opened FreeSpace
  import opened Allocation
  import opened Removal
  import opened Erasure
  import opened WriteOutcome

  // ---- trees ------------------------------------------------------------------------------

  /** The tree at `p`, taken by itself. */
  ghost function Subtree(t: Tree, p: Path): Tree {
    map r | r in (set q | q in t && Under(p, q) :: Rebase(q, p, Root)) && Carried(t, p, r) :: t[Rebase(r, Root, p)]
  }

  ghost predicate Carried(t: Tree, p: Path, r: Path) {
    Under(Root, r) && Rebase(r, Root, p) in t
  }

  /** All folders below `p` have no extension. */
  ghost predicate PlainBelow(t: Tree, p: Path) {
    forall q :: q in t && Under(p, q) && q != p && t[q] == Directory ==> q.key.ext == NO_EXT
  }

  /** `t'` is `t` with what lies below `s` repeated below `d`. */
  ghost predicate IsGraft(t: Tree, t': Tree, s: Path, d: Path) {
    && (forall p :: p in t ==> p in t' && t'[p] == t[p])
    && (forall q :: q in t && Under(s, q) && q != s ==> Rebase(q, s, d) in t' && t'[Rebase(q, s, d)] == t[q])
    && (forall r :: r in t' && r !in t ==> Under(d, r) && r != d && Rebase(r, d, s) in t)
  }

  /** The key of an entry's copy: a folder loses its extension. */
  ghost function Bare(t: Tree, q: Path): Key
    requires q.Child?
  {
    if q in t && t[q] == Directory then Key(q.key.name, NO_EXT) else q.key
  }

  /** Where the copy of the contents of `s` into `d` puts `q`. */
  ghost function Image(t: Tree, q: Path, s: Path, d: Path): Path
    requires Under(s, q)
  {
    if q == s then d else Child(Image(t, q.parent, s, d), Bare(t, q))
  }

  /** No two entries of a folder at or below `s` have copies with the same key. */
  ghost predicate BareDistinct(t: Tree, s: Path) {
    forall p, j, k :: Under(s, p) && BareClash(t, p, j, k) ==> j == k
  }

  ghost predicate BareClash(t: Tree, p: Path, j: Key, k: Key) {
    Child(p, j) in t && Child(p, k) in t && Bare(t, Child(p, j)) == Bare(t, Child(p, k))
  }

  /** `t'` is `t` with what lies below `s` repeated below `d`, without the extensions of folders. */
  ghost predicate IsImage(t: Tree, t': Tree, s: Path, d: Path) {
    && (forall p :: p in t ==> p in t' && t'[p] == t[p])
    && (forall q :: q in t && Under(s, q) && q != s ==> Image(t, q, s, d) in t' && t'[Image(t, q, s, d)] == t[q])
    && (forall r :: r in t' && r !in t ==> exists q :: q in t && Under(s, q) && q != s && Image(t, q, s, d) == r)
  }

  /** What lies below `d` in `t'` is what lies below `s` in `t`, without the extensions of folders. */
  ghost predicate Repeats(t: Tree, t': Tree, s: Path, d: Path) {
    && (forall q :: q in t && Under(s, q) && q != s ==> Image(t, q, s, d) in t' && t'[Image(t, q, s, d)] == t[q])
    && (forall r :: r in t' && Under(d, r) && r != d ==> exists q :: q in t && Under(s, q) && q != s && Image(t, q, s, d) == r)
  }

  /** An image below an empty folder, told by what lay under the source before that was made. */
  lemma ImageRepeats(t: Tree, t2: Tree, t3: Tree, s: Path, d: Path)
    requires forall x :: Under(s, x) ==> (x in t <==> x in t2) && (x in t ==> t2[x] == t[x])
    requires (forall r :: r in t2 && Under(d, r) ==> r == d) && IsImage(t2, t3, s, d)
    ensures Repeats(t, t3, s, d)
  {
    forall q | Under(s, q)
      ensures Image(t2, q, s, d) == Image(t, q, s, d)
    {
      ImageFrame(t, t2, q, s, d);
    }
  }

  lemma {:induction false} ImageUnder(t: Tree, q: Path, s: Path, d: Path)
    requires Under(s, q)
    ensures Under(d, Image(t, q, s, d)) && Depth(Image(t, q, s, d)) + Depth(s) == Depth(q) + Depth(d)
  {
    if q != s {
      ImageUnder(t, q.parent, s, d);
    }
  }

  /** Images go through the image of the child on the way. */
  lemma {:induction false} ImageChild(t: Tree, q: Path, s: Path, k: Key, d: Path)
    requires Under(Child(s, k), q)
    ensures Under(s, q) && Image(t, q, s, d) == Image(t, q, Child(s, k), Child(d, Bare(t, Child(s, k))))
  {
    StepUnique(s, k, q);
    if q != Child(s, k) {
      ImageChild(t, q.parent, s, k, d);
    }
  }

  /** Images depend only on what lies under the source. */
  lemma {:induction false} ImageFrame(t: Tree, t': Tree, q: Path, s: Path, d: Path)
    requires Under(s, q) && forall x :: Under(s, x) ==> (x in t <==> x in t') && (x in t ==> t'[x] == t[x])
    ensures Image(t', q, s, d) == Image(t, q, s, d)
  {
    if q != s {
      ImageFrame(t, t', q.parent, s, d);
    }
  }

  lemma DistinctFrame(t: Tree, t': Tree, s: Path)
    requires forall x :: Under(s, x) ==> (x in t <==> x in t') && (x in t ==> t'[x] == t[x])
    requires BareDistinct(t, s)
    ensures BareDistinct(t', s)
  {
    forall p, j, k | Under(s, p) && BareClash(t', p, j, k)
      ensures j == k
    {
      assert Under(s, Child(p, j)) && Under(s, Child(p, k));
      assert BareClash(t, p, j, k);
    }
  }

  lemma DistinctFurther(t: Tree, s: Path, a: Path)
    requires BareDistinct(t, s) && Under(s, a)
    ensures BareDistinct(t, a)
  {
    forall p, j, k | Under(a, p) && BareClash(t, p, j, k)
      ensures j == k
    {
      UnderTransitive(s, a, p);
    }
  }

  /** Where no folder has an extension nothing clashes, and the image is the path carried over. */
  lemma {:induction false} PlainImage(t: Tree, q: Path, s: Path, d: Path)
    requires PlainBelow(t, s) && Under(s, q)
    ensures Image(t, q, s, d) == Rebase(q, s, d)
  {
    if q != s {
      PlainImage(t, q.parent, s, d);
      if q in t && t[q] == Directory {
        assert q.key == Key(q.key.name, NO_EXT);
      }
    }
  }

  lemma PlainDistinct(t: Tree, s: Path)
    requires PlainBelow(t, s)
    ensures BareDistinct(t, s)
  {
    forall p, j, k | Under(s, p) && BareClash(t, p, j, k)
      ensures j == k
    {
      PlainKey(t, s, p, j);
      PlainKey(t, s, p, k);
    }
  }

  lemma PlainKey(t: Tree, s: Path, p: Path, k: Key)
    requires PlainBelow(t, s) && Under(s, p)
    ensures Bare(t, Child(p, k)) == k
  {
    assert Under(s, Child(p, k));
    UnderDepth(s, p);
    if Child(p, k) in t && t[Child(p, k)] == Directory {
      assert k == Key(k.name, NO_EXT);
    }
  }

  /** Such an image is a graft. */
  lemma PlainIsGraft(t: Tree, t': Tree, s: Path, d: Path)
    requires PlainBelow(t, s) && IsImage(t, t', s, d)
    ensures IsGraft(t, t', s, d)
  {
    forall q | q in t && Under(s, q) && q != s
      ensures Rebase(q, s, d) in t' && t'[Rebase(q, s, d)] == t[q]
    {
      PlainImage(t, q, s, d);
    }
    forall r | r in t' && r !in t
      ensures Under(d, r) && r != d && Rebase(r, d, s) in t
    {
      var q :| q in t && Under(s, q) && q != s && Image(t, q, s, d) == r;
      PlainImage(t, q, s, d);
      RebaseBack(q, s, d);
      UnderDepth(s, q);
    }
  }

  lemma SubtreeIn(t: Tree, p: Path, r: Path)
    ensures r in Subtree(t, p) <==> Carried(t, p, r)
    ensures r in Subtree(t, p) ==> Subtree(t, p)[r] == t[Rebase(r, Root, p)]
  {
    if Carried(t, p, r) {
      RebaseBack(r, Root, p);
      var q := Rebase(r, Root, p);
      assert q in t && Under(p, q) && r == Rebase(q, p, Root);
    }
  }

  /** A graft below an empty folder makes the two subtrees equal. */
  lemma GraftSubtree(t: Tree, t': Tree, s: Path, d: Path)
    requires IsGraft(t, t', s, d) && s in t && d in t && t[s] == t[d]
    requires forall q :: q in t && Under(d, q) ==> q == d
    ensures Subtree(t', d) == Subtree(t, s)
  {
    forall r
      ensures r in Subtree(t', d) <==> r in Subtree(t, s)
      ensures r in Subtree(t', d) ==> Subtree(t', d)[r] == Subtree(t, s)[r]
    {
      SubtreeIn(t', d, r);
      SubtreeIn(t, s, r);
      if Under(Root, r) {
        var a, b := Rebase(r, Root, s), Rebase(r, Root, d);
        RebaseChain(r, Root, s, d);
        RebaseChain(r, Root, d, s);
        if b in t' && b !in t {
          assert Rebase(b, d, s) == a;
        }
        UnderDepth(s, a);
        UnderDepth(d, b);
      }
    }
  }

  /** Carrying over in two steps is carrying over at once. */
  lemma {:induction false} RebaseChain(r: Path, p: Path, s: Path, d: Path)
    requires Under(p, r)
    ensures Rebase(Rebase(r, p, s), s, d) == Rebase(r, p, d)
  {
    if r != p {
      RebaseChain(r.parent, p, s, d);
      UnderDepth(p, r);
    }
  }

  /** Neither path lies under the other. */
  predicate Apart(s: Path, d: Path) {
    !Under(s, d) && !Under(d, s)
  }

  /** What lies under the one is apart from what lies under the other. */
  lemma ApartChildren(s: Path, d: Path, a: Path, b: Path)
    requires Apart(s, d) && Under(s, a) && Under(d, b)
    ensures Apart(a, b)
  {
    if Under(a, b) {
      UnderTransitive(s, a, b);
      ApartBelow(s, d, b);
    }
    if Under(b, a) {
      UnderTransitive(d, b, a);
      ApartBelow(d, s, a);
    }
  }

  // ---- what a copy costs ------------------------------------------------------------------

  /** The clusters below `p`: what copying its contents costs. */
  ghost function BelowSet(lay: Layout, p: Path): set<uint32> {
    set c | c in UnderSet(lay, p) && lay.owner[c] != p
  }

  /** The clusters below the children of `p` in the slots under `i`. */
  ghost function DoneSet(lay: Layout, p: Path, i: nat): set<uint32> {
    set c | c in lay.owner && Done(lay, p, i, c)
  }

  lemma DoneStart(lay: Layout, p: Path)
    requires Structured(lay)
    ensures DoneSet(lay, p, 2) == {}
  {
    forall c: uint32 | OwnedUnder(lay, p, c) && lay.owner[c] != p && Step(p, lay.owner[c]) in lay.nodes
      ensures lay.nodes[Step(p, lay.owner[c])].slot >= 2
    {
      var s := Step(p, lay.owner[c]);
      assert Child(s.parent, s.key) in lay.nodes;
    }
  }

  lemma DoneEnd(lay: Layout, p: Path)
    requires Structured(lay)
    ensures DoneSet(lay, p, SLOTS) == BelowSet(lay, p)
  {
    forall c: uint32 | c in BelowSet(lay, p)
      ensures Done(lay, p, SLOTS, c)
    {
      var q := lay.owner[c];
      StepInNodes(lay, p, q);
      assert Child(p, Step(p, q).key) in lay.nodes;
    }
  }

  /** The cost of one slot: nothing if it is clear, its child's clusters otherwise. */
  lemma DoneGrows(v: Volume, lay: Layout, p: Path, i: nat)
    requires Inv(v, lay) && p in lay.nodes && lay.nodes[p].Folder? && 2 <= i < SLOTS
    ensures lay.nodes[p].cluster < CLUSTER_MAP_SIZE && IsTable(v.disk[lay.nodes[p].cluster])
    ensures var e := v.disk[lay.nodes[p].cluster].entries[i];
      if e.notEmpty then |DoneSet(lay, p, i + 1)| == |DoneSet(lay, p, i)| + |UnderSet(lay, Child(p, KeyOf(e)))|
      else DoneSet(lay, p, i + 1) == DoneSet(lay, p, i)
    ensures |DoneSet(lay, p, i + 1)| <= |BelowSet(lay, p)|
  {
    SlotIsChild(v, lay, p, i);
    DoneSplits(v, lay, p, i);
    SubsetSize(DoneSet(lay, p, i + 1), BelowSet(lay, p));
  }

  /** Slot `i` adds what its child owns, which was not counted before. */
  lemma DoneSplits(v: Volume, lay: Layout, p: Path, i: nat)
    requires Inv(v, lay) && p in lay.nodes && lay.nodes[p].Folder? && 2 <= i < SLOTS
    ensures lay.nodes[p].cluster < CLUSTER_MAP_SIZE && IsTable(v.disk[lay.nodes[p].cluster])
    ensures var e := v.disk[lay.nodes[p].cluster].entries[i];
      if e.notEmpty then
        DoneSet(lay, p, i + 1) == DoneSet(lay, p, i) + UnderSet(lay, Child(p, KeyOf(e)))
        && DoneSet(lay, p, i) !! UnderSet(lay, Child(p, KeyOf(e)))
      else DoneSet(lay, p, i + 1) == DoneSet(lay, p, i)
  {
    SlotIsChild(v, lay, p, i);
    assert NodeOk(v, lay.nodes, p);
    var e := v.disk[lay.nodes[p].cluster].entries[i];
    forall c: uint32
      ensures Done(lay, p, i + 1, c) <==> Done(lay, p, i, c) || (e.notEmpty && OwnedUnder(lay, Child(p, KeyOf(e)), c))
      ensures !(e.notEmpty && Done(lay, p, i, c) && OwnedUnder(lay, Child(p, KeyOf(e)), c))
    {
      DoneNext(v, lay, p, i, c);
      if e.notEmpty && OwnedUnder(lay, Child(p, KeyOf(e)), c) {
        StepUnique(p, KeyOf(e), lay.owner[c]);
      }
    }
  }

  lemma FolderCost(lay: Layout, q: Path)
    requires Structured(lay) && q in lay.nodes && lay.nodes[q].Folder?
    ensures |UnderSet(lay, q)| == 1 + |BelowSet(lay, q)|
  {
    var d := lay.nodes[q].cluster;
    assert lay.nodes[q].Has(d);
    assert UnderSet(lay, q) == BelowSet(lay, q) + {d};
  }

  /** A file is as long as its entry says, and is held in its clusters from the start. */
  lemma FileBytes(v: Volume, lay: Layout, q: Path)
    requires Inv(v, lay) && q in lay.nodes && lay.nodes[q].File?
    ensures var n := lay.nodes[q];
      && |ChainBytes(v.disk, n.chain)| == Span(|n.chain|) && n.size <= Span(|n.chain|)
      && |n.chain| == ClustersFor(n.size)
      && TreeOf(v, lay)[q] == Document(ChainBytes(v.disk, n.chain)[..n.size])
      && |TreeOf(v, lay)[q].data| == n.size
  {
    assert NodeOk(v, lay.nodes, q);
    ChainLength(v.disk, lay.nodes[q].chain);
    ClustersCover(lay.nodes[q].size);
  }

  lemma {:induction false} ChainLength(disk: seq<Cluster>, chain: seq<uint32>)
    requires |disk| == CLUSTER_MAP_SIZE && DataClusters(disk, chain)
    ensures |ChainBytes(disk, chain)| == Span(|chain|)
  {
    if chain != [] {
      ChainLength(disk, chain[..|chain| - 1]);
    }
  }

  lemma FileCost(v: Volume, lay: Layout, q: Path)
    requires Inv(v, lay) && q in lay.nodes && lay.nodes[q].File?
    ensures TreeOf(v, lay)[q].Document? && |UnderSet(lay, q)| == ClustersFor(|TreeOf(v, lay)[q].data|)
  {
    FileBytes(v, lay, q);
    assert NodeOk(v, lay.nodes, q);
    AscendingSize(lay.nodes[q].chain);
    forall c: uint32
      ensures c in UnderSet(lay, q) <==> c in Elements(lay.nodes[q].chain)
    {
      FileOwns(lay, q, c);
    }
    assert UnderSet(lay, q) == Elements(lay.nodes[q].chain);
  }

  /** Two children of a folder do not share a slot. */
  lemma SameSlot(v: Volume, lay: Layout, p: Path, j: Key, k: Key)
    requires Inv(v, lay) && Child(p, j) in lay.nodes && Child(p, k) in lay.nodes
    requires lay.nodes[Child(p, j)].slot == lay.nodes[Child(p, k)].slot
    ensures j == k
  {
    ChildHasSlot(v, lay, p, j);
    ChildHasSlot(v, lay, p, k);
    assert KeyOf(lay.nodes[Child(p, j)].Entry(j)) == j && KeyOf(lay.nodes[Child(p, k)].Entry(k)) == k;
  }
}
