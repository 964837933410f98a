/** Searching a folder for a name, however deep. */
module Finding {
  import opened Codec
  import opened Paths
  import opened Volumes
  import opened Erasure

  /** Something below `p` has this name and extension. */
  ghost predicate FoundBelow(t: Tree, p: Path, k: Key) {
    exists q :: q in t && Under(p, q) && q != p && q.key == k
  }

  /** So far: it is in, or below, one of the slots before `i`. */
  ghost predicate FoundBefore(lay: Layout, p: Path, k: Key, i: nat) {
    exists q :: q in lay.nodes && Under(p, q) && q != p && q.key == k
                && Step(p, q) in lay.nodes && lay.nodes[Step(p, q)].slot < i
  }

  /** A slot adds the name it holds, and whatever is below it. */
  lemma FoundNext(v: Volume, lay: Layout, p: Path, k: Key, i: nat)
    requires Inv(v, lay) && p in lay.nodes && lay.nodes[p].Folder? && 2 <= i < SLOTS
    requires lay.nodes[p].cluster < CLUSTER_MAP_SIZE && IsTable(v.disk[lay.nodes[p].cluster])
    ensures var e := v.disk[lay.nodes[p].cluster].entries[i];
      FoundBefore(lay, p, k, i + 1) <==>
      FoundBefore(lay, p, k, i)
      || (e.notEmpty && (KeyOf(e) == k || (e.subdirectory && FoundBelow(TreeOf(v, lay), Child(p, KeyOf(e)), k))))
  {
    var e := v.disk[lay.nodes[p].cluster].entries[i];
    SlotIsChild(v, lay, p, i);
    if e.notEmpty {
      FoundAt(v, lay, p, k, KeyOf(e));
    }
    forall q | q in lay.nodes && Under(p, q) && q != p && Step(p, q) in lay.nodes && lay.nodes[Step(p, q)].slot == i
      ensures e.notEmpty && Step(p, q) == Child(p, KeyOf(e))
    {
      var c := Step(p, q);
      ChildHasSlot(v, lay, p, c.key);
      assert KeyOf(lay.nodes[c].Entry(c.key)) == c.key;
    }
  }

  /** What is found at a child, or below it. */
  lemma FoundAt(v: Volume, lay: Layout, p: Path, k: Key, j: Key)
    requires Inv(v, lay) && Child(p, j) in lay.nodes
    ensures (exists q :: q in lay.nodes && Under(p, q) && q != p && q.key == k && Step(p, q) == Child(p, j))
       <==> j == k || (lay.nodes[Child(p, j)].Folder? && FoundBelow(TreeOf(v, lay), Child(p, j), k))
  {
    var c := Child(p, j);
    assert Under(p, c);
    UnderDepth(p, c);
    if j == k {
      assert c in lay.nodes && Under(p, c) && c != p && c.key == k && Step(p, c) == c;
    }
    if q :| q in lay.nodes && Under(p, q) && q != p && q.key == k && Step(p, q) == c {
      if q != c && lay.nodes[c].File? {
        FileHasNoChildren(lay, c, q);
      }
    }
    if FoundBelow(TreeOf(v, lay), c, k) {
      var q :| q in TreeOf(v, lay) && Under(c, q) && q != c && q.key == k;
      UnderTransitive(p, c, q);
      UnderDepth(c, q);
      StepUnique(p, j, q);
    }
  }

  /** All slots seen: everything below has been seen. */
  lemma FoundAll(v: Volume, lay: Layout, p: Path, k: Key)
    requires Inv(v, lay) && p in lay.nodes
    ensures FoundBefore(lay, p, k, SLOTS) <==> FoundBelow(TreeOf(v, lay), p, k)
    ensures !FoundBefore(lay, p, k, 2)
  {
    forall q | q in lay.nodes && Under(p, q) && q != p
      ensures Step(p, q) in lay.nodes && 2 <= lay.nodes[Step(p, q)].slot < SLOTS
    {
      StepInNodes(lay, p, q);
      ChildHasSlot(v, lay, p, Step(p, q).key);
    }
  }
}
