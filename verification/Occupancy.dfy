/** How many entries a folder holds: its table is full exactly when all slots but the first two
    hold a child. */
module Occupancy {
  import opened Codec
  import opened Sets
  import opened Paths
  import opened Volumes

  ghost predicate TableFull(t: seq<DirEntry>)
    requires |t| == SLOTS
  {
    forall i :: 2 <= i < SLOTS ==> t[i].notEmpty
  }

  ghost function ChildrenOf(t: Tree, p: Path): set<Path> {
    set q | q in t && q.Child? && q.parent == p
  }

  /** The folder holds as many entries as a table can. */
  ghost predicate Crowded(t: Tree, p: Path) {
    |ChildrenOf(t, p)| == SLOTS - 2
  }

  ghost function UsedSlots(t: seq<DirEntry>): set<nat>
    requires |t| == SLOTS
  {
    set i: nat | 2 <= i < SLOTS && t[i].notEmpty
  }

  ghost function Between(lo: nat, hi: nat): (s: set<nat>)
    requires lo <= hi
    ensures |s| == hi - lo && forall i: nat :: i in s <==> lo <= i < hi
    decreases hi
  {
    if lo == hi then {} else Between(lo, hi - 1) + {hi - 1}
  }

  lemma UsedSlotsSize(t: seq<DirEntry>)
    requires |t| == SLOTS
    ensures |UsedSlots(t)| <= SLOTS - 2
    ensures |UsedSlots(t)| == SLOTS - 2 <==> TableFull(t)
  {
    UsedWithin(t, Between(2, SLOTS));
  }

  lemma UsedWithin(t: seq<DirEntry>, all: set<nat>)
    requires |t| == SLOTS && forall i: nat :: i in all <==> 2 <= i < SLOTS
    ensures |UsedSlots(t)| <= |all|
    ensures |UsedSlots(t)| == |all| <==> TableFull(t)
  {
    SubsetSize(UsedSlots(t), all);
    if TableFull(t) {
      assert UsedSlots(t) == all;
    } else {
      var i: nat :| 2 <= i < SLOTS && !t[i].notEmpty;
      assert i in all && i !in UsedSlots(t);
    }
  }

  /** `f` pairs each element of `a` with its own element of `b`, and leaves none of `b` out. */
  ghost predicate Pairs(f: map<Path, nat>, a: set<Path>, b: set<nat>) {
    && (forall x :: x in a ==> x in f && f[x] in b)
    && (forall x, y :: x in a && y in a && f[x] == f[y] ==> x == y)
    && (forall z :: z in b ==> exists x :: x in a && f[x] == z)
  }

  lemma {:induction false} PairsSize(f: map<Path, nat>, a: set<Path>, b: set<nat>)
    requires Pairs(f, a, b)
    ensures |a| == |b|
    decreases a
  {
    if a == {} {
      assert b == {};
    } else {
      var x :| x in a;
      PairsSize(f, a - {x}, b - {f[x]});
    }
  }

  /** A folder has as many children as its table has used slots. */
  lemma ChildrenFillSlots(v: Volume, lay: Layout, p: Path)
    requires Inv(v, lay) && p in lay.nodes && lay.nodes[p].Folder?
    ensures lay.nodes[p].cluster < CLUSTER_MAP_SIZE && IsTable(v.disk[lay.nodes[p].cluster])
    ensures |ChildrenOf(TreeOf(v, lay), p)| == |UsedSlots(v.disk[lay.nodes[p].cluster].entries)|
  {
    assert NodeOk(v, lay.nodes, p);
    var entries := v.disk[lay.nodes[p].cluster].entries;
    var a, b := ChildrenOf(TreeOf(v, lay), p), UsedSlots(entries);
    var f := map q | q in a :: lay.nodes[q].slot;
    forall x | x in a
      ensures f[x] in b && KeyOf(entries[f[x]]) == x.key
    {
      ChildHasSlot(v, lay, p, x.key);
    }
    forall z | z in b
      ensures exists x :: x in a && f[x] == z
    {
      SlotIsChild(v, lay, p, z);
      assert Child(p, KeyOf(entries[z])) in a;
    }
    PairsSize(f, a, b);
  }

  /** A table has no clear slot exactly when its folder holds all the entries it can. */
  lemma CrowdedTable(v: Volume, lay: Layout, p: Path)
    requires Inv(v, lay) && p in lay.nodes && lay.nodes[p].Folder?
    ensures lay.nodes[p].cluster < CLUSTER_MAP_SIZE && IsTable(v.disk[lay.nodes[p].cluster])
    ensures Crowded(TreeOf(v, lay), p) <==> TableFull(v.disk[lay.nodes[p].cluster].entries)
    ensures |ChildrenOf(TreeOf(v, lay), p)| <= SLOTS - 2
  {
    ChildrenFillSlots(v, lay, p);
    UsedSlotsSize(v.disk[lay.nodes[p].cluster].entries);
  }

  /** Where something was removed there is room. */
  lemma RemovalMakesRoom(v: Volume, lay: Layout, q: Path)
    requires Inv(v, lay) && q.Child? && q in lay.nodes
    ensures !Crowded(RemoveTree(TreeOf(v, lay), q), q.parent)
  {
    var t, p := TreeOf(v, lay), q.parent;
    assert Child(p, q.key) in lay.nodes;
    ChildHasSlot(v, lay, p, q.key);
    CrowdedTable(v, lay, p);
    SubsetSize(ChildrenOf(RemoveTree(t, q), p), ChildrenOf(t, p) - {q});
  }
}
