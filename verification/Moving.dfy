/** Moving a folder: a copy to a place apart from it, and the deletion of the original. */
module Moving {
  import opened Codec
  import opened Paths
  import opened Volumes
  import opened Insertion
  import opened FreeSpace
  import opened Removal
  import opened Erasure
  import opened WriteOutcome
  import opened Copying
  import opened Occupancy
  import opened Resolution
  import opened SlotTrees
  import opened FolderCopy
  import opened CopySteps
  import opened Options

  // ---- where a new folder is found ----------------------------------------------------------

  /** The slot a new folder at `d` takes, once what was there is gone. */
  ghost function TargetSlot(o: SlotTree, d: Path): nat
    requires d.Child?
  {
    NextVacant(Without(o, d), d.parent, 2)
  }

  /** The tree once the folder at `d` is made anew. */
  ghost function Made(o: SlotTree, d: Path): SlotTree
    requires d.Child?
  {
    Put(Without(o, d), d.parent, d.key, Directory)
  }

  /** The folder that a lookup by the name of `d` finds then. */
  ghost function Landing(o: SlotTree, d: Path): Path
    requires d.Child?
  {
    var c := FolderNamed(Made(o, d), d.parent, d.key.name);
    if c.Some? then c.value else d
  }

  /** No other folder beside `d` that has its name sits before the slot the new folder takes. */
  ghost predicate FirstOfName(o: SlotTree, d: Path)
    requires d.Child?
  {
    forall j: Key :: j.name == d.key.name && j != d.key && IsDir(o, Child(d.parent, j)) ==>
                       TargetSlot(o, d) < o[Child(d.parent, j)].slot
  }

  /** A folder can be made at `d`, where nothing or a folder is. */
  ghost predicate Makeable(o: SlotTree, d: Path)
    requires d.Child?
  {
    Sound(o) && IsDir(o, d.parent) && TargetSlot(o, d) < SLOTS
  }

  lemma MadeFacts(o: SlotTree, d: Path)
    requires d.Child? && Makeable(o, d)
    ensures Sound(Made(o, d)) && IsDir(Made(o, d), d) && IsDir(Made(o, d), d.parent)
    ensures Made(o, d) == Without(o, d)[d := Item(TargetSlot(o, d), Directory)]
    ensures IsDir(Made(o, d), Landing(o, d)) && Landing(o, d).Child? && Landing(o, d).parent == d.parent
    ensures forall k :: Child(d, k) !in Made(o, d)
  {
    hide NextVacant, Sound, Grown;
    UnderDepth(d.parent, d);
    assert !Under(d, d.parent) by {
      if Under(d, d.parent) {
        UnderDepth(d, d.parent);
      }
    }
    assert d == Child(d.parent, d.key);
    WithoutSound(o, d);
    PutSound(Without(o, d), d.parent, d.key, Directory);
    FoundWhenFirst(Made(o, d), d.parent, d.key);
    forall k
      ensures Child(d, k) !in Made(o, d)
    {
      assert Under(d, Child(d, k));
      UnderDepth(d, Child(d, k));
    }
  }

  /** The lookup finds the new folder exactly when it is the first of its name. */
  lemma LandsWhenFirst(o: SlotTree, d: Path)
    requires d.Child? && Makeable(o, d)
    ensures Landing(o, d) == d <==> FirstOfName(o, d)
  {
    hide NextVacant, Grown, Put;
    var o2, p := Made(o, d), d.parent;
    MadeFacts(o, d);
    FoundWhenFirst(o2, p, d.key);
    assert d == Child(p, d.key);
    forall j: Key
      ensures IsDir(o2, Child(p, j)) <==> j == d.key || IsDir(o, Child(p, j))
      ensures j != d.key && IsDir(o, Child(p, j)) ==>
                o2[Child(p, j)] == o[Child(p, j)] && o2[Child(p, j)].slot != TargetSlot(o, d)
    {
      if j != d.key {
        BesideNotUnder(d, j);
      }
      assert Clash(o2, p, j, d.key) ==> j == d.key;
    }
  }

  lemma BesideNotUnder(d: Path, j: Key)
    requires d.Child? && j != d.key
    ensures !Under(d, Child(d.parent, j))
  {
    if Under(d, Child(d.parent, j)) {
      UnderDepth(d, Child(d.parent, j));
    }
  }

  // ---- what moves and copies do -------------------------------------------------------------

  ghost predicate Childless(t: Tree, s: Path) {
    forall k :: Child(s, k) !in t
  }

  /** The contents of `s` reached the new folder at `d` unchanged: exactly when the lookup by
      name, which leads the copy, finds `d` itself, and no folder below `s` has an extension; or
      when there were no contents. */
  ghost predicate Arrives(o: SlotTree, s: Path, d: Path)
    requires d.Child?
  {
    (FirstOfName(o, d) && PlainBelow(Contents(o), s)) || Childless(Contents(o), s)
  }

  /** What the command leaves at `d` and elsewhere: a folder at `d` with the subtree of `s`, if
      that arrives, or with its entries under their keys without the folders' extensions, if these
      are distinct; and an empty one if the lookup found another folder; then whatever is new lies in
      that other folder. */
  ghost predicate Delivered(o: SlotTree, t': Tree, s: Path, d: Path)
    requires d.Child?
  {
    var t, c := Contents(o), Landing(o, d);
    && d in t' && t'[d] == Directory
    && (Subtree(t', d) == Subtree(t, s) <==> Arrives(o, s, d))
    && (FirstOfName(o, d) && BareDistinct(t, s) ==> Repeats(t, t', s, d))
    && (c != d ==> forall q :: q in t' && Under(d, q) ==> q == d)
    && (forall q :: q in t' && q !in t && !Under(d, q) ==> Under(c, q) && q != c)
  }

  /** The folder at `s` was moved to `d`, in place of what was there: nothing is left at `s`, and
      everything beside `s` and `d` stays. */
  ghost predicate FolderMoved(o: SlotTree, t': Tree, s: Path, d: Path)
    requires d.Child?
  {
    var t := Contents(o);
    && (forall q :: Under(s, q) ==> q !in t')
    && (forall q :: q in t && !Under(s, q) && !Under(d, q) ==> q in t' && t'[q] == t[q])
    && Delivered(o, t', s, d)
  }

  /** The file at `s` went to `d`, taking the place of the file that was there; everything else is
      as it was. A file moved onto itself is lost. */
  ghost predicate FileMoved(t: Tree, t': Tree, s: Path, d: Path) {
    && s in t && s !in t' && (d != s ==> d in t' && t'[d] == t[s])
    && (forall q :: q != s && q != d ==> (q in t' <==> q in t) && (q in t ==> t'[q] == t[q]))
  }

  /** A file may be put at `d`: nothing is there and its folder has room, or a file is there. */
  ghost predicate Accepts(t: Tree, d: Path)
    requires d.Child?
  {
    if d in t then t[d].Document? else !Crowded(t, d.parent)
  }

  /** Where a file ends up: inside a folder that is named as the destination, under its own name;
      otherwise at the destination itself. */
  function FileTarget(source: Target, dest: Target): (d: Path)
    ensures d.Child?
  {
    if dest.code == 1 then Child(Child(dest.parent, dest.key), source.key) else Child(dest.parent, dest.key)
  }

  /** A folder moved onto itself, or onto a folder above it, is deleted with what is there before it
      can be copied, and its cluster goes back to the free ones. If that cluster is the lowest free one
      the new folder gets it, the copy of it onto itself succeeds, and the new folder is deleted again
      when it is the source; otherwise the copy fails, and the new folder stays, empty. */
  ghost predicate Overwritten(v: Volume, lay: Layout, t': Tree, s: Path, d: Path, moved: bool) {
    var t := TreeOf(v, lay);
    && s in lay.nodes && lay.nodes[s].Folder? && (moved <==> Reclaimed(v, lay, lay.nodes[s].cluster, d))
    && t' == if moved && s == d then RemoveTree(t, d) else RemoveTree(t, d)[d := Directory]
  }

  /** No cluster below `c` is free, or is once what lies under `d` is gone. */
  ghost predicate Reclaimed(v: Volume, lay: Layout, c: uint32, d: Path) {
    forall x: uint32 :: 3 <= x < c && x < CLUSTER_MAP_SIZE ==> v.fat[x] != EMPTY_ENTRY && !OwnedUnder(lay, d, x)
  }

  /** The source is a folder at or below the target. */
  ghost predicate Overlapping(source: Target, dest: Target) {
    source.code == 1 && 1 <= dest.code <= 2 && Under(Child(dest.parent, dest.key), Child(source.parent, source.key))
  }

  /** What a move command does, given what its two path names resolve to. */
  ghost predicate MoveEffect(v: Volume, lay: Layout, t': Tree, source: Target, dest: Target, moved: bool) {
    var o, t, s, d := SlotTreeOf(v, lay), TreeOf(v, lay), Child(source.parent, source.key), Child(dest.parent, dest.key);
    if Overlapping(source, dest) then
      Overwritten(v, lay, t', s, d, moved)
    else
      && (!moved ==> t' == t)
      && if source.code == 0 && dest.code <= 2 then
           && (moved <==> Accepts(t, FileTarget(source, dest)))
           && (moved ==> FileMoved(t, t', s, FileTarget(source, dest)))
         else if source.code == 1 && 1 <= dest.code <= 2 then
           && (moved <==> dest.code == 1 || !Crowded(t, dest.parent))
           && (moved ==> FolderMoved(o, t', s, d))
         else
           !moved
  }

  /** Where a folder is copied to: into a folder that is named as the destination, under its own
      name without extension; otherwise to the destination itself. */
  function FolderTarget(source: Target, dest: Target): (d: Path)
    ensures d.Child?
  {
    if dest.code == 1 then Child(Child(dest.parent, dest.key), Key(source.key.name, NO_EXT))
    else Child(dest.parent, dest.key)
  }

  /** The folder at `s` was copied to `d`, where nothing was: everything that was there stays. */
  ghost predicate FolderCopiedTo(o: SlotTree, t': Tree, s: Path, d: Path)
    requires d.Child?
  {
    var t := Contents(o);
    d !in t && (forall q :: q in t ==> q in t' && t'[q] == t[q]) && Delivered(o, t', s, d)
  }

  /** What a recursive copy command does, given what its two path names resolve to. */
  ghost predicate CopyEffect(o: SlotTree, t': Tree, source: Target, dest: Target, copied: bool) {
    var t, s, d := Contents(o), Child(source.parent, source.key), FolderTarget(source, dest);
    && (!copied ==> t' == t)
    && if source.code == 1 && 1 <= dest.code <= 2 then
         && (copied <==> d !in t && !Crowded(t, d.parent))
         && (copied ==> FolderCopiedTo(o, t', s, d))
       else
         !copied
  }

  // ---- the steps ----------------------------------------------------------------------------

  /** The copy into what the lookup found, no further down than `h` levels. */
  ghost function FilledTo(o: SlotTree, s: Path, d: Path, h: nat): Copied
    requires d.Child?
  {
    CopyFrom(Made(o, d), s, Landing(o, d), 2, h)
  }

  /** The whole copy: nothing lies deeper than the deepest path. */
  ghost function Filled(o: SlotTree, s: Path, d: Path): Copied
    requires d.Child?
  {
    FilledTo(o, s, d, Deepest(o))
  }

  /** The copy may begin: what the lookup finds is not inside the source. */
  lemma LandingReady(o: SlotTree, s: Path, d: Path, h: nat)
    requires d.Child? && Makeable(o, d) && IsDir(o, s) && Apart(s, d) && Bounded(o, s, h)
    ensures Ready(Made(o, d), s, Landing(o, d), h)
  {
    hide NextVacant, Grown, Put, Landing;
    var c := Landing(o, d);
    MadeFacts(o, d);
    assert !Inside(s, c);
    forall q {:trigger Under(s, q)} | q in Made(o, d) && Under(s, q)
      ensures q in o
    {
    }
  }

  /** What lies under a path apart from `d` is not touched by making `d`. */
  lemma MadeKeeps(o: SlotTree, s: Path, d: Path)
    requires d.Child? && Makeable(o, d) && Apart(s, d)
    ensures SameUnder(Made(o, d), o, s)
  {
    hide NextVacant, Grown, Put, Landing, Sound;
    MadeFacts(o, d);
    forall q | Under(s, q)
      ensures !Under(d, q)
    {
      ApartBelow(s, d, q);
    }
  }

  /** Copying a file and deleting the original moves it. */
  lemma StepsMoveFile(v: Volume, lay: Layout, t': Tree, s: Path, d: Path)
    requires Inv(v, lay) && s in lay.nodes && lay.nodes[s].File?
    requires d in lay.nodes ==> lay.nodes[d].File?
    requires d.Child? && d.parent in lay.nodes && lay.nodes[d.parent].Folder?
    requires t' == RemoveTree(TreeOf(v, lay)[d := TreeOf(v, lay)[s]], s)
    ensures FileMoved(TreeOf(v, lay), t', s, d)
  {
    forall q | q in lay.nodes && Under(s, q)
      ensures q == s
    {
      FileHasNoChildren(lay, s, q);
    }
    assert !Under(s, d.parent);
  }

  /** A subtree depends only on what lies under its root. */
  lemma SubtreeFrame(t: Tree, t': Tree, p: Path)
    requires forall q :: Under(p, q) ==> (q in t' <==> q in t) && (q in t ==> t'[q] == t[q])
    ensures Subtree(t', p) == Subtree(t, p) && (PlainBelow(t', p) <==> PlainBelow(t, p))
  {
    forall r
      ensures r in Subtree(t', p) <==> r in Subtree(t, p)
      ensures r in Subtree(t, p) ==> Subtree(t', p)[r] == Subtree(t, p)[r]
    {
      SubtreeIn(t, p, r);
      SubtreeIn(t', p, r);
    }
  }

  /** Below a folder made anew there is nothing but what the copy put there. */
  lemma NothingBesides(o: SlotTree, s: Path, d: Path)
    requires d.Child? && Makeable(o, d) && IsDir(o, s) && Apart(s, d) && Landing(o, d) != d
    ensures forall q :: q in Filled(o, s, d).tree && Under(d, q) ==> q == d
  {
    hide NextVacant, Put, Landing, Sound, CopyFrom;
    MadeFacts(o, d);
    DeepestBounds(o, s);
    LandingReady(o, s, d, Deepest(o));
    CopyGrows(Made(o, d), s, Landing(o, d), 2, Deepest(o));
    var c := Landing(o, d);
    BesideNotUnder(d, c.key);
    BesideNotUnder(c, d.key);
    forall q | q in Filled(o, s, d).tree && Under(d, q)
      ensures q == d
    {
      ApartBelow(d, c, q);
    }
  }

  lemma EmptySubtree(t: Tree, p: Path)
    requires p in t && t[p] == Directory
    requires forall q :: q in t && Under(p, q) ==> q == p
    ensures Subtree(t, p) == map[Root := Directory]
  {
    forall r
      ensures r in Subtree(t, p) <==> r == Root
    {
      SubtreeIn(t, p, r);
      RebaseBackRoot(r, p);
    }
  }

  lemma RebaseBackRoot(r: Path, p: Path)
    ensures Under(Root, r) && Depth(Rebase(r, Root, p)) == Depth(r) + Depth(p)
    ensures Rebase(r, Root, p) == p <==> r == Root
  {
    UnderRoot(r);
  }

  /** A folder's subtree is that of an empty folder exactly when it has no children. */
  lemma ChildlessSubtree(o: SlotTree, s: Path)
    requires Sound(o) && IsDir(o, s)
    ensures Subtree(Contents(o), s) == map[Root := Directory] <==> Childless(Contents(o), s)
    ensures Childless(Contents(o), s) ==> PlainBelow(Contents(o), s)
  {
    var t := Contents(o);
    if Childless(t, s) {
      forall k
        ensures Child(s, k) !in o
      {
        assert Child(s, k) !in t;
      }
      NothingBelow(o, s);
      EmptySubtree(t, s);
    } else {
      var k :| Child(s, k) in t;
      var r := Child(Root, k);
      SubtreeIn(t, s, r);
      assert Under(Root, r) && Rebase(Root, Root, s) == s && Rebase(r, Root, s) == Child(s, k);
    }
  }

  /** What is at the new folder after the copy is what was at `s`, exactly if it arrives. */
  lemma SubtreeArrives(o: SlotTree, s: Path, d: Path)
    requires d.Child? && Makeable(o, d) && IsDir(o, s) && Apart(s, d)
    requires CopyResult(Contents(Made(o, d)), Contents(Filled(o, s, d).tree), s, Landing(o, d))
    ensures Subtree(Contents(Filled(o, s, d).tree), d) == Subtree(Contents(o), s) <==> Arrives(o, s, d)
  {
    hide NextVacant, Put, Landing, Sound, CopyFrom, Subtree, PlainBelow, FirstOfName, IsGraft, Makeable;
    var t, t2, t3 := Contents(o), Contents(Made(o, d)), Contents(Filled(o, s, d).tree);
    MadeFacts(o, d);
    MadeKeeps(o, s, d);
    SubtreeFrame(t, t2, s);
    SoundOf(o, d);
    ChildlessSubtree(o, s);
    LandsWhenFirst(o, d);
    if Landing(o, d) == d {
      assert forall k :: Child(d, k) !in t2;
    } else {
      NothingBesides(o, s, d);
      EmptySubtree(t3, d);
    }
  }

  lemma SoundOf(o: SlotTree, d: Path)
    requires d.Child? && Makeable(o, d)
    ensures Sound(o) && IsDir(o, d.parent)
  {
  }

  /** The copy keeps what was there, apart from what was cleared, and adds only to the new folder
      and to what the lookup found. */
  lemma FillKeeps(o: SlotTree, s: Path, d: Path)
    requires d.Child? && Makeable(o, d)
    requires CopyResult(Contents(Made(o, d)), Contents(Filled(o, s, d).tree), s, Landing(o, d))
    ensures var t, t', c := Contents(o), Contents(Filled(o, s, d).tree), Landing(o, d);
      && d in t' && t'[d] == Directory
      && (forall q :: q in t && !Under(d, q) ==> q in t' && t'[q] == t[q])
      && (forall q :: q in t' && q !in t && !Under(d, q) ==> Under(c, q) && q != c)
  {
    hide NextVacant, Put, Landing, Sound, CopyFrom, Subtree, PlainBelow, IsGraft, Makeable;
    var t, t2 := Contents(o), Contents(Made(o, d));
    MadeFacts(o, d);
    assert d in t2 && t2[d] == Directory;
    forall q | !Under(d, q)
      ensures (q in t2 <==> q in t) && (q in t ==> t2[q] == t[q])
    {
    }
  }

  /** If the copy went to the new folder and no two entries of a folder get the same key, all of them
      are there. */
  lemma FillRepeats(o: SlotTree, s: Path, d: Path)
    requires d.Child? && Makeable(o, d) && IsDir(o, s) && Apart(s, d) && FirstOfName(o, d)
    requires CopyResult(Contents(Made(o, d)), Contents(Filled(o, s, d).tree), s, Landing(o, d))
    requires BareDistinct(Contents(o), s)
    ensures Repeats(Contents(o), Contents(Filled(o, s, d).tree), s, d)
  {
    hide NextVacant, Put, Landing, CopyFrom, Subtree, PlainBelow, IsGraft, Made, Makeable, BareDistinct, Sound, Repeats, IsImage;
    var t, t2, t3 := Contents(o), Contents(Made(o, d)), Contents(Filled(o, s, d).tree);
    MadeFacts(o, d);
    LandsWhenFirst(o, d);
    MadeKeeps(o, s, d);
    DistinctFrame(t, t2, s);
    NothingBelow(Made(o, d), d);
    ImageRepeats(t, t2, t3, s, d);
  }

  /** The folder made and filled holds what it should, and nothing else is new elsewhere. */
  lemma FillDelivers(o: SlotTree, s: Path, d: Path)
    requires d.Child? && Makeable(o, d) && IsDir(o, s) && Apart(s, d)
    ensures Delivered(o, Contents(Filled(o, s, d).tree), s, d)
    ensures forall q :: q in Contents(o) && !Under(d, q) ==>
              q in Filled(o, s, d).tree && Contents(Filled(o, s, d).tree)[q] == Contents(o)[q]
  {
    hide NextVacant, Put, Landing, Sound, CopyFrom, Subtree, Arrives, Makeable, Made, CopyResult, Ready, FirstOfName,
         BareDistinct, Repeats;
    DeepestBounds(o, s);
    LandingReady(o, s, d, Deepest(o));
    CopyOutcome(Made(o, d), s, Landing(o, d), Deepest(o));
    SubtreeArrives(o, s, d);
    FillKeeps(o, s, d);
    if FirstOfName(o, d) && BareDistinct(Contents(o), s) {
      FillRepeats(o, s, d);
    }
    if Landing(o, d) != d {
      NothingBesides(o, s, d);
    }
  }

  /** A new folder and a copy into what its name finds make a recursive copy. */
  lemma StepsCopy(o: SlotTree, s: Path, d: Path)
    requires d.Child? && Makeable(o, d) && IsDir(o, s) && Apart(s, d) && d !in o
    ensures FolderCopiedTo(o, Contents(Filled(o, s, d).tree), s, d)
  {
    hide NextVacant, Delivered, Made, Landing, CopyFrom, Put;
    FillDelivers(o, s, d);
    forall q | q in o
      ensures !Under(d, q)
    {
      if Under(d, q) {
        AncestorIn(o, d, q);
      }
    }
  }

  lemma {:induction false} AncestorIn(o: SlotTree, p: Path, q: Path)
    requires Sound(o) && q in o && Under(p, q)
    ensures p in o
  {
    if q != p {
      assert Child(q.parent, q.key) in o;
      AncestorIn(o, p, q.parent);
    }
  }

  /** Clearing the target, making it, copying into what its name finds, and deleting the original
      make a move. */
  lemma StepsMove(o: SlotTree, s: Path, d: Path)
    requires d.Child? && Makeable(o, d) && IsDir(o, s) && Apart(s, d)
    ensures FolderMoved(o, RemoveTree(Contents(Filled(o, s, d).tree), s), s, d)
  {
    hide Delivered, Makeable, Made, Landing, CopyFrom, Sound;
    FillDelivers(o, s, d);
    RemovalDelivers(o, Contents(Filled(o, s, d).tree), s, d);
  }

  lemma RemovalDelivers(o: SlotTree, t3: Tree, s: Path, d: Path)
    requires d.Child? && Apart(s, d) && Delivered(o, t3, s, d)
    ensures Delivered(o, RemoveTree(t3, s), s, d)
  {
    hide Subtree, PlainBelow, Landing, Arrives, Contents, FirstOfName, BareDistinct;
    forall q | Under(d, q)
      ensures !Under(s, q)
    {
      ApartBelow(d, s, q);
    }
    forall q | Under(s, q)
      ensures Under(d, Image(Contents(o), q, s, d))
    {
      ImageUnder(Contents(o), q, s, d);
    }
    SubtreeFrame(t3, RemoveTree(t3, s), d);
  }

  // ---- on the volume ------------------------------------------------------------------------

  /** A folder may go from `s` to `d`: they are apart, and once what is at `d` is gone there are
      clusters for the new folder and for what is copied. */
  ghost predicate FolderRoom(v: Volume, lay: Layout, s: Path, d: Path)
    requires d.Child?
  {
    Apart(s, d) && 1 + Filled(SlotTreeOf(v, lay), s, d).cost <= FreeCount(v.fat) + |UnderSet(lay, d)|
  }

  /** The clusters of the source are enough, if it is also apart from the folder the lookup finds. */
  lemma RoomSuffices(v: Volume, lay: Layout, s: Path, d: Path)
    requires Inv(v, lay) && d.Child? && Makeable(SlotTreeOf(v, lay), d) && s in lay.nodes && lay.nodes[s].Folder?
    requires Apart(s, d) && Apart(s, Landing(SlotTreeOf(v, lay), d))
    requires |UnderSet(lay, s)| <= FreeCount(v.fat) + |UnderSet(lay, d)|
    ensures FolderRoom(v, lay, s, d)
  {
    hide SlotTreeOf, Made, Landing, CopyFrom, Makeable;
    var o := SlotTreeOf(v, lay);
    SlotTreeHas(v, lay, s);
    DeepestBounds(o, s);
    LandingReady(o, s, d, Deepest(o));
    MadeKeeps(o, s, d);
    DoneStart(lay, s);
    CopyCost(v, lay, Made(o, d), s, Landing(o, d), 2, Deepest(o));
    FolderCost(lay, s);
  }

  lemma SlotTreeHas(v: Volume, lay: Layout, s: Path)
    requires s in lay.nodes && lay.nodes[s].Folder?
    ensures IsDir(SlotTreeOf(v, lay), s)
  {
  }

  /** Where nothing is, a folder can be made exactly if its parent has a slot left. */
  lemma MakeableWhen(v: Volume, lay: Layout, c: uint32, d: Path)
    requires Inv(v, lay) && IsFolder(lay, c) && d.Child? && d.parent == lay.owner[c] && d !in lay.nodes
    ensures Makeable(SlotTreeOf(v, lay), d) <==> !Crowded(TreeOf(v, lay), d.parent)
    ensures Without(SlotTreeOf(v, lay), d) == SlotTreeOf(v, lay)
  {
    hide SlotTreeOf, NextVacant;
    FolderIsDir(v, lay, c);
    CrowdedTable(v, lay, d.parent);
    FirstVacant(v, lay, d.parent);
    WithoutAbsent(v, lay, d);
  }

  lemma WithoutAbsent(v: Volume, lay: Layout, d: Path)
    requires Inv(v, lay) && d !in lay.nodes
    ensures Without(SlotTreeOf(v, lay), d) == SlotTreeOf(v, lay)
  {
    SlotTreeSound(v, lay);
    forall q | q in SlotTreeOf(v, lay)
      ensures !Under(d, q)
    {
      if Under(d, q) {
        AncestorIn(SlotTreeOf(v, lay), d, q);
      }
    }
  }

  /** Once the target is cleared, making it is what it was before. */
  lemma MadeAgain(o: SlotTree, d: Path)
    requires d.Child?
    ensures Without(Without(o, d), d) == Without(o, d)
    ensures Made(Without(o, d), d) == Made(o, d) && Landing(Without(o, d), d) == Landing(o, d)
    ensures TargetSlot(Without(o, d), d) == TargetSlot(o, d)
  {
    assert Without(Without(o, d), d) == Without(o, d);
  }

  /** The new folder was written: the lookup of its name leads to where the copy goes. */
  lemma TargetMade(v: Volume, lay: Layout, v': Volume, lay': Layout, req: Request)
    requires Inv(v, lay) && IsFolder(lay, req.parent) && Child(lay.owner[req.parent], req.FullName()) !in lay.nodes
    requires !Crowded(TreeOf(v, lay), lay.owner[req.parent])
    requires Wrote(v, lay, v', lay', req.parent, req.FullName(), Directory)
    ensures var d := Child(lay.owner[req.parent], req.FullName());
      && SlotTreeOf(v', lay') == Made(SlotTreeOf(v, lay), d) && FreeCount(v'.fat) + 1 == FreeCount(v.fat)
      && IsFolder(lay', req.parent) && lay'.owner[req.parent] == lay.owner[req.parent]
      && FolderNamed(SlotTreeOf(v', lay'), d.parent, req.name) == Some(Landing(SlotTreeOf(v, lay), d))
  {
    hide SlotTreeOf, NextVacant, FolderNamed, Without;
    var o, d := SlotTreeOf(v, lay), Child(lay.owner[req.parent], req.FullName());
    MakeableWhen(v, lay, req.parent, d);
    MadeFacts(o, d);
    FoundWhenFirst(Made(o, d), d.parent, d.key);
    NotInOrder(v, lay, d);
    PutChanges(o, d.parent, d.key, Directory);
  }

  lemma NotInOrder(v: Volume, lay: Layout, d: Path)
    requires d !in lay.nodes
    ensures d !in SlotTreeOf(v, lay)
  {
  }

  /** The copy into what the lookup found may begin. */
  lemma FillBegins(v: Volume, lay: Layout, v1: Volume, lay1: Layout, src: uint32, parent: uint32, c: uint32, d: Path, h: nat)
    requires Inv(v, lay) && Inv(v1, lay1) && KeepsFolders(lay, lay1) && IsFolder(lay, src) && IsFolder(lay, parent)
    requires d.Child? && d.parent == lay.owner[parent] && Makeable(SlotTreeOf(v, lay), d)
    requires Apart(lay.owner[src], d) && Bounded(SlotTreeOf(v, lay), lay.owner[src], h)
    requires SlotTreeOf(v1, lay1) == Made(SlotTreeOf(v, lay), d)
    requires IsFolder(lay1, c) && lay1.owner[c] == Landing(SlotTreeOf(v, lay), d)
    requires CopyFrom(Made(SlotTreeOf(v, lay), d), lay.owner[src], lay1.owner[c], 2, h).cost <= FreeCount(v1.fat)
    ensures Copyable(v1, lay1, src, c, h)
  {
    hide SlotTreeOf, Made, Landing, CopyFrom, Makeable, Inv;
    FolderIsDir(v, lay, src);
    LandingReady(SlotTreeOf(v, lay), lay.owner[src], d, h);
  }

  /** There is room for a folder at `d` and for the copy into what its name finds. */
  ghost predicate FillRoom(v: Volume, lay: Layout, s: Path, d: Path, h: nat)
    requires d.Child?
  {
    && Apart(s, d) && Bounded(SlotTreeOf(v, lay), s, h)
    && 1 + FilledTo(SlotTreeOf(v, lay), s, d, h).cost <= FreeCount(v.fat)
  }

  /** Once the target is cleared the room is there. */
  lemma ClearedRoom(v: Volume, lay: Layout, v1: Volume, lay1: Layout, s: Path, d: Path)
    requires d.Child? && FolderRoom(v, lay, s, d) && SlotTreeOf(v1, lay1) == Without(SlotTreeOf(v, lay), d)
    requires FreeCount(v1.fat) == FreeCount(v.fat) + |UnderSet(lay, d)|
    ensures FillRoom(v1, lay1, s, d, Deepest(SlotTreeOf(v, lay)))
    ensures FilledTo(SlotTreeOf(v1, lay1), s, d, Deepest(SlotTreeOf(v, lay))) == Filled(SlotTreeOf(v, lay), s, d)
  {
    hide SlotTreeOf, CopyFrom, Landing, Made, UnderSet;
    var o := SlotTreeOf(v, lay);
    DeepestBounds(o, s);
    MadeAgain(o, d);
    forall q {:trigger Under(s, q)} | q in Without(o, d) && Under(s, q)
      ensures Depth(q) <= Depth(s) + Deepest(o)
    {
      assert q in o;
    }
  }

  /** Where nothing is to be cleared the room is there. */
  lemma OpenRoom(v: Volume, lay: Layout, s: Path, d: Path)
    requires Inv(v, lay) && d.Child? && d !in lay.nodes && FolderRoom(v, lay, s, d)
    ensures FillRoom(v, lay, s, d, Deepest(SlotTreeOf(v, lay))) && Apart(s, d)
  {
    hide SlotTreeOf, CopyFrom, Landing, Made;
    NothingThere(v, lay, d);
    DeepestBounds(SlotTreeOf(v, lay), s);
  }

  /** A folder that could be made once the target was cleared. */
  lemma ClearedMakeable(v: Volume, lay: Layout, v1: Volume, lay1: Layout, c: uint32, d: Path)
    requires Inv(v, lay) && IsFolder(lay, c) && Inv(v1, lay1) && IsFolder(lay1, c) && lay1.owner[c] == lay.owner[c]
    requires d.Child? && d.parent == lay.owner[c] && d !in lay1.nodes && !Crowded(TreeOf(v1, lay1), d.parent)
    requires SlotTreeOf(v1, lay1) == Without(SlotTreeOf(v, lay), d)
    ensures Makeable(SlotTreeOf(v, lay), d)
  {
    hide SlotTreeOf, TreeOf, Inv, NextVacant, Without;
    MadeAgain(SlotTreeOf(v, lay), d);
    MakeableWhen(v1, lay1, c, d);
    FolderIsDir(v, lay, c);
  }

  // ---- a source that goes with the target ----------------------------------------------------

  /** A cluster of what was cleared is free; once the new folder is made it is that folder's, if it
      was the first free one, and free still otherwise. */
  lemma StaleCluster(v: Volume, lay: Layout, v1: Volume, lay1: Layout, d: Path, x: uint32)
    requires Inv(v, lay) && Inv(v1, lay1) && 3 <= x < CLUSTER_MAP_SIZE && v.fat[x] == EMPTY_ENTRY
    requires d !in lay.nodes && Placed(v.fat, lay, lay1, d) && lay1.nodes[d].Folder?
    ensures FreeCount(v.fat) > 0
    ensures x == FreeList(v.fat)[0] ==> IsFolder(lay1, x) && lay1.owner[x] == d && v1.fat[x] == END_OF_FILE
    ensures x != FreeList(v.fat)[0] ==> v1.fat[x] == EMPTY_ENTRY && !IsFolder(lay1, x)
  {
    FreeIsUnowned(v, lay, x);
    FreeIsUnowned(v1, lay1, x);
    if x == FreeList(v.fat)[0] {
      assert lay1.nodes[d].Has(x);
      ParentFacts(v1, lay1, x);
    }
  }

  /** The new folder is empty: copying from it may begin, and costs nothing. */
  lemma StaleBegins(v: Volume, lay: Layout, v1: Volume, lay1: Layout, src: uint32, parent: uint32, c: uint32, d: Path)
    requires Inv(v, lay) && Inv(v1, lay1) && IsFolder(lay, parent) && d.Child? && d.parent == lay.owner[parent]
    requires Makeable(SlotTreeOf(v, lay), d) && SlotTreeOf(v1, lay1) == Made(SlotTreeOf(v, lay), d)
    requires IsFolder(lay1, src) && lay1.owner[src] == d
    requires IsFolder(lay1, c) && lay1.owner[c] == Landing(SlotTreeOf(v, lay), d)
    ensures Copyable(v1, lay1, src, c, 0)
  {
    hide SlotTreeOf, Made, Landing, CopyFrom, Makeable, Inv;
    var o := SlotTreeOf(v, lay);
    MadeFacts(o, d);
    NothingBelow(Made(o, d), d);
    if lay1.owner[c] != d {
      BesideNotUnder(d, lay1.owner[c].key);
    }
    CopyEnds(Made(o, d), d, lay1.owner[c], 2, 0);
  }

  /** The new folder was made and looked up: the copy into what was found may begin, whether the
      source is a folder still or went with the target. */
  lemma FillAhead(v: Volume, lay: Layout, v1: Volume, lay1: Layout, src: uint32, parent: uint32, c: uint32, d: Path, h: nat)
    requires Inv(v, lay) && Inv(v1, lay1) && KeepsFolders(lay, lay1) && IsFolder(lay, parent) && src < CLUSTER_MAP_SIZE
    requires d.Child? && d.parent == lay.owner[parent] && d !in lay.nodes && !Crowded(TreeOf(v, lay), d.parent)
    requires SlotTreeOf(v1, lay1) == Made(SlotTreeOf(v, lay), d) && Placed(v.fat, lay, lay1, d)
    requires FreeCount(v1.fat) + 1 == FreeCount(v.fat)
    requires IsFolder(lay1, c) && lay1.owner[c] == Landing(SlotTreeOf(v, lay), d)
    requires if IsFolder(lay, src) then FillRoom(v, lay, lay.owner[src], d, h) else 3 <= src && v.fat[src] == EMPTY_ENTRY
    ensures c < CLUSTER_MAP_SIZE && (v1.fat[src] == END_OF_FILE ==> IsFolder(lay1, src))
    ensures IsFolder(lay, src) ==> v1.fat[src] == END_OF_FILE && Copyable(v1, lay1, src, c, h)
    ensures !IsFolder(lay, src) ==> (v1.fat[src] == END_OF_FILE <==> src == FreeList(v.fat)[0])
    ensures !IsFolder(lay, src) && v1.fat[src] == END_OF_FILE ==> Copyable(v1, lay1, src, c, 0)
  {
    hide SlotTreeOf, Made, Landing, CopyFrom, Makeable, Placed, Copyable, TreeOf;
    MakeableWhen(v, lay, parent, d);
    FolderIsDir(v1, lay1, c);
    if IsFolder(lay, src) {
      ParentFacts(v1, lay1, src);
      FillBegins(v, lay, v1, lay1, src, parent, c, d, h);
    } else {
      MadeIsFolder(v, lay, v1, lay1, d);
      StaleCluster(v, lay, v1, lay1, d, src);
      if src == FreeList(v.fat)[0] {
        StaleBegins(v, lay, v1, lay1, src, parent, c, d);
      }
    }
  }

  lemma MadeIsFolder(v: Volume, lay: Layout, v1: Volume, lay1: Layout, d: Path)
    requires d.Child? && Makeable(SlotTreeOf(v, lay), d) && SlotTreeOf(v1, lay1) == Made(SlotTreeOf(v, lay), d)
    ensures d in lay1.nodes && lay1.nodes[d].Folder?
  {
    hide Made, Makeable;
    MadeFacts(SlotTreeOf(v, lay), d);
    assert d in SlotTreeOf(v1, lay1) && SlotTreeOf(v1, lay1)[d].content == Directory;
  }

  /** The first free cluster after a deletion, told by the state before it. */
  lemma ReclaimedWhen(v: Volume, lay: Layout, v1: Volume, d: Path, c: uint32)
    requires Inv(v, lay) && Inv(v1, Pruned(lay, d)) && d != Root && OwnedUnder(lay, d, c)
    ensures 3 <= c < CLUSTER_MAP_SIZE && v1.fat[c] == EMPTY_ENTRY && FreeCount(v1.fat) > 0
    ensures c == FreeList(v1.fat)[0] <==> Reclaimed(v, lay, c, d)
  {
    hide NodeOk, Linked;
    assert lay.nodes[lay.owner[c]].Has(c);
    forall x: uint32 | 3 <= x < CLUSTER_MAP_SIZE
      ensures v1.fat[x] == EMPTY_ENTRY <==> v.fat[x] == EMPTY_ENTRY || OwnedUnder(lay, d, x)
    {
      FreeIsUnowned(v, lay, x);
      FreeIsUnowned(v1, Pruned(lay, d), x);
    }
    FirstFree(v1.fat, c);
  }

  // ---- folders that stay --------------------------------------------------------------------

  /** The folders of `lay` that are not under `s` or `d` are where they were. */
  ghost predicate KeepsBeside(lay: Layout, lay': Layout, s: Path, d: Path) {
    forall c :: IsFolder(lay, c) && !Under(s, lay.owner[c]) && !Under(d, lay.owner[c]) ==>
                  IsFolder(lay', c) && lay'.owner[c] == lay.owner[c]
  }

  lemma PruneKeeps(lay: Layout, q: Path)
    ensures KeepsBeside(lay, Pruned(lay, q), q, q)
  {
  }

  /** What each step of a move keeps, all of it keeps. */
  lemma KeepsThrough(lay0: Layout, lay1: Layout, lay2: Layout, lay3: Layout, s: Path, d: Path)
    requires KeepsBeside(lay0, lay1, d, d) && KeepsFolders(lay1, lay2) && KeepsBeside(lay2, lay3, s, s)
    ensures KeepsBeside(lay0, lay3, s, d)
  {
  }

  // ---- the folder branch of a move ----------------------------------------------------------

  /** Once the target is cleared: the source is there still, with room for the copy, or it went with
      the target and its cluster is free. */
  lemma AfterClearing(v: Volume, lay: Layout, v1: Volume, lay1: Layout, src: uint32, parent: uint32, d: Path)
    requires Inv(v, lay) && Inv(v1, lay1) && IsFolder(lay, src) && IsFolder(lay, parent)
    requires d.Child? && d.parent == lay.owner[parent] && d !in lay1.nodes && KeepsBeside(lay, lay1, d, d)
    requires SlotTreeOf(v1, lay1) == Without(SlotTreeOf(v, lay), d)
    requires FreeCount(v1.fat) == FreeCount(v.fat) + |UnderSet(lay, d)|
    requires d in lay.nodes ==> lay1 == Pruned(lay, d) && !Crowded(TreeOf(v1, lay1), d.parent)
    requires !Crowded(TreeOf(v1, lay1), d.parent) ==> Under(d, lay.owner[src]) || FolderRoom(v, lay, lay.owner[src], d)
    ensures src < CLUSTER_MAP_SIZE && IsFolder(lay1, parent) && lay1.owner[parent] == d.parent
    ensures Under(d, lay.owner[src]) ==>
              && !IsFolder(lay1, src) && 3 <= src && v1.fat[src] == EMPTY_ENTRY && !Crowded(TreeOf(v1, lay1), d.parent)
              && FreeCount(v1.fat) > 0 && (src == FreeList(v1.fat)[0] <==> Reclaimed(v, lay, src, d)) && lay1 == Pruned(lay, d)
    ensures !Under(d, lay.owner[src]) ==>
              && IsFolder(lay1, src) && lay1.owner[src] == lay.owner[src]
              && (!Crowded(TreeOf(v1, lay1), d.parent) ==>
                    Apart(lay.owner[src], d) && FillRoom(v1, lay1, lay.owner[src], d, Deepest(SlotTreeOf(v, lay))))
  {
    hide SlotTreeOf, TreeOf, Crowded, Filled, FillRoom, UnderSet, Reclaimed, Without;
    ParentFacts(v, lay, src);
    NotUnderParent(d);
    if Under(d, lay.owner[src]) {
      AncestorThere(v, lay, d, lay.owner[src]);
      ReclaimedWhen(v, lay, v1, d, src);
    } else if !Crowded(TreeOf(v1, lay1), d.parent) {
      ClearedRoom(v, lay, v1, lay1, lay.owner[src], d);
    }
  }

  lemma NotUnderParent(d: Path)
    requires d.Child?
    ensures !Under(d, d.parent)
  {
    if Under(d, d.parent) {
      UnderDepth(d, d.parent);
    }
  }

  lemma AncestorThere(v: Volume, lay: Layout, d: Path, s: Path)
    requires Inv(v, lay) && s in lay.nodes && Under(d, s)
    ensures d in lay.nodes
  {
    SlotTreeSound(v, lay);
    AncestorIn(SlotTreeOf(v, lay), d, s);
  }

  lemma FolderInTree(v: Volume, lay: Layout, c: uint32)
    requires IsFolder(lay, c)
    ensures lay.owner[c] in TreeOf(v, lay) && TreeOf(v, lay)[lay.owner[c]] == Directory
  {
  }

  /** The new folder was made where the source went: what the request to delete the source meets. */
  lemma AfterRemaking(v: Volume, lay: Layout, v1: Volume, v2: Volume, lay2: Layout, src: uint32, parent: uint32, d: Path)
    requires Inv(v, lay) && Inv(v1, Pruned(lay, d)) && Inv(v2, lay2) && IsFolder(lay, src) && IsFolder(lay, parent)
    requires d.Child? && Under(d, lay.owner[src]) && lay.owner[src].Child? && lay.owner[src].parent == lay.owner[parent]
    requires KeepsFolders(Pruned(lay, d), lay2) && Placed(v1.fat, Pruned(lay, d), lay2, d)
    requires FreeCount(v1.fat) > 0 && src == FreeList(v1.fat)[0]
    requires d in lay2.nodes && lay2.nodes[d].Folder?
    ensures parent < CLUSTER_MAP_SIZE
    ensures lay.owner[src] == d ==> IsFolder(lay2, parent) && lay2.owner[parent] == d.parent
    ensures lay.owner[src] != d ==> !IsFolder(lay2, parent) && v2.fat[parent] == EMPTY_ENTRY
  {
    hide Inv, Placed, Reclaimed;
    ParentFacts(v, lay, parent);
    if lay.owner[src] == d {
      NotUnderParent(d);
    } else {
      ReclaimedWhen(v, lay, v1, d, parent);
      NotInPruned(lay, d);
      StaleCluster(v1, Pruned(lay, d), v2, lay2, d, parent);
    }
  }

  lemma NotInPruned(lay: Layout, d: Path)
    ensures d !in Pruned(lay, d).nodes
  {
  }

  /** The tree with the target made anew, and then without it again. */
  lemma RemadeTree(v: Volume, lay: Layout, v2: Volume, lay2: Layout, d: Path)
    requires d.Child? && Makeable(SlotTreeOf(v, lay), d)
    requires SlotTreeOf(v2, lay2) == Made(Without(SlotTreeOf(v, lay), d), d)
    ensures TreeOf(v2, lay2) == RemoveTree(TreeOf(v, lay), d)[d := Directory]
    ensures RemoveTree(TreeOf(v2, lay2), d) == RemoveTree(TreeOf(v, lay), d)
    ensures d in lay2.nodes && lay2.nodes[d].Folder?
  {
    hide Made, Makeable, SlotTreeOf, TreeOf;
    var o := SlotTreeOf(v, lay);
    MadeAgain(o, d);
    MadeFacts(o, d);
    ContentsOf(v, lay);
    ContentsOf(v2, lay2);
    MadeTree(o, d, TargetSlot(o, d));
    InTreeInNodes(v2, lay2, d);
  }

  lemma MadeTree(o: SlotTree, d: Path, i: nat)
    ensures Contents(Without(o, d)[d := Item(i, Directory)]) == RemoveTree(Contents(o), d)[d := Directory]
    ensures RemoveTree(RemoveTree(Contents(o), d)[d := Directory], d) == RemoveTree(Contents(o), d)
  {
  }

  lemma InTreeInNodes(v: Volume, lay: Layout, d: Path)
    requires d in TreeOf(v, lay) && TreeOf(v, lay)[d] == Directory
    ensures d in lay.nodes && lay.nodes[d].Folder?
  {
  }

  /** The target was made, and filled if the source was there still: what the request to delete the
      source, in the folder at `parent`, meets. */
  lemma MoveMade(v: Volume, lay: Layout, v1: Volume, lay1: Layout, v2: Volume, lay2: Layout,
                 src: uint32, parent: uint32, target: uint32, d: Path, ok: bool)
    requires Inv(v, lay) && Inv(v1, lay1) && Inv(v2, lay2) && IsFolder(lay, src) && IsFolder(lay, parent) && IsFolder(lay, target)
    requires lay.owner[src].Child? && lay.owner[src].parent == lay.owner[parent]
    requires d.Child? && d.parent == lay.owner[target] && d !in lay1.nodes && !Crowded(TreeOf(v1, lay1), d.parent)
    requires IsFolder(lay1, target) && lay1.owner[target] == d.parent && KeepsBeside(lay, lay1, d, d)
    requires SlotTreeOf(v1, lay1) == Without(SlotTreeOf(v, lay), d) && KeepsFolders(lay1, lay2)
    requires !Under(d, lay.owner[src]) ==>
               IsFolder(lay1, src) && lay1.owner[src] == lay.owner[src] && FolderRoom(v, lay, lay.owner[src], d)
               && FreeCount(v1.fat) == FreeCount(v.fat) + |UnderSet(lay, d)|
               && SlotTreeOf(v2, lay2) == FilledTo(SlotTreeOf(v1, lay1), lay.owner[src], d, Deepest(SlotTreeOf(v, lay))).tree
    requires Under(d, lay.owner[src]) ==>
               lay1 == Pruned(lay, d) && SlotTreeOf(v2, lay2) == Made(SlotTreeOf(v1, lay1), d)
               && Placed(v1.fat, lay1, lay2, d) && FreeCount(v1.fat) > 0 && (ok <==> src == FreeList(v1.fat)[0])
    ensures Makeable(SlotTreeOf(v, lay), d) && parent < CLUSTER_MAP_SIZE
    ensures !Under(d, lay.owner[src]) ==>
              && IsFolder(lay2, parent) && lay2.owner[parent] == lay.owner[parent]
              && SlotTreeOf(v2, lay2) == Filled(SlotTreeOf(v, lay), lay.owner[src], d).tree
    ensures Under(d, lay.owner[src]) ==> TreeOf(v2, lay2) == RemoveTree(TreeOf(v, lay), d)[d := Directory]
    ensures Under(d, lay.owner[src]) && ok ==>
              if lay.owner[src] == d then IsFolder(lay2, parent) && lay2.owner[parent] == lay.owner[parent]
              else !IsFolder(lay2, parent) && v2.fat[parent] == EMPTY_ENTRY
    ensures ok && IsFolder(lay2, parent) ==> lay.owner[src] in TreeOf(v2, lay2) && TreeOf(v2, lay2)[lay.owner[src]] == Directory
  {
    hide SlotTreeOf, TreeOf, Made, Landing, CopyFrom, Without, Makeable, Crowded, UnderSet, FolderRoom, FillRoom, Placed, Inv;
    var s := lay.owner[src];
    ParentFacts(v, lay, parent);
    ClearedMakeable(v, lay, v1, lay1, target, d);
    if Under(d, s) {
      RemadeTree(v, lay, v2, lay2, d);
      if ok {
        AfterRemaking(v, lay, v1, v2, lay2, src, parent, d);
      }
    } else {
      ClearedRoom(v, lay, v1, lay1, s, d);
      FolderInTree(v2, lay2, src);
      assert !Under(d, s.parent);
    }
  }

  /** The source was deleted, if the copy went through: the move is what it should be. */
  lemma MoveEnds(v: Volume, lay: Layout, lay1: Layout, v2: Volume, lay2: Layout, v3: Volume, lay3: Layout,
                 src: uint32, s: Path, d: Path, ok: bool)
    requires Inv(v, lay) && IsFolder(lay, src) && lay.owner[src] == s && d.Child?
    requires KeepsBeside(lay, lay1, d, d) && KeepsFolders(lay1, lay2) && KeepsBeside(lay2, lay3, s, s)
    requires !ok ==> v3 == v2 && lay3 == lay2
    requires ok || Under(d, s) ==> Makeable(SlotTreeOf(v, lay), d)
    requires !Under(d, s) && ok ==>
               Apart(s, d) && SlotTreeOf(v2, lay2) == Filled(SlotTreeOf(v, lay), s, d).tree
               && TreeOf(v3, lay3) == RemoveTree(TreeOf(v2, lay2), s)
    requires Under(d, s) ==>
               && (ok <==> Reclaimed(v, lay, src, d)) && TreeOf(v2, lay2) == RemoveTree(TreeOf(v, lay), d)[d := Directory]
               && (ok ==> TreeOf(v3, lay3) == if s == d then RemoveTree(TreeOf(v2, lay2), d) else TreeOf(v2, lay2))
    ensures KeepsBeside(lay, lay3, s, d)
    ensures Under(d, s) ==> Overwritten(v, lay, TreeOf(v3, lay3), s, d, ok)
    ensures !Under(d, s) && ok ==> FolderMoved(SlotTreeOf(v, lay), TreeOf(v3, lay3), s, d)
  {
    hide SlotTreeOf, TreeOf, Made, Landing, CopyFrom, Makeable, FolderMoved, Reclaimed, RemoveTree;
    ParentFacts(v, lay, src);
    KeepsThrough(lay, lay1, lay2, lay3, s, d);
    if Under(d, s) {
      RemadeGone(TreeOf(v, lay), d);
    } else if ok {
      SlotTreeHas(v, lay, s);
      ContentsOf(v2, lay2);
      StepsMove(SlotTreeOf(v, lay), s, d);
    }
  }

  lemma RemadeGone(t: Tree, d: Path)
    ensures RemoveTree(RemoveTree(t, d)[d := Directory], d) == RemoveTree(t, d)
  {
  }
}
