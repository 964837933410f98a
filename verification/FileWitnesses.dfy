/** Sessions on a newly formatted disk in which properties of the file system and the shell that
    one might expect do not hold. */
module FileWitnesses {
  import opened Codec
  import opened Options
  import opened Sets
  import opened Paths
  import opened Volumes
  import opened FreeSpace
  import opened Erasure
  import opened WriteOutcome
  import opened Copying
  import opened Occupancy
  import opened SlotTrees
  import opened FolderCopy
  import opened CopySteps
  import opened BlockDisk
  import opened Fat32
  import opened Laws
  import opened Strings
  import opened Resolution
  import opened Moving
  import opened Shells

  const DOCS: Name := [100, 111, 99, 115, 0, 0, 0, 0]
  const NOTES: Name := [110, 111, 116, 101, 115, 0, 0, 0]
  const COPY: Name := [99, 111, 112, 121, 0, 0, 0, 0]
  const DOT_NAME: Name := [46, 0, 0, 0, 0, 0, 0, 0]
  const OLD: Ext := [111, 108, 100]

  function Docs(): Path { Child(Root, Key(DOCS, NO_EXT)) }
  function DocsOld(): Path { Child(Root, Key(DOCS, OLD)) }
  function Notes(): Path { Child(Docs(), Key(NOTES, NO_EXT)) }
  function NotesOld(): Path { Child(Docs(), Key(NOTES, OLD)) }
  function Copies(): Path { Child(Root, Key(COPY, NO_EXT)) }

  ghost function RootOnly(): SlotTree {
    map[Root := Item(0, Directory)]
  }

  /** A session on a disk that was formatted just now. */
  method NewSession(disk: Disk) returns (sh: Shell)
    requires disk.Valid() && !HasSignature(disk.view)
    modifies disk`view, disk.image
    ensures sh.Valid() && sh.driver.disk == disk && fresh(sh) && fresh(sh.workDirName)
    ensures fresh(sh.driver) && fresh(sh.driver.clusterMap) && fresh(sh.driver.dirTableBuf)
    ensures sh.driver.Order() == RootOnly() && FreeCount(sh.driver.clusterMap[..]) == 509
    ensures IsFolder(sh.driver.layout, ROOT_CLUSTER) && sh.driver.layout.owner[ROOT_CLUSTER] == Root
  {
    var d := new Driver.Mount(disk, DOCS);
    FreshVolume(d.State(), d.layout);
    sh := new Shell(d);
  }

  lemma FreshVolume(v: Volume, lay: Layout)
    requires Inv(v, lay) && TreeOf(v, lay) == map[Root := Directory]
    ensures SlotTreeOf(v, lay) == RootOnly() && FreeCount(v.fat) == 509
    ensures IsFolder(lay, ROOT_CLUSTER) && lay.owner[ROOT_CLUSTER] == Root
  {
    assert lay.nodes[Root].Has(ROOT_CLUSTER);
    forall p
      ensures p in lay.nodes <==> p == Root
    {
      assert p in TreeOf(v, lay) <==> p in lay.nodes;
    }
    forall c | c in lay.owner
      ensures c == ROOT_CLUSTER
    {
      assert lay.nodes[lay.owner[c]].Has(c);
    }
    assert lay.owner.Keys == {ROOT_CLUSTER};
    Conservation(v, lay);
  }

  /** Makes a folder under a name that no folder beside it has. */
  method MakeIn(sh: Shell, parent: uint32, k: Key) returns (c: uint32)
    requires sh.Valid() && IsFolder(sh.driver.layout, parent)
    requires Child(sh.driver.layout.owner[parent], k) !in sh.driver.Order()
    requires Makeable(sh.driver.Order(), Child(sh.driver.layout.owner[parent], k))
    requires FirstOfName(sh.driver.Order(), Child(sh.driver.layout.owner[parent], k))
    requires FreeCount(sh.driver.clusterMap[..]) >= 1
    modifies sh.driver`layout, sh.driver.clusterMap, sh.driver.dirTableBuf, sh.driver.disk`view, sh.driver.disk.image
    ensures sh.Valid() && KeepsFolders(old(sh.driver.layout), sh.driver.layout)
    ensures IsFolder(sh.driver.layout, c) && sh.driver.layout.owner[c] == Child(old(sh.driver.layout).owner[parent], k)
    ensures sh.driver.Order() == old(sh.driver.Order())[Child(old(sh.driver.layout).owner[parent], k) :=
                                   Item(NextVacant(old(sh.driver.Order()), old(sh.driver.layout).owner[parent], 2), Directory)]
    ensures FreeCount(sh.driver.clusterMap[..]) + 1 == old(FreeCount(sh.driver.clusterMap[..]))
  {
    hide Inv, SlotTreeOf, Made, Landing, NextVacant, FirstOfName, Makeable;
    ghost var v, lay, o, q := sh.driver.State(), sh.driver.layout, sh.driver.Order(), Child(sh.driver.layout.owner[parent], k);
    NotInTree(v, lay, q);
    MakeableWhen(v, lay, parent, q);
    MadeFacts(o, q);
    LandsWhenFirst(o, q);
    var ok;
    ok, c := sh.MakeTarget(Request(k.name, k.ext, parent, 0));
  }

  lemma NotInTree(v: Volume, lay: Layout, q: Path)
    requires q !in SlotTreeOf(v, lay)
    ensures q !in lay.nodes && q !in TreeOf(v, lay)
  {
  }

  // ---- a move that loses a folder -----------------------------------------------------------

  /** A folder "docs", in the first slot, with a folder in it. */
  ghost predicate DocsThere(o: SlotTree) {
    o == map[Root := Item(0, Directory), Docs() := Item(2, Directory), Notes() := Item(2, Directory)]
  }

  lemma DocsSound(o: SlotTree)
    requires DocsThere(o)
    ensures Sound(o) && Docs() != DocsOld() && Apart(Docs(), DocsOld())
    ensures IsDir(o, Root) && IsDir(o, Docs()) && IsDir(o, Notes())
  {
    forall p, j, k | Clash(o, p, j, k)
      ensures j == k
    {
    }
  }

  /** "docs.old" would go to the second slot: looking it up finds "docs". */
  lemma DocsShadow(o: SlotTree)
    requires DocsThere(o)
    ensures Makeable(o, DocsOld()) && !FirstOfName(o, DocsOld()) && Landing(o, DocsOld()) == Docs()
    ensures Made(o, DocsOld()) == o[DocsOld() := Item(3, Directory)]
  {
    DocsSound(o);
    var o3 := o[DocsOld() := Item(3, Directory)];
    assert Without(o, DocsOld()) == o;
    assert !Vacant(o, Root, 2) by {
      assert Child(Root, Key(DOCS, NO_EXT)) in o;
    }
    assert Vacant(o, Root, 3);
    assert NextVacant(o, Root, 2) == 3;
    MadeFacts(o, DocsOld());
    LandsWhenFirst(o, DocsOld());
    assert !FirstOfName(o, DocsOld()) by {
      assert IsDir(o, Child(Root, Key(DOCS, NO_EXT)));
    }
    var c := Landing(o, DocsOld());
    assert IsDir(o3, c) && c.parent == Root;
    FoundWhenFirst(o3, Root, Key(DOCS, OLD));
    assert c == Child(Root, c.key);
  }

  /** Slots past the last entry add nothing to a copy. */
  lemma {:induction false} PastEntries(o: SlotTree, s: Path, d: Path, i: nat, h: nat)
    requires forall k :: Child(s, k) in o ==> o[Child(s, k)].slot < i
    ensures CopyFrom(o, s, d, i, h) == Copied(o, 0)
    decreases SLOTS - i
  {
    if h > 0 && i < SLOTS {
      assert Vacant(o, s, i);
      PastEntries(o, s, d, i + 1, h);
    }
  }

  /** The copy of "docs" into what was found, itself, costs nothing. */
  lemma DocsOntoItself(o: SlotTree, h: nat)
    requires Sound(o) && IsDir(o, Docs()) && IsDir(o, Notes()) && o[Notes()].slot == 2
    requires forall k :: Child(Docs(), k) in o ==> k == Key(NOTES, NO_EXT)
    requires forall k :: Child(Notes(), k) !in o
    ensures CopyFrom(o, Docs(), Docs(), 2, h).cost == 0
  {
    hide CopyFrom, CopyEntry, FolderNamed, NextVacant, Sound;
    if h == 0 {
      CopyEnds(o, Docs(), Docs(), 2, h);
    } else {
      var k := Key(NOTES, NO_EXT);
      KeyAtIs(o, Docs(), k);
      CopyTakes(o, Docs(), Docs(), 2, h, k);
      assert PutEntry(o, Docs(), Docs(), k) == Copied(o, 0);
      NotesOntoItself(o, h);
      PastEntries(o, Docs(), Docs(), 3, h);
    }
  }

  lemma NotesOntoItself(o: SlotTree, h: nat)
    requires h > 0 && IsDir(o, Notes()) && PutEntry(o, Docs(), Docs(), Key(NOTES, NO_EXT)) == Copied(o, 0)
    requires forall k :: Child(Notes(), k) !in o
    ensures CopyEntry(o, Docs(), Docs(), 2, Key(NOTES, NO_EXT), h) == Copied(o, 0)
  {
    hide CopyFrom, PutEntry, FolderNamed;
    var c := FolderNamed(o, Docs(), NOTES);
    if c.Some? {
      ChildlessCopy(o, Notes(), c.value, 2, h - 1);
    }
  }

  /** Then the move leaves an empty "docs.old", and nothing else. */
  lemma DocsGone(o: SlotTree, t: Tree)
    requires DocsThere(o) && FolderMoved(o, t, Docs(), DocsOld())
    ensures t == map[Root := Directory, DocsOld() := Directory]
  {
    hide Subtree, Arrives, Landing;
    DocsSound(o);
    DocsShadow(o);
    forall q | q in t
      ensures q == Root || q == DocsOld()
    {
    }
    assert Root in Contents(o) && !Under(Docs(), Root) && !Under(DocsOld(), Root);
  }

  /** A folder "docs" is made, and a folder "notes" in it. */
  method MakeDocs(disk: Disk) returns (sh: Shell, docs: uint32)
    requires disk.Valid() && !HasSignature(disk.view)
    modifies disk`view, disk.image
    ensures sh.Valid() && sh.driver.disk == disk && fresh(sh.driver) && fresh(sh.driver.clusterMap) && fresh(sh.driver.dirTableBuf)
    ensures DocsThere(sh.driver.Order()) && FreeCount(sh.driver.clusterMap[..]) == 507
    ensures IsFolder(sh.driver.layout, ROOT_CLUSTER) && sh.driver.layout.owner[ROOT_CLUSTER] == Root
    ensures IsFolder(sh.driver.layout, docs) && sh.driver.layout.owner[docs] == Docs()
  {
    hide Inv, SlotTreeOf, TreeOf, NextVacant, FirstOfName, Makeable, FreeCount;
    sh := NewSession(disk);
    DocsFirst(sh.driver.Order());
    docs := MakeIn(sh, ROOT_CLUSTER, Key(DOCS, NO_EXT));
    DocsSecond(sh.driver.Order());
    var _ := MakeIn(sh, docs, Key(NOTES, NO_EXT));
  }

  /** Then "docs" is moved to "docs.old": the move succeeds, and what was in the folder is lost. */
  method DocsLost(disk: Disk) returns (sh: Shell, moved: bool, ghost before: Tree)
    requires disk.Valid() && !HasSignature(disk.view)
    modifies disk`view, disk.image
    ensures sh.Ready() && moved
    ensures before == map[Root := Directory, Docs() := Directory, Notes() := Directory]
    ensures sh.driver.Tree() == map[Root := Directory, DocsOld() := Directory]
  {
    hide Inv, SlotTreeOf, TreeOf, FolderMoved, FolderRoom, DocsThere, FreeCount;
    var docs;
    sh, docs := MakeDocs(disk);
    ghost var o := sh.driver.Order();
    before := sh.driver.Tree();
    DocsRoom(sh.driver.State(), sh.driver.layout);
    DocsSound(o);
    moved := sh.MoveFolder(Request(DOCS, NO_EXT, ROOT_CLUSTER, 0), docs, Request(DOCS, OLD, ROOT_CLUSTER, 0), false);
    DocsGone(o, sh.driver.Tree());
  }

  /** Or "docs" is moved onto itself: what was in the folder is lost, and if the move reports
      success the folder is too. */
  method DocsOverwritten(disk: Disk) returns (sh: Shell, moved: bool, ghost before: Tree)
    requires disk.Valid() && !HasSignature(disk.view)
    modifies disk`view, disk.image
    ensures sh.Ready() && before == map[Root := Directory, Docs() := Directory, Notes() := Directory]
    ensures sh.driver.Tree() == if moved then map[Root := Directory] else map[Root := Directory, Docs() := Directory]
  {
    hide Inv, SlotTreeOf, TreeOf, FolderMoved, FolderRoom, DocsThere, FreeCount, Reclaimed;
    var docs;
    sh, docs := MakeDocs(disk);
    before := sh.driver.Tree();
    DocsRoom(sh.driver.State(), sh.driver.layout);
    moved := sh.MoveFolder(Request(DOCS, NO_EXT, ROOT_CLUSTER, 0), docs, Request(DOCS, NO_EXT, ROOT_CLUSTER, 0), true);
    DocsRemoved(before);
  }

  lemma DocsRemoved(t: Tree)
    requires t == map[Root := Directory, Docs() := Directory, Notes() := Directory]
    ensures RemoveTree(t, Docs()) == map[Root := Directory]
  {
    assert Under(Docs(), Notes()) && !Under(Docs(), Root);
  }

  lemma DocsFirst(o: SlotTree)
    requires o == RootOnly()
    ensures Docs() !in o && Makeable(o, Docs()) && FirstOfName(o, Docs()) && NextVacant(o, Root, 2) == 2
  {
    assert Without(o, Docs()) == o && Vacant(o, Root, 2);
  }

  lemma DocsSecond(o: SlotTree)
    requires o == RootOnly()[Docs() := Item(2, Directory)]
    ensures Notes() !in o && Makeable(o, Notes()) && FirstOfName(o, Notes()) && NextVacant(o, Docs(), 2) == 2
  {
    assert Without(o, Notes()) == o && Vacant(o, Docs(), 2);
    assert Sound(o) by {
      forall p, j, k | Clash(o, p, j, k)
        ensures j == k
      {
      }
    }
  }

  lemma DocsRoom(v: Volume, lay: Layout)
    requires Inv(v, lay) && DocsThere(SlotTreeOf(v, lay)) && FreeCount(v.fat) >= 1
    requires IsFolder(lay, ROOT_CLUSTER) && lay.owner[ROOT_CLUSTER] == Root
    ensures FolderRoom(v, lay, Docs(), DocsOld()) && !Crowded(TreeOf(v, lay), Root)
    ensures DocsOld() !in TreeOf(v, lay)
    ensures TreeOf(v, lay) == map[Root := Directory, Docs() := Directory, Notes() := Directory]
  {
    hide SlotTreeOf, TreeOf, Inv, CopyFrom, NextVacant, Landing, Made, FirstOfName, Makeable, Crowded, UnderSet;
    var o := SlotTreeOf(v, lay);
    ContentsOf(v, lay);
    DocsSound(o);
    DocsShadow(o);
    MadeFacts(o, DocsOld());
    DocsOntoItself(Made(o, DocsOld()), Deepest(o));
    NotInTree(v, lay, DocsOld());
    MakeableWhen(v, lay, ROOT_CLUSTER, DocsOld());
  }

  /** Nor does a recursive copy of "docs" to "docs.old" copy anything. */
  lemma DocsNotCopied(o: SlotTree, t: Tree)
    requires DocsThere(o) && FolderCopiedTo(o, t, Docs(), DocsOld())
    ensures Subtree(t, DocsOld()) != Subtree(Contents(o), Docs()) && forall q :: q in t && Under(DocsOld(), q) ==> q == DocsOld()
  {
    hide Subtree, Landing, FirstOfName;
    DocsSound(o);
    DocsShadow(o);
    assert Child(Docs(), Key(NOTES, NO_EXT)) in Contents(o);
  }

  // ---- a copy that is not the original -------------------------------------------------------

  /** A folder "docs" with a folder "notes.old" in it, and an empty folder "copy". */
  ghost predicate OldNotesThere(o: SlotTree) {
    o == RootOnly()[Docs() := Item(2, Directory)][Copies() := Item(3, Directory)][NotesOld() := Item(2, Directory)]
  }

  lemma OldNotesSteps(o1: SlotTree, o2: SlotTree)
    requires o1 == RootOnly()[Docs() := Item(2, Directory)] && o2 == o1[Copies() := Item(3, Directory)]
    ensures Copies() !in o1 && Makeable(o1, Copies()) && FirstOfName(o1, Copies()) && NextVacant(o1, Root, 2) == 3
    ensures NotesOld() !in o2 && Makeable(o2, NotesOld()) && FirstOfName(o2, NotesOld()) && NextVacant(o2, Docs(), 2) == 2
  {
    assert Without(o1, Copies()) == o1 && Without(o2, NotesOld()) == o2;
    assert !Vacant(o1, Root, 2) by {
      assert Child(Root, Key(DOCS, NO_EXT)) in o1;
    }
    assert Vacant(o1, Root, 3) && NextVacant(o1, Root, 3) == 3;
    assert Vacant(o2, Docs(), 2);
    assert Sound(o1) && Sound(o2) by {
      forall p, j, k | Clash(o1, p, j, k) || Clash(o2, p, j, k)
        ensures j == k
      {
      }
    }
  }

  lemma OldNotesReady(v: Volume, lay: Layout)
    requires Inv(v, lay) && OldNotesThere(SlotTreeOf(v, lay)) && FreeCount(v.fat) == 506
    ensures Ready(SlotTreeOf(v, lay), Docs(), Copies(), 1) && CopyFrom(SlotTreeOf(v, lay), Docs(), Copies(), 2, 1).cost <= 506
    ensures Childless(TreeOf(v, lay), Copies()) && !PlainBelow(TreeOf(v, lay), Docs())
    ensures TreeOf(v, lay) == map[Root := Directory, Docs() := Directory, NotesOld() := Directory, Copies() := Directory]
  {
    hide SlotTreeOf, TreeOf, CopyFrom, BelowSet, Sound;
    var o := SlotTreeOf(v, lay);
    SlotTreeSound(v, lay);
    ContentsOf(v, lay);
    OldNotesFacts(o);
    CostApart(v, lay, Docs(), Copies(), 1);
    Conservation(v, lay);
    BelowIsOwned(lay, Docs());
  }

  lemma BelowIsOwned(lay: Layout, p: Path)
    ensures |BelowSet(lay, p)| <= |lay.owner.Keys|
  {
    SubsetSize(BelowSet(lay, p), lay.owner.Keys);
  }

  lemma OldNotesFacts(o: SlotTree)
    requires OldNotesThere(o) && Sound(o)
    ensures Ready(o, Docs(), Copies(), 1) && Apart(Docs(), Copies())
    ensures Childless(Contents(o), Copies()) && !PlainBelow(Contents(o), Docs())
    ensures Contents(o) == map[Root := Directory, Docs() := Directory, NotesOld() := Directory, Copies() := Directory]
  {
    assert NotesOld() in Contents(o) && Under(Docs(), NotesOld());
    forall k
      ensures Child(Copies(), k) !in Contents(o)
    {
    }
  }

  /** The folders "docs" and "copy" are made, and in "docs" a folder "notes.old", as a move to that
      name makes it. */
  method MakeOldNotes(disk: Disk) returns (sh: Shell, docs: uint32, copies: uint32)
    requires disk.Valid() && !HasSignature(disk.view)
    modifies disk`view, disk.image
    ensures sh.Valid() && sh.driver.disk == disk && fresh(sh.driver) && fresh(sh.driver.clusterMap) && fresh(sh.driver.dirTableBuf)
    ensures OldNotesThere(sh.driver.Order()) && FreeCount(sh.driver.clusterMap[..]) == 506
    ensures IsFolder(sh.driver.layout, docs) && sh.driver.layout.owner[docs] == Docs()
    ensures IsFolder(sh.driver.layout, copies) && sh.driver.layout.owner[copies] == Copies()
  {
    hide Inv, SlotTreeOf, TreeOf, NextVacant, FirstOfName, Makeable, FreeCount;
    sh := NewSession(disk);
    DocsFirst(sh.driver.Order());
    docs := MakeIn(sh, ROOT_CLUSTER, Key(DOCS, NO_EXT));
    ghost var o1 := sh.driver.Order();
    OldNotesSteps(o1, o1[Copies() := Item(3, Directory)]);
    copies := MakeIn(sh, ROOT_CLUSTER, Key(COPY, NO_EXT));
    var _ := MakeIn(sh, docs, Key(NOTES, OLD));
  }

  /** The driver's copy of "docs" into "copy" succeeds, and the two folders differ. */
  method ExtensionLost(disk: Disk) returns (sh: Shell, code: int, ghost before: Tree)
    requires disk.Valid() && !HasSignature(disk.view)
    modifies disk`view, disk.image
    ensures sh.Ready() && code == 0
    ensures before == map[Root := Directory, Docs() := Directory, NotesOld() := Directory, Copies() := Directory]
    ensures Subtree(sh.driver.Tree(), Copies()) != Subtree(before, Docs())
  {
    hide Inv, SlotTreeOf, TreeOf, Bounded, CopyFrom, Subtree, PlainBelow, WholeBetween, CopiedTo, OldNotesThere, FreeCount;
    var docs, copies;
    sh, docs, copies := MakeOldNotes(disk);
    before := sh.driver.Tree();
    OldNotesReady(sh.driver.State(), sh.driver.layout);
    ParentFacts(sh.driver.State(), sh.driver.layout, docs);
    ParentFacts(sh.driver.State(), sh.driver.layout, copies);
    code := sh.driver.CopyFolder(docs, copies, 1);
  }

  // ---- a full disk, a file moved onto itself, a folder named "." -----------------------------

  /** Writing a file of 510 clusters to an empty disk, which has 509, reports success, and no layout
      makes the result a valid volume. */
  method FullDisk(disk: Disk) returns (sh: Shell, code: int)
    requires disk.Valid() && !HasSignature(disk.view)
    modifies disk`view, disk.image
    ensures sh.driver.Wired() && code == 0 && Broken(sh.driver.State())
  {
    hide Inv, SlotTreeOf;
    sh := NewSession(disk);
    RootHasRoom(sh.driver.State(), sh.driver.layout, Key(DOCS, NO_EXT));
    ParentFacts(sh.driver.State(), sh.driver.layout, ROOT_CLUSTER);
    var buf := new byte[Span(510)];
    code := sh.driver.Write(Request(DOCS, NO_EXT, ROOT_CLUSTER, 510 * 2048), buf);
  }

  /** A new entry in an empty root is not refused. */
  lemma RootHasRoom(v: Volume, lay: Layout, k: Key)
    requires Inv(v, lay) && SlotTreeOf(v, lay) == RootOnly()
    ensures Child(Root, k) !in TreeOf(v, lay) && !Crowded(TreeOf(v, lay), Root)
    ensures TreeOf(v, lay) == map[Root := Directory]
  {
    ContentsOf(v, lay);
    assert ChildrenOf(TreeOf(v, lay), Root) == {};
  }

  /** A new file, moved to its own path: the move succeeds, and the file is gone. */
  method MovedOntoItself(disk: Disk) returns (sh: Shell, moved: bool, ghost before: Tree)
    requires disk.Valid() && !HasSignature(disk.view)
    modifies disk`view, disk.image
    ensures sh.Ready() && moved
    ensures before.Keys == {Root, Docs()} && before[Docs()].Document? && sh.driver.Tree() == map[Root := Directory]
  {
    hide Inv, SlotTreeOf, TreeOf, FileRoom, FileMoved;
    sh := NewSession(disk);
    ghost var c := StoreInRoot(sh.driver, Request(DOCS, NO_EXT, ROOT_CLUSTER, 5));
    before := sh.driver.Tree();
    OwnRoom(sh.driver.State(), sh.driver.layout, Docs());
    moved := sh.MoveFile(Request(DOCS, NO_EXT, ROOT_CLUSTER, 5), Request(DOCS, NO_EXT, ROOT_CLUSTER, 5));
    FileGone(before, sh.driver.Tree(), c);
  }

  lemma FileGone(t: Tree, t': Tree, c: Content)
    requires t == map[Root := Directory, Docs() := c] && FileMoved(t, t', Docs(), Docs())
    ensures t.Keys == {Root, Docs()} && t' == map[Root := Directory]
  {
    assert Root in t && Root in t';
    forall q | q in t'
      ensures q == Root
    {
      assert q in t;
    }
  }

  /** The first entry in the root. */
  method StoreInRoot(d: Driver, req: Request) returns (ghost c: Content)
    requires d.Valid() && d.Order() == RootOnly() && FreeCount(d.clusterMap[..]) == 509
    requires req.parent == ROOT_CLUSTER && req.bufferSize <= 2048
    requires IsFolder(d.layout, ROOT_CLUSTER) && d.layout.owner[ROOT_CLUSTER] == Root
    modifies d`layout, d.clusterMap, d.dirTableBuf, d.disk`view, d.disk.image
    ensures d.Valid() && IsFolder(d.layout, ROOT_CLUSTER) && d.layout.owner[ROOT_CLUSTER] == Root
    ensures d.Tree() == map[Root := Directory, Child(Root, req.FullName()) := c] && (c.Document? <==> req.bufferSize > 0)
  {
    hide Inv, SlotTreeOf, TreeOf, Crowded, FreeCount;
    RootHasRoom(d.State(), d.layout, req.FullName());
    ParentFacts(d.State(), d.layout, ROOT_CLUSTER);
    assert d.WriteCode(req) == 0 && Needed(req) == 1;
    var data := new byte[Span(1)];
    c := Payload(req, data[..]);
    StoreFrom(d, req, data);
  }

  /** A file's own clusters are enough for it. */
  lemma OwnRoom(v: Volume, lay: Layout, s: Path)
    requires Inv(v, lay) && s.Child? && IsDocument(TreeOf(v, lay), s)
    ensures FileRoom(v, lay, s, s)
  {
    FileCost(v, lay, s);
  }

  /** After a write of a folder named ".", which neither mkdir nor the path parser accepts but the
      driver does, "cd ." moves the working directory, and the text shown is no longer its text. */
  method DotShown(disk: Disk) returns (sh: Shell)
    requires disk.Valid() && !HasSignature(disk.view)
    modifies disk`view, disk.image
    ensures sh.Valid() && sh.driver.layout.owner[sh.workDir] == Child(Root, Key(DOT_NAME, NO_EXT)) && !sh.TextTrue()
  {
    hide Inv, SlotTreeOf, TreeOf;
    var first := NewSession(disk);
    ghost var c := StoreInRoot(first.driver, Request(DOT_NAME, NO_EXT, ROOT_CLUSTER, 0));
    sh := new Shell(first.driver);
    CdDot(sh);
  }

  method CdDot(sh: Shell)
    requires sh.Valid() && sh.TextTrue() && sh.shown == [TILDE] && sh.driver.layout.owner[sh.workDir] == Root
    requires Child(Root, Key(DOT_NAME, NO_EXT)) in sh.driver.Tree()
    requires sh.driver.Tree()[Child(Root, Key(DOT_NAME, NO_EXT))] == Directory
    modifies sh, sh.workDirName
    ensures sh.Valid() && sh.driver.layout.owner[sh.workDir] == Child(Root, Key(DOT_NAME, NO_EXT)) && !sh.TextTrue()
  {
    hide Inv, SlotTreeOf, TreeOf, Walk, TextAfter, Split, Walked;
    DotWalks(sh.driver.Tree(), sh.shown);
    var name := new byte[2][DOT, 0];
    assert name[..1] == ONE_DOT;
    sh.Cd(name, ONE_DOT);
  }

  lemma DotWalks(t: Tree, s: Text)
    requires Child(Root, Key(DOT_NAME, NO_EXT)) in t && t[Child(Root, Key(DOT_NAME, NO_EXT))] == Directory
    requires |s| == 1
    ensures Split(ONE_DOT, SLASH) == [ONE_DOT] && Walked([ONE_DOT]) == [ONE_DOT]
    ensures Walk(t, Root, [ONE_DOT]) == Some(Child(Root, Key(DOT_NAME, NO_EXT)))
    ensures Shell.TextsFit(t, Root, s, [ONE_DOT])
  {
    SplitSingle(ONE_DOT, SLASH);
    ZerosLength(7);
    assert NameOf(ONE_DOT) == DOT_NAME;
    assert [ONE_DOT][..0] == [] && [ONE_DOT][..1] == [ONE_DOT];
    assert Walk(t, Root, []) == Some(Root);
    assert StepTo(t, Root, ONE_DOT) == Some(Child(Root, Key(DOT_NAME, NO_EXT)));
    forall n | 0 <= n <= 1
      ensures |TextAfter(t, Root, s, [ONE_DOT][..n])| < TEXT_SIZE
    {
    }
  }
}
