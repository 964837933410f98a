/** A folder copy on a volume: where it stands after each slot, and what one entry needs and
    leaves behind. */
module CopySteps {
  import opened Codec
  import opened Options
  import opened Paths
  import opened Volumes
  import opened FreeSpace
  import opened Allocation
  import opened Insertion
  import opened Occupancy
  import opened WriteOutcome
  import opened Copying
  import opened SlotTrees
  import opened FolderCopy

  // ---- the copy under way -------------------------------------------------------------------

  /** The slots of `s` before `i` are dealt with: what remains leads to `goal`, with `left`
      clusters free in the end. */
  ghost predicate OnCourse(o: SlotTree, free: nat, s: Path, d: Path, i: nat, h: nat, goal: SlotTree, left: int) {
    Ready(o, s, d, h) && CopyFrom(o, s, d, i, h).tree == goal && CopyFrom(o, s, d, i, h).cost + left == free && left >= 0
  }

  lemma CourseEnds(o: SlotTree, free: nat, s: Path, d: Path, h: nat, goal: SlotTree, left: int)
    requires OnCourse(o, free, s, d, SLOTS, h, goal, left)
    ensures o == goal && free == left
  {
  }

  lemma CourseSkips(o: SlotTree, free: nat, s: Path, d: Path, i: nat, h: nat, goal: SlotTree, left: int)
    requires OnCourse(o, free, s, d, i, h, goal, left) && i < SLOTS && KeyAt(o, s, i).None?
    ensures OnCourse(o, free, s, d, i + 1, h, goal, left)
  {
    hide Ready;
    if h > 0 {
      CopySkips(o, s, d, i, h);
    }
  }

  lemma CourseTakes(o: SlotTree, free: nat, s: Path, d: Path, i: nat, h: nat, goal: SlotTree, left: int, k: Key)
    requires OnCourse(o, free, s, d, i, h, goal, left) && 2 <= i < SLOTS && KeyAt(o, s, i) == Some(k)
    ensures h > 0 && CopyEntry(o, s, d, i, k, h).cost <= free
    ensures OnCourse(CopyEntry(o, s, d, i, k, h).tree, free - CopyEntry(o, s, d, i, k, h).cost, s, d, i + 1, h, goal, left)
  {
    hide CopyFrom, CopyEntry, Sound, IsDir, Inside;
    EntryBelow(o, s, k, h);
    CopyTakes(o, s, d, i, h, k);
    EntryGrows(o, s, d, i, k, h);
  }

  lemma EntryOfFile(o: SlotTree, s: Path, d: Path, i: nat, k: Key, h: nat)
    requires h > 0 && Child(s, k) in o && o[Child(s, k)].content.Document?
    ensures CopyEntry(o, s, d, i, k, h) == PutEntry(o, s, d, k)
  {
  }

  /** A folder entry: the nested copy may begin where the lookup leads. */
  lemma EntryOfFolder(o: SlotTree, s: Path, d: Path, i: nat, k: Key, h: nat)
    requires Ready(o, s, d, h) && h > 0 && IsDir(o, Child(s, k))
    ensures var made := PutEntry(o, s, d, k);
      var c := FolderNamed(made.tree, d, k.name);
      if c.None? then CopyEntry(o, s, d, i, k, h) == made
      else
        var nested := CopyFrom(made.tree, Child(s, k), c.value, 2, h - 1);
        && Ready(made.tree, Child(s, k), c.value, h - 1)
        && CopyEntry(o, s, d, i, k, h) == Copied(nested.tree, made.cost + nested.cost)
  {
    hide CopyFrom, Put;
    PutEntrySound(o, s, d, k, h);
    var made := PutEntry(o, s, d, k);
    var c := FolderNamed(made.tree, d, k.name);
    if c.Some? {
      StillReady(o, made.tree, s, d, h);
      NestedIsReady(made.tree, s, d, k, c.value, h);
    }
  }

  // ---- the copy on the volume ---------------------------------------------------------------

  /** The folders of `lay` are where they were. */
  ghost predicate KeepsFolders(lay: Layout, lay': Layout) {
    forall c :: IsFolder(lay, c) ==> IsFolder(lay', c) && lay'.owner[c] == lay.owner[c]
  }

  /** What a copy asks for: a bound on the source's depth, and, if the destination is a folder,
      one that is not inside the source, with clusters free for what will be written. */
  ghost predicate Copyable(v: Volume, lay: Layout, src: uint32, dest: uint32, h: nat) {
    && Inv(v, lay) && IsFolder(lay, src) && Bounded(SlotTreeOf(v, lay), lay.owner[src], h)
    && (IsFolder(lay, dest) ==>
          !Inside(lay.owner[src], lay.owner[dest])
          && CopyFrom(SlotTreeOf(v, lay), lay.owner[src], lay.owner[dest], 2, h).cost <= FreeCount(v.fat))
  }

  /** The copy was made, if the destination was a folder; otherwise nothing happened. */
  ghost predicate CopiedTo(v: Volume, lay: Layout, v': Volume, lay': Layout, src: uint32, dest: uint32, h: nat) {
    && Inv(v', lay') && KeepsFolders(lay, lay') && IsFolder(lay, src)
    && if IsFolder(lay, dest) then
         var whole := CopyFrom(SlotTreeOf(v, lay), lay.owner[src], lay.owner[dest], 2, h);
         SlotTreeOf(v', lay') == whole.tree && FreeCount(v'.fat) + whole.cost == FreeCount(v.fat)
       else
         v' == v && lay' == lay
  }

  /** One write was made, if the destination was a folder; otherwise nothing happened. */
  ghost predicate Wrote(v: Volume, lay: Layout, v': Volume, lay': Layout, dest: uint32, k: Key, c: Content) {
    && Inv(v', lay') && KeepsFolders(lay, lay')
    && if IsFolder(lay, dest) then
         SlotTreeOf(v', lay') == Put(SlotTreeOf(v, lay), lay.owner[dest], k, c)
         && FreeCount(v'.fat) + PutCost(SlotTreeOf(v, lay), lay.owner[dest], k, c) == FreeCount(v.fat)
       else
         v' == v && lay' == lay
  }

  /** A node was added at `q`, on the first free clusters. */
  ghost predicate Placed(fat: seq<uint32>, lay: Layout, lay': Layout, q: Path) {
    |fat| == CLUSTER_MAP_SIZE && q in lay'.nodes && lay' == WithNode(lay, q, lay'.nodes[q]) && OnFirstFree(fat, lay'.nodes[q])
  }

  /** The entry `k` in slot `i` of the source is next, and there are clusters for it. */
  ghost predicate EntryAhead(v: Volume, lay: Layout, src: uint32, dest: uint32, i: nat, k: Key, h: nat) {
    && Inv(v, lay) && IsFolder(lay, src) && h > 0 && Bounded(SlotTreeOf(v, lay), lay.owner[src], h)
    && Child(lay.owner[src], k) in SlotTreeOf(v, lay)
    && (IsFolder(lay, dest) ==>
          !Inside(lay.owner[src], lay.owner[dest])
          && CopyEntry(SlotTreeOf(v, lay), lay.owner[src], lay.owner[dest], i, k, h).cost <= FreeCount(v.fat))
  }

  /** That entry was copied, if the destination was a folder; otherwise nothing happened. */
  ghost predicate EntryDone(v: Volume, lay: Layout, v': Volume, lay': Layout, src: uint32, dest: uint32, i: nat,
                            k: Key, h: nat) {
    && Inv(v', lay') && KeepsFolders(lay, lay') && IsFolder(lay, src)
    && h > 0 && Child(lay.owner[src], k) in SlotTreeOf(v, lay)
    && if IsFolder(lay, dest) then
         var entry := CopyEntry(SlotTreeOf(v, lay), lay.owner[src], lay.owner[dest], i, k, h);
         SlotTreeOf(v', lay') == entry.tree && FreeCount(v'.fat) + entry.cost == FreeCount(v.fat)
       else
         v' == v && lay' == lay
  }

  /** The copy that began in `(v0, lay0)` has dealt with the slots before `i`. */
  ghost predicate Midway(v0: Volume, lay0: Layout, v: Volume, lay: Layout, src: uint32, dest: uint32, i: nat, h: nat) {
    && Inv(v, lay) && IsFolder(lay0, src) && src < CLUSTER_MAP_SIZE && IsFolder(lay, src) && KeepsFolders(lay0, lay)
    && if IsFolder(lay0, dest) then
         var s, d := lay0.owner[src], lay0.owner[dest];
         var whole := CopyFrom(SlotTreeOf(v0, lay0), s, d, 2, h);
         OnCourse(SlotTreeOf(v, lay), FreeCount(v.fat), s, d, i, h, whole.tree, FreeCount(v0.fat) - whole.cost)
       else
         v == v0 && lay == lay0 && Bounded(SlotTreeOf(v, lay), lay.owner[src], h)
  }

  // ---- from slot to slot --------------------------------------------------------------------

  lemma FolderIsDir(v: Volume, lay: Layout, c: uint32)
    requires Inv(v, lay) && IsFolder(lay, c)
    ensures Sound(SlotTreeOf(v, lay)) && IsDir(SlotTreeOf(v, lay), lay.owner[c])
    ensures 2 <= c < CLUSTER_MAP_SIZE && lay.nodes[lay.owner[c]].cluster == c && IsTable(v.disk[c])
  {
    SlotTreeSound(v, lay);
    ParentFacts(v, lay, c);
  }

  lemma CopyBegins(v: Volume, lay: Layout, src: uint32, dest: uint32, h: nat)
    requires Copyable(v, lay, src, dest, h)
    ensures Midway(v, lay, v, lay, src, dest, 2, h) && IsTable(v.disk[src])
  {
    hide Inv, SlotTreeOf, Sound, Bounded, CopyFrom;
    FolderIsDir(v, lay, src);
    if IsFolder(lay, dest) {
      FolderIsDir(v, lay, dest);
    }
  }

  /** A clear slot is passed over. */
  lemma SkipSlot(v0: Volume, lay0: Layout, v: Volume, lay: Layout, src: uint32, dest: uint32, i: nat, h: nat)
    requires Midway(v0, lay0, v, lay, src, dest, i, h) && 2 <= i < SLOTS
    requires IsTable(v.disk[src]) ==> !v.disk[src].entries[i].notEmpty
    ensures Midway(v0, lay0, v, lay, src, dest, i + 1, h)
  {
    hide Inv, SlotTreeOf, OnCourse, Bounded;
    var s := lay.owner[src];
    FolderIsDir(v, lay, src);
    SlotKey(v, lay, s, i);
    if IsFolder(lay0, dest) {
      var whole := CopyFrom(SlotTreeOf(v0, lay0), s, lay0.owner[dest], 2, h);
      CourseSkips(SlotTreeOf(v, lay), FreeCount(v.fat), s, lay0.owner[dest], i, h, whole.tree, FreeCount(v0.fat) - whole.cost);
    }
  }

  /** A used slot is the next entry. */
  lemma NextEntry(v0: Volume, lay0: Layout, v: Volume, lay: Layout, src: uint32, dest: uint32, i: nat, h: nat)
    requires Midway(v0, lay0, v, lay, src, dest, i, h) && 2 <= i < SLOTS
    requires IsTable(v.disk[src]) ==> v.disk[src].entries[i].notEmpty
    ensures IsTable(v.disk[src]) && KeyAt(SlotTreeOf(v, lay), lay.owner[src], i) == Some(KeyOf(v.disk[src].entries[i]))
    ensures EntryAhead(v, lay, src, dest, i, KeyOf(v.disk[src].entries[i]), h) && h > 0
  {
    hide Inv, SlotTreeOf, Sound, CopyFrom, CopyEntry;
    var s := lay.owner[src];
    FolderIsDir(v, lay, src);
    SlotKey(v, lay, s, i);
    var o, k := SlotTreeOf(v, lay), KeyOf(v.disk[src].entries[i]);
    if IsFolder(lay0, dest) {
      var whole := CopyFrom(SlotTreeOf(v0, lay0), s, lay0.owner[dest], 2, h);
      CourseTakes(o, FreeCount(v.fat), s, lay0.owner[dest], i, h, whole.tree, FreeCount(v0.fat) - whole.cost, k);
    } else {
      EntryBelow(o, s, k, h);
    }
  }

  /** An entry dealt with carries the copy to the next slot. */
  lemma EntryTaken(v0: Volume, lay0: Layout, v: Volume, lay: Layout, v': Volume, lay': Layout,
                   src: uint32, dest: uint32, i: nat, k: Key, h: nat)
    requires Midway(v0, lay0, v, lay, src, dest, i, h) && 2 <= i < SLOTS
    requires KeyAt(SlotTreeOf(v, lay), lay.owner[src], i) == Some(k)
    requires EntryDone(v, lay, v', lay', src, dest, i, k, h)
    ensures Midway(v0, lay0, v', lay', src, dest, i + 1, h) && IsTable(v'.disk[src])
  {
    hide Inv, SlotTreeOf, OnCourse, Bounded, CopyFrom, CopyEntry;
    FolderIsDir(v', lay', src);
    if IsFolder(lay0, dest) {
      var s, d := lay0.owner[src], lay0.owner[dest];
      var whole := CopyFrom(SlotTreeOf(v0, lay0), s, d, 2, h);
      CourseTakes(SlotTreeOf(v, lay), FreeCount(v.fat), s, d, i, h, whole.tree, FreeCount(v0.fat) - whole.cost, k);
    }
  }

  lemma CopyFinished(v0: Volume, lay0: Layout, v: Volume, lay: Layout, src: uint32, dest: uint32, h: nat)
    requires Copyable(v0, lay0, src, dest, h) && Midway(v0, lay0, v, lay, src, dest, SLOTS, h)
    ensures CopiedTo(v0, lay0, v, lay, src, dest, h)
    ensures IsFolder(lay0, dest) ==> CopyResult(TreeOf(v0, lay0), TreeOf(v, lay), lay0.owner[src], lay0.owner[dest])
    ensures IsFolder(lay0, dest) && WholeBetween(TreeOf(v0, lay0), lay0.owner[src], lay0.owner[dest]) ==>
              FreeCount(v.fat) + |BelowSet(lay0, lay0.owner[src])| == FreeCount(v0.fat)
  {
    hide Inv, SlotTreeOf, OnCourse, Bounded, CopyFrom, TreeOf, Contents, Sound, CopyResult, BareDistinct;
    if IsFolder(lay0, dest) {
      var s, d := lay0.owner[src], lay0.owner[dest];
      var o := SlotTreeOf(v0, lay0);
      var whole := CopyFrom(o, s, d, 2, h);
      CourseEnds(SlotTreeOf(v, lay), FreeCount(v.fat), s, d, h, whole.tree, FreeCount(v0.fat) - whole.cost);
      FolderIsDir(v0, lay0, src);
      FolderIsDir(v0, lay0, dest);
      CopyOutcome(o, s, d, h);
      ContentsOf(v0, lay0);
      ContentsOf(v, lay);
      if Apart(s, d) {
        CostApart(v0, lay0, s, d, h);
      }
    }
  }

  /** The copy of `s` into `d` repeats every entry: they are apart, `d` is empty, and no two entries of
      a folder get the same key. */
  ghost predicate WholeBetween(t: Tree, s: Path, d: Path) {
    Apart(s, d) && BareDistinct(t, s) && forall k :: Child(d, k) !in t
  }

  /** A copy to a place apart takes at most the clusters below the source; into an empty folder,
      with no two entries of a folder getting the same key, it takes exactly those. */
  lemma CostApart(v: Volume, lay: Layout, s: Path, d: Path, h: nat)
    requires Inv(v, lay) && Ready(SlotTreeOf(v, lay), s, d, h) && Apart(s, d)
    ensures CopyFrom(SlotTreeOf(v, lay), s, d, 2, h).cost <= |BelowSet(lay, s)|
    ensures BareDistinct(TreeOf(v, lay), s) && (forall k :: Child(d, k) !in TreeOf(v, lay)) ==>
              CopyFrom(SlotTreeOf(v, lay), s, d, 2, h).cost == |BelowSet(lay, s)|
  {
    hide SlotTreeOf, CopyFrom, TreeOf, BareDistinct, Sound, Bounded, BelowSet;
    var o := SlotTreeOf(v, lay);
    ContentsOf(v, lay);
    DoneStart(lay, s);
    CopyCost(v, lay, o, s, d, 2, h);
    if BareDistinct(TreeOf(v, lay), s) && forall k :: Child(d, k) !in TreeOf(v, lay) {
      forall k
        ensures Child(d, k) !in o
      {
        assert Child(d, k) !in Contents(o);
      }
    }
  }

  // ---- a file -------------------------------------------------------------------------------

  lemma FileAhead(v: Volume, lay: Layout, src: uint32, dest: uint32, i: nat, k: Key, h: nat, c: Content)
    requires EntryAhead(v, lay, src, dest, i, k, h) && c.Document?
    requires SlotTreeOf(v, lay)[Child(lay.owner[src], k)].content == c
    ensures IsFolder(lay, dest) ==> PutCost(SlotTreeOf(v, lay), lay.owner[dest], k, c) <= FreeCount(v.fat)
  {
    hide Inv, SlotTreeOf, CopyEntry, Bounded, Put, PutCost;
    if IsFolder(lay, dest) {
      EntryOfFile(SlotTreeOf(v, lay), lay.owner[src], lay.owner[dest], i, k, h);
    }
  }

  lemma FileDone(v: Volume, lay: Layout, v': Volume, lay': Layout, src: uint32, dest: uint32, i: nat, k: Key, h: nat,
                 c: Content)
    requires EntryAhead(v, lay, src, dest, i, k, h) && c.Document?
    requires SlotTreeOf(v, lay)[Child(lay.owner[src], k)].content == c
    requires Wrote(v, lay, v', lay', dest, k, c)
    ensures EntryDone(v, lay, v', lay', src, dest, i, k, h)
  {
    hide Inv, SlotTreeOf, CopyEntry, Bounded, Put, PutCost;
    if IsFolder(lay, dest) {
      EntryOfFile(SlotTreeOf(v, lay), lay.owner[src], lay.owner[dest], i, k, h);
    }
  }

  // ---- a folder -----------------------------------------------------------------------------

  lemma EntryReady(v: Volume, lay: Layout, src: uint32, dest: uint32, i: nat, k: Key, h: nat)
    requires EntryAhead(v, lay, src, dest, i, k, h) && IsFolder(lay, dest)
    ensures Ready(SlotTreeOf(v, lay), lay.owner[src], lay.owner[dest], h)
  {
    hide Inv, SlotTreeOf, CopyEntry, Bounded, Sound;
    FolderIsDir(v, lay, src);
    FolderIsDir(v, lay, dest);
  }

  lemma FolderAhead(v: Volume, lay: Layout, src: uint32, dest: uint32, i: nat, k: Key, h: nat)
    requires EntryAhead(v, lay, src, dest, i, k, h) && IsDir(SlotTreeOf(v, lay), Child(lay.owner[src], k))
    ensures IsFolder(lay, dest) ==>
              PutCost(SlotTreeOf(v, lay), lay.owner[dest], Key(k.name, NO_EXT), Directory) <= FreeCount(v.fat)
  {
    hide Inv, SlotTreeOf, CopyEntry, CopyFrom, Bounded, Put, PutCost, Ready;
    if IsFolder(lay, dest) {
      EntryReady(v, lay, src, dest, i, k, h);
      EntryOfFolder(SlotTreeOf(v, lay), lay.owner[src], lay.owner[dest], i, k, h);
    }
  }

  /** What looking up a folder by name has found: its cluster, or 0. */
  ghost predicate Lookup(v: Volume, lay: Layout, parent: uint32, name: Name, c: uint32) {
    if IsFolder(lay, parent) then
      var found := FolderNamed(SlotTreeOf(v, lay), lay.owner[parent], name);
      if found.None? then !IsFolder(lay, c) else IsFolder(lay, c) && lay.owner[c] == found.value
    else
      !IsFolder(lay, c)
  }

  /** The entry `k`, a folder at cluster `a`, was made at the destination, and the lookup of its
      name found `c`. */
  ghost predicate FolderMade(v: Volume, lay: Layout, v1: Volume, lay1: Layout, src: uint32, dest: uint32, i: nat, k: Key,
                             h: nat, a: uint32, c: uint32) {
    && EntryAhead(v, lay, src, dest, i, k, h)
    && IsFolder(lay, a) && lay.owner[a] == Child(lay.owner[src], k)
    && Wrote(v, lay, v1, lay1, dest, Key(k.name, NO_EXT), Directory) && Lookup(v1, lay1, dest, k.name, c)
  }

  /** With the folder made and looked up, the nested copy may begin. */
  lemma NestedBegins(v: Volume, lay: Layout, v1: Volume, lay1: Layout, src: uint32, dest: uint32, i: nat, k: Key, h: nat,
                     a: uint32, c: uint32)
    requires FolderMade(v, lay, v1, lay1, src, dest, i, k, h, a, c)
    ensures Copyable(v1, lay1, a, c, h - 1) && a < CLUSTER_MAP_SIZE && v1.fat[a] == END_OF_FILE && IsFolder(lay1, a)
  {
    hide Inv, SlotTreeOf, CopyEntry, CopyFrom, Put, PutCost, Sound, FolderNamed, Bounded;
    FolderIsDir(v, lay, a);
    ParentFacts(v1, lay1, a);
    if IsFolder(lay, dest) {
      EntryReady(v, lay, src, dest, i, k, h);
      EntryOfFolder(SlotTreeOf(v, lay), lay.owner[src], lay.owner[dest], i, k, h);
      if !IsFolder(lay1, c) {
        MadeBounded(SlotTreeOf(v, lay), lay.owner[src], lay.owner[dest], k, h);
      }
    } else {
      BoundedBelow(SlotTreeOf(v, lay), lay.owner[src], k, h);
    }
  }

  lemma BoundedBelow(o: SlotTree, s: Path, k: Key, h: nat)
    requires Bounded(o, s, h) && h > 0
    ensures Bounded(o, Child(s, k), h - 1)
  {
    assert Under(s, Child(s, k));
    forall q {:trigger Under(Child(s, k), q)} | q in o && Under(Child(s, k), q)
      ensures Depth(q) <= Depth(s) + h
    {
      UnderTransitive(s, Child(s, k), q);
    }
  }

  lemma MadeBounded(o: SlotTree, s: Path, d: Path, k: Key, h: nat)
    requires Ready(o, s, d, h) && IsDir(o, Child(s, k)) && h > 0
    ensures Bounded(Put(o, d, Key(k.name, NO_EXT), Directory), Child(s, k), h - 1)
  {
    hide Put;
    var o1 := Put(o, d, Key(k.name, NO_EXT), Directory);
    PutEntrySound(o, s, d, k, h);
    StillReady(o, o1, s, d, h);
    BoundedBelow(o1, s, k, h);
  }

  /** The nested copy completes the entry. */
  lemma FolderDone(v: Volume, lay: Layout, v1: Volume, lay1: Layout, v2: Volume, lay2: Layout,
                   src: uint32, dest: uint32, i: nat, k: Key, h: nat, a: uint32, c: uint32)
    requires FolderMade(v, lay, v1, lay1, src, dest, i, k, h, a, c)
    requires CopiedTo(v1, lay1, v2, lay2, a, c, h - 1)
    ensures EntryDone(v, lay, v2, lay2, src, dest, i, k, h)
  {
    hide Inv, SlotTreeOf, CopyEntry, CopyFrom, Put, PutCost, Sound, FolderNamed, Bounded;
    FolderIsDir(v, lay, a);
    if IsFolder(lay, dest) {
      EntryReady(v, lay, src, dest, i, k, h);
      EntryOfFolder(SlotTreeOf(v, lay), lay.owner[src], lay.owner[dest], i, k, h);
    }
  }

  // ---- a write ------------------------------------------------------------------------------

  lemma StoreKeeps(v: Volume, lay: Layout, lay': Layout, q: Path)
    requires Inv(v, lay) && Owned(lay') && q !in lay.nodes && q in lay'.nodes
           && lay' == WithNode(lay, q, lay'.nodes[q])
    ensures KeepsFolders(lay, lay')
  {
    forall c | IsFolder(lay, c)
      ensures IsFolder(lay', c) && lay'.owner[c] == lay.owner[c]
    {
      ParentFacts(v, lay, c);
      assert lay'.nodes[lay.owner[c]].Has(c);
    }
  }

  /** If the destination will take the entry, there are clusters for it. */
  lemma PutAhead(v: Volume, lay: Layout, req: Request, data: seq<byte>)
    requires Inv(v, lay) && IsFolder(lay, req.parent) && Span(ClustersFor(req.bufferSize)) <= |data|
    requires PutCost(SlotTreeOf(v, lay), lay.owner[req.parent], req.FullName(), Payload(req, data)) <= FreeCount(v.fat)
    ensures Child(lay.owner[req.parent], req.FullName()) !in lay.nodes && !Crowded(TreeOf(v, lay), lay.owner[req.parent]) ==>
              Needed(req) <= FreeCount(v.fat)
  {
    hide Put;
    var p, o := lay.owner[req.parent], SlotTreeOf(v, lay);
    ParentFacts(v, lay, req.parent);
    CrowdedTable(v, lay, p);
    FirstVacant(v, lay, p);
    PayloadCost(req, data);
    if Child(p, req.FullName()) !in lay.nodes && !Crowded(TreeOf(v, lay), p) {
      PutChanges(o, p, req.FullName(), Payload(req, data));
    }
  }

  lemma PayloadCost(req: Request, data: seq<byte>)
    requires Span(ClustersFor(req.bufferSize)) <= |data|
    ensures ClustersOf(Payload(req, data)) == Needed(req)
  {
    ClustersCover(req.bufferSize);
  }

  lemma PutChanges(o: SlotTree, p: Path, k: Key, c: Content)
    requires Child(p, k) !in o && NextVacant(o, p, 2) < SLOTS
    ensures Put(o, p, k, c) != o
  {
    assert Child(p, k) in Put(o, p, k, c);
  }

  /** A write, whether it was stored or refused, told by the slots of the tree. */
  lemma PutDone(v: Volume, lay: Layout, v': Volume, lay': Layout, req: Request, data: seq<byte>, stored: bool)
    requires Inv(v, lay) && Span(ClustersFor(req.bufferSize)) <= |data|
    requires !stored ==> v' == v && lay' == lay
    requires stored ==> IsFolder(lay, req.parent) && Child(lay.owner[req.parent], req.FullName()) !in lay.nodes
                        && Stored(v, lay, v', lay', req, data) && StoredFirst(v, lay, lay', req)
    requires !stored && IsFolder(lay, req.parent) ==>
               Child(lay.owner[req.parent], req.FullName()) in lay.nodes || Crowded(TreeOf(v, lay), lay.owner[req.parent])
    ensures Wrote(v, lay, v', lay', req.parent, req.FullName(), Payload(req, data))
  {
    hide Put, SlotTreeOf;
    PayloadCost(req, data);
    if stored {
      StoredIsPut(v, lay, v', lay', req, data);
      StoreKeeps(v, lay, lay', Child(lay.owner[req.parent], req.FullName()));
    } else if IsFolder(lay, req.parent) {
      ParentFacts(v, lay, req.parent);
      RefusedIsPut(v, lay, lay.owner[req.parent], req.FullName(), Payload(req, data));
    }
  }
}
