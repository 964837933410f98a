/** A folder's contents copied into another folder, entry by entry: what results, what it costs,
    and when the copy is the source's tree again. */
module FolderCopy {
  import opened Codec
  import opened Options
  import opened Paths
  import opened Volumes
  import opened Erasure
  import opened FreeSpace
  import opened WriteOutcome
  import opened Copying
  import opened SlotTrees

  /** A tree, and the clusters that the writes leading to it took. */
  datatype Copied = Copied(tree: SlotTree, cost: nat)

  /** The slots of `s` from `i` on, copied below `d`, as far down as `h` levels: the code has no
      such limit, and where `Ready` holds there is nothing further down. */
  ghost function CopyFrom(o: SlotTree, s: Path, d: Path, i: nat, h: nat): Copied
    decreases h, SLOTS - i, 1
  {
    if h == 0 || i >= SLOTS then Copied(o, 0)
    else
      var k := KeyAt(o, s, i);
      if k.None? then CopyFrom(o, s, d, i + 1, h)
      else
        var entry := CopyEntry(o, s, d, i, k.value, h);
        var rest := CopyFrom(entry.tree, s, d, i + 1, h);
        Copied(rest.tree, entry.cost + rest.cost)
  }

  /** One entry: a file is written under its name; a folder is made, without extension, and
      looked up by name, and what is in it copied into what the lookup finds. */
  ghost function CopyEntry(o: SlotTree, s: Path, d: Path, i: nat, k: Key, h: nat): Copied
    requires h > 0 && Child(s, k) in o
    decreases h, SLOTS - i, 0
  {
    var made := PutEntry(o, s, d, k);
    var c := FolderNamed(made.tree, d, k.name);
    if o[Child(s, k)].content.Document? || c.None? then made
    else
      var nested := CopyFrom(made.tree, Child(s, k), c.value, 2, h - 1);
      Copied(nested.tree, made.cost + nested.cost)
  }

  /** The write for an entry, which the destination may refuse. */
  ghost function PutEntry(o: SlotTree, s: Path, d: Path, k: Key): Copied
    requires Child(s, k) in o
  {
    var c := o[Child(s, k)].content;
    var key := if c == Directory then Key(k.name, NO_EXT) else k;
    Copied(Put(o, d, key, c), PutCost(o, d, key, c))
  }

  /** `d` lies strictly inside `s`. */
  predicate Inside(s: Path, d: Path) {
    Under(s, d) && s != d
  }

  /** Nothing under `s` is more than `h` levels below it. */
  ghost predicate Bounded(o: SlotTree, s: Path, h: nat) {
    forall q {:trigger Under(s, q)} :: q in o && Under(s, q) ==> Depth(q) <= Depth(s) + h
  }

  /** What a copy asks of the tree. */
  ghost predicate Ready(o: SlotTree, s: Path, d: Path, h: nat) {
    Sound(o) && IsDir(o, s) && IsDir(o, d) && !Inside(s, d) && Bounded(o, s, h)
  }

  lemma StillReady(o: SlotTree, o': SlotTree, s: Path, d: Path, h: nat)
    requires Ready(o, s, d, h) && Sound(o') && Grown(o, o', d, h)
    ensures Ready(o', s, d, h)
  {
    forall q | q in o' && Under(s, q)
      ensures Depth(q) <= Depth(s) + h
    {
      if q !in o {
        UnderComparable(d, s, q);
        if Under(d, s) {
          UnderDepth(d, s);
        }
      }
    }
  }

  /** The nested copy of a child folder, into a child folder of the destination, may begin. */
  lemma NestedIsReady(o: SlotTree, s: Path, d: Path, k: Key, c: Path, h: nat)
    requires Ready(o, s, d, h) && IsDir(o, Child(s, k)) && IsDir(o, c) && c.Child? && c.parent == d
    ensures h > 0 && Ready(o, Child(s, k), c, h - 1) && Under(d, c) && Depth(c) == Depth(d) + 1
  {
    var a := Child(s, k);
    assert Under(s, a) && Under(d, c);
    if Inside(a, c) {
      UnderTransitive(s, a, d);
      UnderDepth(a, d);
    }
    forall q | q in o && Under(a, q)
      ensures Depth(q) <= Depth(s) + h
    {
      UnderTransitive(s, a, q);
    }
  }

  /** A folder with an entry has something one level below it. */
  lemma EntryBelow(o: SlotTree, s: Path, k: Key, h: nat)
    requires Bounded(o, s, h) && Child(s, k) in o
    ensures h > 0
  {
    assert Under(s, Child(s, k));
  }

  lemma PutEntrySound(o: SlotTree, s: Path, d: Path, k: Key, h: nat)
    requires Ready(o, s, d, h) && Child(s, k) in o
    ensures h > 0 && Sound(PutEntry(o, s, d, k).tree) && Grown(o, PutEntry(o, s, d, k).tree, d, 1)
  {
    EntryBelow(o, s, k, h);
    var c := o[Child(s, k)].content;
    PutSound(o, d, if c == Directory then Key(k.name, NO_EXT) else k, c);
  }

  /** Unfolding the copy after the last slot, at a clear slot and at an entry. */
  lemma CopyEnds(o: SlotTree, s: Path, d: Path, i: nat, h: nat)
    requires h == 0 || i >= SLOTS
    ensures CopyFrom(o, s, d, i, h) == Copied(o, 0)
  {
  }

  lemma CopySkips(o: SlotTree, s: Path, d: Path, i: nat, h: nat)
    requires h > 0 && i < SLOTS && KeyAt(o, s, i).None?
    ensures CopyFrom(o, s, d, i, h) == CopyFrom(o, s, d, i + 1, h)
  {
  }

  lemma CopyTakes(o: SlotTree, s: Path, d: Path, i: nat, h: nat, k: Key)
    requires h > 0 && i < SLOTS && KeyAt(o, s, i) == Some(k)
    ensures var entry := CopyEntry(o, s, d, i, k, h);
      var rest := CopyFrom(entry.tree, s, d, i + 1, h);
      CopyFrom(o, s, d, i, h) == Copied(rest.tree, entry.cost + rest.cost)
  {
  }

  /** The tree stays sound, and grew below the destination no deeper than the source reaches. */
  ghost predicate GrownSound(o: SlotTree, o': SlotTree, d: Path, h: nat) {
    Sound(o') && Grown(o, o', d, h)
  }

  /** A copy only adds, below the destination and no deeper than the source reaches. */
  lemma {:induction false} CopyGrows(o: SlotTree, s: Path, d: Path, i: nat, h: nat)
    requires Ready(o, s, d, h)
    ensures GrownSound(o, CopyFrom(o, s, d, i, h).tree, d, h)
    decreases h, SLOTS - i, 2
  {
    if h > 0 && i < SLOTS {
      var k := KeyAt(o, s, i);
      if k.None? {
        CopySkips(o, s, d, i, h);
        CopyGrows(o, s, d, i + 1, h);
      } else {
        CopyTakes(o, s, d, i, h, k.value);
        TakeGrows(o, s, d, i, k.value, h);
      }
    }
  }

  lemma {:induction false} TakeGrows(o: SlotTree, s: Path, d: Path, i: nat, k: Key, h: nat)
    requires Ready(o, s, d, h) && h > 0 && i < SLOTS && Child(s, k) in o
    ensures GrownSound(o, CopyFrom(CopyEntry(o, s, d, i, k, h).tree, s, d, i + 1, h).tree, d, h)
    decreases h, SLOTS - i, 1
  {
    var o1 := CopyEntry(o, s, d, i, k, h).tree;
    EntryGrows(o, s, d, i, k, h);
    CopyGrows(o1, s, d, i + 1, h);
    GrownOn(o, o1, CopyFrom(o1, s, d, i + 1, h).tree, d, d, h, h);
  }

  lemma {:induction false} EntryGrows(o: SlotTree, s: Path, d: Path, i: nat, k: Key, h: nat)
    requires Ready(o, s, d, h) && h > 0 && Child(s, k) in o
    ensures GrownSound(o, CopyEntry(o, s, d, i, k, h).tree, d, h)
    ensures Ready(CopyEntry(o, s, d, i, k, h).tree, s, d, h)
    decreases h, SLOTS - i, 0
  {
    hide CopyFrom, Sound, Put;
    PutEntrySound(o, s, d, k, h);
    var o1 := PutEntry(o, s, d, k).tree;
    var c := FolderNamed(o1, d, k.name);
    if o[Child(s, k)].content == Directory && c.Some? {
      StillReady(o, o1, s, d, h);
      NestedGrows(o, o1, s, d, k, c.value, h);
      assert CopyEntry(o, s, d, i, k, h).tree == CopyFrom(o1, Child(s, k), c.value, 2, h - 1).tree;
    } else {
      assert CopyEntry(o, s, d, i, k, h).tree == o1;
    }
    StillReady(o, CopyEntry(o, s, d, i, k, h).tree, s, d, h);
  }

  lemma {:induction false} NestedGrows(o: SlotTree, o1: SlotTree, s: Path, d: Path, k: Key, c: Path, h: nat)
    requires Ready(o1, s, d, h) && IsDir(o1, Child(s, k)) && IsDir(o1, c) && c.Child? && c.parent == d
    requires h > 0 && Grown(o, o1, d, h)
    ensures GrownSound(o, CopyFrom(o1, Child(s, k), c, 2, h - 1).tree, d, h)
    decreases h - 1, SLOTS, 3
  {
    hide CopyFrom, CopyEntry, Sound, Grown;
    NestedIsReady(o1, s, d, k, c, h);
    CopyGrows(o1, Child(s, k), c, 2, h - 1);
    GrownOn(o, o1, CopyFrom(o1, Child(s, k), c, 2, h - 1).tree, d, c, h, h - 1);
  }

  // ---- the faithful copy --------------------------------------------------------------------

  /** The copy of the slots from `i` on will repeat every entry: no two entries of a folder at or
      below `s` will have the same key, and the destination holds only what came from the slots
      before `i`. */
  ghost predicate Fits(o: SlotTree, s: Path, d: Path, i: nat) {
    && Apart(s, d) && BareDistinct(Contents(o), s)
    && (forall k :: Child(d, k) in o ==>
          o[Child(d, k)].slot < i && (o[Child(d, k)].content == Directory ==> k.ext == NO_EXT))
    && (forall k :: Child(s, k) in o && o[Child(s, k)].slot >= i ==> Child(d, BareAt(o, s, k)) !in o)
  }

  /** The key under which the child `k` of `s` is written. */
  ghost function BareAt(o: SlotTree, s: Path, k: Key): Key {
    Bare(Contents(o), Child(s, k))
  }

  /** `q` lies at or below a child of `s` in a slot from `i` on. */
  ghost predicate Ahead(o: SlotTree, s: Path, i: nat, q: Path) {
    Under(s, q) && q != s && Step(s, q) in o && o[Step(s, q)].slot >= i
  }

  /** `q` reappears with `s` replaced by `d`, and without the extensions of folders. */
  ghost predicate Mirrored(o: SlotTree, o': SlotTree, s: Path, d: Path, q: Path) {
    && q in o && Under(s, q)
    && var r := Image(Contents(o), q, s, d); r in o' && o'[r].content == o[q].content
  }

  /** `r` repeats `q`. */
  ghost predicate ImageOf(o: SlotTree, s: Path, d: Path, q: Path, r: Path) {
    q in o && Under(s, q) && Image(Contents(o), q, s, d) == r
  }

  /** `r` repeats something of `o`. */
  ghost predicate Stems(o: SlotTree, s: Path, d: Path, r: Path) {
    exists q :: ImageOf(o, s, d, q, r)
  }

  ghost predicate StemsAhead(o: SlotTree, s: Path, d: Path, i: nat, r: Path) {
    exists q :: ImageOf(o, s, d, q, r) && Ahead(o, s, i, q)
  }

  ghost predicate Kept(o: SlotTree, o': SlotTree) {
    forall p :: p in o ==> p in o' && o'[p] == o[p]
  }

  /** From `o` to `o'`, what lies in the slots of `s` from `i` on was repeated below `d`, and
      nothing else is new. */
  ghost predicate Repeated(o: SlotTree, o': SlotTree, s: Path, d: Path, i: nat) {
    && Kept(o, o')
    && (forall q {:trigger Mirrored(o, o', s, d, q)} :: q in o && Ahead(o, s, i, q) ==> Mirrored(o, o', s, d, q))
    && (forall r {:trigger StemsAhead(o, s, d, i, r)} :: r in o' && r !in o ==> StemsAhead(o, s, d, i, r))
  }

  /** From `o` to `o'`, the child `k` of `s` and what is below it was repeated as a child of `d`, and
      nothing else is new. */
  ghost predicate ChildRepeated(o: SlotTree, o': SlotTree, s: Path, d: Path, k: Key) {
    var a, b := Child(s, k), Child(d, BareAt(o, s, k));
    && Kept(o, o')
    && (forall q {:trigger Mirrored(o, o', a, b, q)} :: q in o && Under(a, q) ==> Mirrored(o, o', a, b, q))
    && (forall r {:trigger Stems(o, a, b, r)} :: r in o' && r !in o ==> Stems(o, a, b, r))
  }

  /** Trees that agree on `s` have the same images of what is under it. */
  lemma SameImage(o: SlotTree, o': SlotTree, s: Path, a: Path, b: Path, q: Path)
    requires SameUnder(o', o, s) && Under(s, a) && Under(a, q)
    ensures Image(Contents(o'), q, a, b) == Image(Contents(o), q, a, b)
  {
    forall x | Under(a, x)
      ensures Under(s, x)
    {
      UnderTransitive(s, a, x);
    }
    ImageFrame(Contents(o), Contents(o'), q, a, b);
  }

  /** The next entry is new at the destination, and there is a slot for it. */
  lemma FitsPut(o: SlotTree, s: Path, d: Path, i: nat, k: Key)
    requires Fits(o, s, d, i) && 2 <= i < SLOTS && Child(s, k) in o && o[Child(s, k)].slot == i
    ensures var b, o1, c := Child(d, BareAt(o, s, k)), PutEntry(o, s, d, k).tree, o[Child(s, k)].content;
      && o1 == Put(o, d, b.key, c) && o1 != o && b !in o && b in o1 && o1[b].content == c && o1[b].slot <= i
      && (c == Directory ==> b.key == Key(k.name, NO_EXT))
      && Kept(o, o1) && (forall q :: q in o1 && q !in o ==> q == b)
  {
    assert Child(s, k) in Contents(o);
    assert Vacant(o, d, i);
  }

  /** A clear slot leaves nothing to copy. */
  lemma FitsSkip(o: SlotTree, s: Path, d: Path, i: nat)
    requires Fits(o, s, d, i) && Vacant(o, s, i)
    ensures Fits(o, s, d, i + 1)
  {
  }

  lemma FitsNext(o: SlotTree, o': SlotTree, s: Path, d: Path, i: nat, k: Key)
    requires Sound(o) && Fits(o, s, d, i) && Child(s, k) in o && o[Child(s, k)].slot == i
    requires ChildRepeated(o, o', s, d, k) && SameUnder(o', o, s)
    requires var b := Child(d, BareAt(o, s, k));
      b in o' && o'[b].slot <= i && (o'[b].content == Directory ==> b.key.ext == NO_EXT)
    ensures Fits(o', s, d, i + 1)
  {
    var b := Child(d, BareAt(o, s, k));
    forall j | Child(d, j) in o' && Child(d, j) !in o
      ensures Child(d, j) == b
    {
      assert Stems(o, Child(s, k), b, Child(d, j));
      var q :| ImageOf(o, Child(s, k), b, q, Child(d, j));
      ImageUnder(Contents(o), q, Child(s, k), b);
      UnderDepth(b, Child(d, j));
    }
    assert Under(s, s);
    DistinctFrame(Contents(o), Contents(o'), s);
    forall j | Child(s, j) in o'
      ensures Child(s, j) in o && o[Child(s, j)] == o'[Child(s, j)] && BareAt(o', s, j) == BareAt(o, s, j)
      ensures BareAt(o, s, j) == BareAt(o, s, k) ==> j == k
    {
      assert Under(s, Child(s, j));
      assert BareClash(Contents(o), s, j, k) <==> BareAt(o, s, j) == BareAt(o, s, k);
    }
  }

  /** A nested folder is made, found by its name, and ready to be filled. */
  lemma FitsMade(o: SlotTree, s: Path, d: Path, i: nat, k: Key)
    requires Sound(o) && IsDir(o, d) && Fits(o, s, d, i) && 2 <= i < SLOTS
    requires IsDir(o, Child(s, k)) && o[Child(s, k)].slot == i
    ensures var b, o1 := Child(d, BareAt(o, s, k)), PutEntry(o, s, d, k).tree;
      FolderNamed(o1, d, k.name) == Some(b) && Fits(o1, Child(s, k), b, 2)
  {
    var a, b, o1 := Child(s, k), Child(d, BareAt(o, s, k)), PutEntry(o, s, d, k).tree;
    assert Under(s, a) && Under(d, b);
    UnderDepth(s, a);
    FitsPut(o, s, d, i, k);
    PutSound(o, d, b.key, Directory);
    FoundWhenFirst(o1, d, b.key);
    forall j: Key | j.name == k.name && IsDir(o1, Child(d, j))
      ensures j == b.key
    {
    }
    ApartChildren(s, d, a, b);
    forall x | Under(a, x)
      ensures Under(s, x) && x != b
    {
      UnderTransitive(s, a, x);
    }
    DistinctFrame(Contents(o), Contents(o1), a);
    assert forall j :: Child(b, j) !in o;
  }

  lemma RepeatedNext(o: SlotTree, o1: SlotTree, o2: SlotTree, s: Path, d: Path, i: nat, k: Key)
    requires Sound(o) && Child(s, k) in o && o[Child(s, k)].slot == i
    requires ChildRepeated(o, o1, s, d, k) && SameUnder(o1, o, s) && Repeated(o1, o2, s, d, i + 1)
    ensures Repeated(o, o2, s, d, i)
  {
    forall q {:trigger Mirrored(o, o2, s, d, q)} | q in o && Ahead(o, s, i, q)
      ensures Mirrored(o, o2, s, d, q)
    {
      RepeatedForward(o, o1, o2, s, d, i, k, q);
    }
    forall r {:trigger StemsAhead(o, s, d, i, r)} | r in o2 && r !in o
      ensures StemsAhead(o, s, d, i, r)
    {
      RepeatedBackward(o, o1, o2, s, d, i, k, r);
    }
  }

  lemma RepeatedForward(o: SlotTree, o1: SlotTree, o2: SlotTree, s: Path, d: Path, i: nat, k: Key, q: Path)
    requires Sound(o) && Child(s, k) in o && o[Child(s, k)].slot == i
    requires ChildRepeated(o, o1, s, d, k) && SameUnder(o1, o, s) && Repeated(o1, o2, s, d, i + 1)
    requires q in o && Ahead(o, s, i, q)
    ensures Mirrored(o, o2, s, d, q)
  {
    var c := Step(s, q);
    assert c == Child(s, c.key) && Under(s, c) && Under(s, s);
    if Clash(o, s, c.key, k) {
      ImageChild(Contents(o), q, s, k, d);
      assert Mirrored(o, o1, Child(s, k), Child(d, BareAt(o, s, k)), q);
    } else {
      assert o[c].slot != i;
      assert Ahead(o1, s, i + 1, q);
      assert Mirrored(o1, o2, s, d, q);
      SameImage(o, o1, s, s, d, q);
    }
  }

  lemma RepeatedBackward(o: SlotTree, o1: SlotTree, o2: SlotTree, s: Path, d: Path, i: nat, k: Key, r: Path)
    requires Sound(o) && Child(s, k) in o && o[Child(s, k)].slot == i
    requires ChildRepeated(o, o1, s, d, k) && SameUnder(o1, o, s) && Repeated(o1, o2, s, d, i + 1)
    requires r in o2 && r !in o
    ensures StemsAhead(o, s, d, i, r)
  {
    var q: Path;
    if r in o1 {
      assert Stems(o, Child(s, k), Child(d, BareAt(o, s, k)), r);
      q :| ImageOf(o, Child(s, k), Child(d, BareAt(o, s, k)), q, r);
      StepUnique(s, k, q);
      ImageChild(Contents(o), q, s, k, d);
    } else {
      assert StemsAhead(o1, s, d, i + 1, r);
      q :| ImageOf(o1, s, d, q, r) && Ahead(o1, s, i + 1, q);
      assert Under(s, Step(s, q)) && Under(s, s);
      SameImage(o, o1, s, s, d, q);
    }
    assert ImageOf(o, s, d, q, r) && Ahead(o, s, i, q);
  }

  /** A folder made and filled repeats the source's child. */
  lemma FolderRepeated(o: SlotTree, o1: SlotTree, o2: SlotTree, s: Path, d: Path, k: Key)
    requires Sound(o1) && IsDir(o, Child(s, k)) && SameUnder(o1, o, s) && Kept(o, o1)
    requires forall p :: p in o1 && p !in o ==> p == Child(d, BareAt(o, s, k))
    requires IsDir(o1, Child(d, BareAt(o, s, k))) && Repeated(o1, o2, Child(s, k), Child(d, BareAt(o, s, k)), 2)
    ensures ChildRepeated(o, o2, s, d, k)
  {
    var a, b := Child(s, k), Child(d, BareAt(o, s, k));
    assert Under(s, a);
    forall q {:trigger Mirrored(o, o2, a, b, q)} | q in o && Under(a, q)
      ensures Mirrored(o, o2, a, b, q)
    {
      if q != a {
        StepInOrder(o1, a, q);
        assert Child(a, Step(a, q).key) in o1;
        assert Mirrored(o1, o2, a, b, q);
        SameImage(o, o1, s, a, b, q);
      }
    }
    forall r {:trigger Stems(o, a, b, r)} | r in o2 && r !in o
      ensures Stems(o, a, b, r)
    {
      if r == b {
        assert ImageOf(o, a, b, a, r);
      } else {
        assert StemsAhead(o1, a, b, 2, r);
        var q :| ImageOf(o1, a, b, q, r) && Ahead(o1, a, 2, q);
        UnderTransitive(s, a, q);
        SameImage(o, o1, s, a, b, q);
        assert ImageOf(o, a, b, q, r);
      }
    }
  }

  /** Below a sound folder nothing lies in a slot past the last, or deeper than its bound. */
  lemma NoneAhead(o: SlotTree, s: Path, i: nat, h: nat, q: Path)
    requires Sound(o) && Bounded(o, s, h) && (i == SLOTS || h == 0)
    ensures !Ahead(o, s, i, q)
  {
    if Under(s, q) && q != s && Step(s, q) in o {
      EntryBelow(o, s, Step(s, q).key, h);
    }
  }

  lemma NothingAhead(o: SlotTree, s: Path, d: Path, i: nat, h: nat)
    requires Sound(o) && Bounded(o, s, h) && (i == SLOTS || h == 0)
    ensures Repeated(o, o, s, d, i)
  {
    forall q
      ensures !Ahead(o, s, i, q)
    {
      NoneAhead(o, s, i, h, q);
    }
  }

  lemma RepeatedSkip(o: SlotTree, o': SlotTree, s: Path, d: Path, i: nat)
    requires Vacant(o, s, i) && Repeated(o, o', s, d, i + 1)
    ensures Repeated(o, o', s, d, i)
  {
    forall q {:trigger Mirrored(o, o', s, d, q)} | q in o && Ahead(o, s, i, q)
      ensures Mirrored(o, o', s, d, q)
    {
      assert Step(s, q) == Child(s, Step(s, q).key);
      assert Ahead(o, s, i + 1, q);
    }
    forall r {:trigger StemsAhead(o, s, d, i, r)} | r in o' && r !in o
      ensures StemsAhead(o, s, d, i, r)
    {
      assert StemsAhead(o, s, d, i + 1, r);
    }
  }

  /** Where no two entries get the same key, the slots from `i` on are repeated, every entry in the
      place that the keys without the folders' extensions give it. */
  lemma {:induction false} CopyExact(o: SlotTree, s: Path, d: Path, i: nat, h: nat)
    requires Ready(o, s, d, h) && 2 <= i <= SLOTS && Fits(o, s, d, i)
    ensures Repeated(o, CopyFrom(o, s, d, i, h).tree, s, d, i)
    decreases h, SLOTS - i, 2
  {
    hide Fits, Repeated, CopyFrom;
    if i == SLOTS || h == 0 {
      CopyEnds(o, s, d, i, h);
      NothingAhead(o, s, d, i, h);
    } else {
      var k := KeyAt(o, s, i);
      if k.None? {
        CopySkips(o, s, d, i, h);
        FitsSkip(o, s, d, i);
        CopyExact(o, s, d, i + 1, h);
        RepeatedSkip(o, CopyFrom(o, s, d, i + 1, h).tree, s, d, i);
      } else {
        CopyTakes(o, s, d, i, h, k.value);
        TakeExact(o, s, d, i, k.value, h);
      }
    }
  }

  lemma {:induction false} TakeExact(o: SlotTree, s: Path, d: Path, i: nat, k: Key, h: nat)
    requires Ready(o, s, d, h) && h > 0 && 2 <= i < SLOTS && Fits(o, s, d, i)
    requires Child(s, k) in o && o[Child(s, k)].slot == i
    ensures Repeated(o, CopyFrom(CopyEntry(o, s, d, i, k, h).tree, s, d, i + 1, h).tree, s, d, i)
    decreases h, SLOTS - i, 1
  {
    hide CopyFrom, CopyEntry, Fits, ChildRepeated, Repeated, SameUnder;
    var o1 := CopyEntry(o, s, d, i, k, h).tree;
    EntryExact(o, s, d, i, k, h);
    CopyExact(o1, s, d, i + 1, h);
    RepeatedNext(o, o1, CopyFrom(o1, s, d, i + 1, h).tree, s, d, i, k);
  }

  lemma {:induction false} EntryExact(o: SlotTree, s: Path, d: Path, i: nat, k: Key, h: nat)
    requires Ready(o, s, d, h) && h > 0 && 2 <= i < SLOTS && Fits(o, s, d, i)
    requires Child(s, k) in o && o[Child(s, k)].slot == i
    ensures var o1 := CopyEntry(o, s, d, i, k, h).tree;
      Ready(o1, s, d, h) && SameUnder(o1, o, s) && ChildRepeated(o, o1, s, d, k) && Fits(o1, s, d, i + 1)
    decreases h, SLOTS - i, 0
  {
    hide Fits, ChildRepeated, CopyFrom, Put, Sound, Bounded, BareAt;
    var o2 := CopyEntry(o, s, d, i, k, h).tree;
    EntryGrows(o, s, d, i, k, h);
    ApartFits(o, s, d, i);
    ApartGrown(o, o2, s, d, h);
    FitsPut(o, s, d, i, k);
    if o[Child(s, k)].content == Directory {
      FolderExact(o, s, d, i, k, h);
    } else {
      FileRepeated(o, o2, s, d, k);
    }
    FitsNext(o, o2, s, d, i, k);
  }

  lemma ApartFits(o: SlotTree, s: Path, d: Path, i: nat)
    requires Fits(o, s, d, i)
    ensures Apart(s, d)
  {
  }

  /** The nested copy repeats a folder, in the slot where it was made. */
  lemma {:induction false} FolderExact(o: SlotTree, s: Path, d: Path, i: nat, k: Key, h: nat)
    requires Ready(o, s, d, h) && h > 0 && 2 <= i < SLOTS && Fits(o, s, d, i)
    requires IsDir(o, Child(s, k)) && o[Child(s, k)].slot == i
    ensures var o2, b := CopyEntry(o, s, d, i, k, h).tree, Child(d, BareAt(o, s, k));
      ChildRepeated(o, o2, s, d, k) && b in o2 && o2[b].slot <= i && o2[b].content == Directory && b.key.ext == NO_EXT
    decreases h - 1, SLOTS, 3
  {
    hide Fits, ChildRepeated, CopyFrom, Put, Sound, Bounded, BareAt;
    var o1, a, b := PutEntry(o, s, d, k).tree, Child(s, k), Child(d, BareAt(o, s, k));
    FitsMade(o, s, d, i, k);
    FitsPut(o, s, d, i, k);
    PutEntrySound(o, s, d, k, h);
    StillReady(o, o1, s, d, h);
    NestedIsReady(o1, s, d, k, b, h);
    ApartFits(o, s, d, i);
    ApartGrown(o, o1, s, d, 1);
    CopyExact(o1, a, b, 2, h - 1);
    FolderRepeated(o, o1, CopyFrom(o1, a, b, 2, h - 1).tree, s, d, k);
  }

  lemma {:induction false} NothingBelowFile(o: SlotTree, a: Path, q: Path)
    requires Sound(o) && a in o && o[a].content.Document? && q in o && Under(a, q)
    ensures q == a
  {
    if q != a {
      assert Child(q.parent, q.key) in o;
      NothingBelowFile(o, a, q.parent);
    }
  }

  lemma FileRepeated(o: SlotTree, o1: SlotTree, s: Path, d: Path, k: Key)
    requires Sound(o) && Child(s, k) in o && o[Child(s, k)].content.Document? && Kept(o, o1)
    requires forall p :: p in o1 && p !in o ==> p == Child(d, BareAt(o, s, k))
    requires Child(d, BareAt(o, s, k)) in o1 && o1[Child(d, BareAt(o, s, k))].content == o[Child(s, k)].content
    ensures ChildRepeated(o, o1, s, d, k)
  {
    var a, b := Child(s, k), Child(d, BareAt(o, s, k));
    forall q | q in o && Under(a, q)
      ensures q == a
    {
      NothingBelowFile(o, a, q);
    }
    forall r {:trigger Stems(o, a, b, r)} | r in o1 && r !in o
      ensures Stems(o, a, b, r)
    {
      assert ImageOf(o, a, b, a, r);
    }
  }

  // ---- the cost -----------------------------------------------------------------------------

  /** A slot of the source, as the layout counts it. */
  lemma SlotCost(v: Volume, lay: Layout, o: SlotTree, s: Path, i: nat)
    requires Inv(v, lay) && Sound(o) && IsDir(o, s) && SameUnder(o, SlotTreeOf(v, lay), s) && 2 <= i < SLOTS
    ensures KeyAt(o, s, i).None? ==> |DoneSet(lay, s, i + 1)| == |DoneSet(lay, s, i)|
    ensures var k := KeyAt(o, s, i);
      k.Some? ==> |DoneSet(lay, s, i + 1)| == |DoneSet(lay, s, i)| + |UnderSet(lay, Child(s, k.value))|
  {
    assert Under(s, s);
    SlotTreeSound(v, lay);
    SameKeyAt(o, SlotTreeOf(v, lay), s, i);
    SlotKey(v, lay, s, i);
    DoneGrows(v, lay, s, i);
  }

  lemma NothingLeft(v: Volume, lay: Layout, o: SlotTree, s: Path, i: nat, h: nat)
    requires Inv(v, lay) && Bounded(o, s, h) && SameUnder(o, SlotTreeOf(v, lay), s) && (i == SLOTS || h == 0)
    ensures |DoneSet(lay, s, i)| == |BelowSet(lay, s)|
  {
    if i == SLOTS {
      DoneEnd(lay, s);
    } else {
      forall c | c in lay.owner && Under(s, lay.owner[c])
        ensures lay.owner[c] == s
      {
        UnderDepth(s, lay.owner[c]);
      }
      assert BelowSet(lay, s) == {} && DoneSet(lay, s, i) == {};
    }
  }

  /** Copying to a place apart takes no more clusters than lie below the source, and exactly as
      many if the copy is exact. */
  lemma {:induction false} CopyCost(v: Volume, lay: Layout, o: SlotTree, s: Path, d: Path, i: nat, h: nat)
    requires Inv(v, lay) && SameUnder(o, SlotTreeOf(v, lay), s)
    requires Ready(o, s, d, h) && Apart(s, d) && 2 <= i <= SLOTS
    ensures |DoneSet(lay, s, i)| + CopyFrom(o, s, d, i, h).cost <= |BelowSet(lay, s)|
    ensures Fits(o, s, d, i) ==> |DoneSet(lay, s, i)| + CopyFrom(o, s, d, i, h).cost == |BelowSet(lay, s)|
    decreases h, SLOTS - i, 2
  {
    hide CopyFrom, Fits, DoneSet, BelowSet, UnderSet;
    if i == SLOTS || h == 0 {
      CopyEnds(o, s, d, i, h);
      NothingLeft(v, lay, o, s, i, h);
    } else {
      SlotCost(v, lay, o, s, i);
      var k := KeyAt(o, s, i);
      if k.None? {
        CopySkips(o, s, d, i, h);
        if Fits(o, s, d, i) {
          FitsSkip(o, s, d, i);
        }
        CopyCost(v, lay, o, s, d, i + 1, h);
      } else {
        CopyTakes(o, s, d, i, h, k.value);
        TakeCost(v, lay, o, s, d, i, k.value, h);
      }
    }
  }

  lemma {:induction false} TakeCost(v: Volume, lay: Layout, o: SlotTree, s: Path, d: Path, i: nat, k: Key, h: nat)
    requires Inv(v, lay) && SameUnder(o, SlotTreeOf(v, lay), s)
    requires Ready(o, s, d, h) && Apart(s, d) && h > 0 && 2 <= i < SLOTS
    requires Child(s, k) in o && o[Child(s, k)].slot == i
    ensures var entry := CopyEntry(o, s, d, i, k, h);
      var rest := CopyFrom(entry.tree, s, d, i + 1, h);
      && |DoneSet(lay, s, i + 1)| + rest.cost <= |BelowSet(lay, s)|
      && entry.cost <= |UnderSet(lay, Child(s, k))|
      && (Fits(o, s, d, i) ==>
            |DoneSet(lay, s, i + 1)| + rest.cost == |BelowSet(lay, s)| && entry.cost == |UnderSet(lay, Child(s, k))|)
    decreases h, SLOTS - i, 1
  {
    hide CopyFrom, CopyEntry, Inv, Sound, Fits, DoneSet, BelowSet, UnderSet;
    var o1 := CopyEntry(o, s, d, i, k, h).tree;
    EntryGrows(o, s, d, i, k, h);
    ApartGrown(o, o1, s, d, h);
    EntryCost(v, lay, o, s, d, i, k, h);
    if Fits(o, s, d, i) {
      EntryExact(o, s, d, i, k, h);
    }
    CopyCost(v, lay, o1, s, d, i + 1, h);
  }

  lemma {:induction false} EntryCost(v: Volume, lay: Layout, o: SlotTree, s: Path, d: Path, i: nat, k: Key, h: nat)
    requires Inv(v, lay) && SameUnder(o, SlotTreeOf(v, lay), s)
    requires Ready(o, s, d, h) && Apart(s, d) && h > 0 && 2 <= i < SLOTS
    requires Child(s, k) in o && o[Child(s, k)].slot == i
    ensures CopyEntry(o, s, d, i, k, h).cost <= |UnderSet(lay, Child(s, k))|
    ensures Fits(o, s, d, i) ==> CopyEntry(o, s, d, i, k, h).cost == |UnderSet(lay, Child(s, k))|
    decreases h, SLOTS - i, 0
  {
    hide CopyFrom, Sound, Fits, Put, UnderSet, BelowSet, Owned, TreeShaped;
    var a := Child(s, k);
    assert Under(s, a);
    PutEntrySound(o, s, d, k, h);
    var made := PutEntry(o, s, d, k);
    if Fits(o, s, d, i) {
      EntryPut(o, s, d, i, k);
    }
    if o[a].content.Document? {
      FileCost(v, lay, a);
    } else {
      FolderCost(lay, a);
      var c := FolderNamed(made.tree, d, k.name);
      if c.Some? {
        StillReady(o, made.tree, s, d, h);
        ApartGrown(o, made.tree, s, d, 1);
        NestedCost(v, lay, made.tree, s, d, k, c.value, h);
      }
    }
  }

  /** In an exact copy no entry is refused, and a folder is found where it was made. */
  lemma EntryPut(o: SlotTree, s: Path, d: Path, i: nat, k: Key)
    requires Sound(o) && IsDir(o, d) && Fits(o, s, d, i) && 2 <= i < SLOTS
    requires Child(s, k) in o && o[Child(s, k)].slot == i
    ensures var made := PutEntry(o, s, d, k);
      && made.cost == ClustersOf(o[Child(s, k)].content)
      && (o[Child(s, k)].content == Directory ==>
            var b := Child(d, BareAt(o, s, k));
            FolderNamed(made.tree, d, k.name) == Some(b) && Fits(made.tree, Child(s, k), b, 2))
  {
    if o[Child(s, k)].content == Directory {
      FitsMade(o, s, d, i, k);
    }
    FitsPut(o, s, d, i, k);
  }

  lemma {:induction false} NestedCost(v: Volume, lay: Layout, o: SlotTree, s: Path, d: Path, k: Key, c: Path, h: nat)
    requires Inv(v, lay) && SameUnder(o, SlotTreeOf(v, lay), s)
    requires Ready(o, s, d, h) && Apart(s, d) && h > 0
    requires IsDir(o, Child(s, k)) && IsDir(o, c) && c.Child? && c.parent == d
    ensures CopyFrom(o, Child(s, k), c, 2, h - 1).cost <= |BelowSet(lay, Child(s, k))|
    ensures Fits(o, Child(s, k), c, 2) ==> CopyFrom(o, Child(s, k), c, 2, h - 1).cost == |BelowSet(lay, Child(s, k))|
    decreases h - 1, SLOTS, 3
  {
    var a := Child(s, k);
    assert Under(s, a) && Under(d, c);
    NestedIsReady(o, s, d, k, c, h);
    ApartChildren(s, d, a, c);
    forall q | Under(a, q)
      ensures Under(s, q)
    {
      UnderTransitive(s, a, q);
    }
    DoneStart(lay, a);
    CopyCost(v, lay, o, a, c, 2, h - 1);
  }

  // ---- the finished copy --------------------------------------------------------------------

  /** What a finished copy of the contents of `s` into `d` has done to the tree: everything stays,
      what is new lies below `d`, and a copy into an empty folder makes the two subtrees equal
      exactly when no folder below `s` has an extension. With extensions, it repeats every entry under
      its key without them, if no two entries of a folder get the same key. */
  ghost predicate CopyResult(t: Tree, t': Tree, s: Path, d: Path) {
    && (forall p :: p in t ==> p in t' && t'[p] == t[p])
    && (forall p :: p in t' && p !in t ==> Under(d, p) && p != d)
    && ((forall k :: Child(d, k) !in t) ==>
          && (BareDistinct(t, s) ==> IsImage(t, t', s, d))
          && (PlainBelow(t, s) ==> IsGraft(t, t', s, d))
          && (Subtree(t', d) == Subtree(t, s) <==> PlainBelow(t, s)))
  }

  lemma CopyOutcome(o: SlotTree, s: Path, d: Path, h: nat)
    requires Ready(o, s, d, h)
    ensures CopyResult(Contents(o), Contents(CopyFrom(o, s, d, 2, h).tree), s, d)
  {
    hide CopyFrom, Bounded, Subtree, IsGraft, IsImage, BareDistinct, PlainBelow, Sound, IsDir;
    CopyGrows(o, s, d, 2, h);
    if forall k :: Child(d, k) !in Contents(o) {
      IntoEmpty(o, CopyFrom(o, s, d, 2, h).tree, s, d, h);
    }
  }

  lemma IntoEmpty(o: SlotTree, o': SlotTree, s: Path, d: Path, h: nat)
    requires Ready(o, s, d, h) && o' == CopyFrom(o, s, d, 2, h).tree && Grown(o, o', d, h)
    requires forall k :: Child(d, k) !in Contents(o)
    ensures BareDistinct(Contents(o), s) ==> IsImage(Contents(o), Contents(o'), s, d)
    ensures PlainBelow(Contents(o), s) ==> IsGraft(Contents(o), Contents(o'), s, d)
    ensures Subtree(Contents(o'), d) == Subtree(Contents(o), s) <==> PlainBelow(Contents(o), s)
  {
    hide CopyFrom, Bounded, Subtree, IsGraft, IsImage, BareDistinct, PlainBelow;
    forall k
      ensures Child(d, k) !in o
    {
      assert Child(d, k) !in Contents(o);
    }
    NothingBelow(o, d);
    if s == d {
      ChildlessCopy(o, s, d, 2, h);
      OntoItself(o, s);
    } else {
      IntoOther(o, o', s, d, h);
    }
  }

  lemma OntoItself(o: SlotTree, s: Path)
    requires forall q :: q in o && Under(s, q) ==> q == s
    ensures PlainBelow(Contents(o), s) && IsGraft(Contents(o), Contents(o), s, s)
    ensures IsImage(Contents(o), Contents(o), s, s)
  {
  }

  lemma IntoOther(o: SlotTree, o': SlotTree, s: Path, d: Path, h: nat)
    requires Ready(o, s, d, h) && s != d && o' == CopyFrom(o, s, d, 2, h).tree && Grown(o, o', d, h)
    requires forall q :: q in o && Under(d, q) ==> q == d
    ensures BareDistinct(Contents(o), s) ==> IsImage(Contents(o), Contents(o'), s, d)
    ensures PlainBelow(Contents(o), s) ==> IsGraft(Contents(o), Contents(o'), s, d)
    ensures Subtree(Contents(o'), d) == Subtree(Contents(o), s) <==> PlainBelow(Contents(o), s)
  {
    hide CopyFrom, Bounded, IsImage, BareDistinct, PlainBelow, Subtree, IsGraft;
    assert Apart(s, d);
    if PlainBelow(Contents(o), s) {
      PlainDistinct(Contents(o), s);
    }
    if BareDistinct(Contents(o), s) {
      forall k
        ensures Child(d, k) !in o
      {
        assert Under(d, Child(d, k));
      }
      CopyExact(o, s, d, 2, h);
      RepeatedIsImage(o, o', s, d);
    }
    if PlainBelow(Contents(o), s) {
      PlainIsGraft(Contents(o), Contents(o'), s, d);
      GraftSubtree(Contents(o), Contents(o'), s, d);
    } else {
      NotPlainNotEqual(o, o', s, d, h);
    }
  }

  /** All slots repeated: everything is. */
  lemma RepeatedIsImage(o: SlotTree, o': SlotTree, s: Path, d: Path)
    requires Sound(o) && Repeated(o, o', s, d, 2)
    ensures IsImage(Contents(o), Contents(o'), s, d)
  {
    forall q | q in o && Under(s, q) && q != s
      ensures Image(Contents(o), q, s, d) in o' && o'[Image(Contents(o), q, s, d)].content == o[q].content
    {
      StepInOrder(o, s, q);
      assert Child(s, Step(s, q).key) in o;
      assert Mirrored(o, o', s, d, q);
    }
    forall r | r in o' && r !in o
      ensures exists q :: q in Contents(o) && Under(s, q) && q != s && Image(Contents(o), q, s, d) == r
    {
      assert StemsAhead(o, s, d, 2, r);
      var q :| ImageOf(o, s, d, q, r) && Ahead(o, s, 2, q);
      assert q in Contents(o) && Image(Contents(o), q, s, d) == r;
    }
  }

  /** A copy that contains a folder with an extension is not the source's tree again. */
  lemma NotPlainNotEqual(o: SlotTree, o': SlotTree, s: Path, d: Path, h: nat)
    requires Grown(o, o', d, h) && (forall q :: q in o && Under(d, q) ==> q == d) && !PlainBelow(Contents(o), s)
    ensures Subtree(Contents(o'), d) != Subtree(Contents(o), s)
  {
    var t, t' := Contents(o), Contents(o');
    var q :| q in t && Under(s, q) && q != s && t[q] == Directory && q.key.ext != NO_EXT;
    var r := Rebase(q, s, Root);
    RebaseBack(q, s, Root);
    UnderRoot(r);
    SubtreeIn(t, s, r);
    SubtreeIn(t', d, r);
    if r in Subtree(t', d) {
      UnderDepth(s, q);
      assert Rebase(r, Root, d) != d && Rebase(r, Root, d).key == q.key;
    }
  }

  /** Nothing at all lies below a folder without children. */
  lemma NothingBelow(o: SlotTree, d: Path)
    requires Sound(o) && forall k :: Child(d, k) !in o
    ensures forall q :: q in o && Under(d, q) ==> q == d
  {
    forall q | q in o && Under(d, q) && q != d
      ensures false
    {
      assert Step(d, q) == Child(d, Step(d, q).key);
      StepInOrder(o, d, q);
    }
  }

  /** From a folder without children there is nothing to copy. */
  lemma {:induction false} ChildlessCopy(o: SlotTree, s: Path, d: Path, i: nat, h: nat)
    requires forall k :: Child(s, k) !in o
    ensures CopyFrom(o, s, d, i, h) == Copied(o, 0)
    decreases SLOTS - i
  {
    if h > 0 && i < SLOTS {
      ChildlessCopy(o, s, d, i + 1, h);
    }
  }

  // ---- the limit ----------------------------------------------------------------------------

  /** Depth of the deepest of these paths. */
  ghost function DeepestOf(s: set<Path>): (h: nat)
    ensures forall q :: q in s ==> Depth(q) <= h
  {
    if s == {} then 0
    else
      var q :| q in s;
      var rest := DeepestOf(s - {q});
      if Depth(q) <= rest then rest else Depth(q)
  }

  /** A limit that no copy within this tree reaches. */
  ghost function Deepest(o: SlotTree): nat {
    DeepestOf(o.Keys)
  }

  lemma DeepestBounds(o: SlotTree, s: Path)
    ensures Bounded(o, s, Deepest(o))
  {
    forall q {:trigger Under(s, q)} | q in o && Under(s, q)
      ensures Depth(q) <= Depth(s) + Deepest(o)
    {
      assert q in o.Keys;
    }
  }

  /** Where a limit is wide enough, a wider one changes nothing. */
  lemma {:induction false} LimitUnseen(o: SlotTree, s: Path, d: Path, i: nat, h: nat, h': nat)
    requires Ready(o, s, d, h) && h <= h'
    ensures CopyFrom(o, s, d, i, h) == CopyFrom(o, s, d, i, h')
    decreases h, SLOTS - i, 1
  {
    hide CopyFrom, CopyEntry, Sound, IsDir, Inside, Bounded;
    if i >= SLOTS {
      CopyEnds(o, s, d, i, h);
      CopyEnds(o, s, d, i, h');
    } else if h == 0 {
      NoneWithin(o, s);
      ChildlessCopy(o, s, d, i, h);
      ChildlessCopy(o, s, d, i, h');
    } else {
      var k := KeyAt(o, s, i);
      if k.None? {
        CopySkips(o, s, d, i, h);
        CopySkips(o, s, d, i, h');
        LimitUnseen(o, s, d, i + 1, h, h');
      } else {
        CopyTakes(o, s, d, i, h, k.value);
        CopyTakes(o, s, d, i, h', k.value);
        EntryGrows(o, s, d, i, k.value, h);
        EntryUnseen(o, s, d, i, k.value, h, h');
        LimitUnseen(CopyEntry(o, s, d, i, k.value, h).tree, s, d, i + 1, h, h');
      }
    }
  }

  lemma NoneWithin(o: SlotTree, s: Path)
    requires Bounded(o, s, 0)
    ensures forall k :: Child(s, k) !in o
  {
    forall k
      ensures Child(s, k) !in o
    {
      assert Under(s, Child(s, k));
    }
  }

  lemma {:induction false} EntryUnseen(o: SlotTree, s: Path, d: Path, i: nat, k: Key, h: nat, h': nat)
    requires Ready(o, s, d, h) && 0 < h <= h' && Child(s, k) in o
    ensures CopyEntry(o, s, d, i, k, h) == CopyEntry(o, s, d, i, k, h')
    decreases h, SLOTS - i, 0
  {
    hide CopyFrom, Put, Sound, Bounded;
    PutEntrySound(o, s, d, k, h);
    var made := PutEntry(o, s, d, k);
    var c := FolderNamed(made.tree, d, k.name);
    if o[Child(s, k)].content == Directory && c.Some? {
      StillReady(o, made.tree, s, d, h);
      NestedIsReady(made.tree, s, d, k, c.value, h);
      LimitUnseen(made.tree, Child(s, k), c.value, 2, h - 1, h' - 1);
    }
  }
}
