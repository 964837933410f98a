/** Building and tearing down the address space of a process. */
module AddressSpaces {
  import opened Codec
  import opened Paging

  const MAX_PROCESS_FRAMES: nat := 8

  /** Maps `n` pages from `address` on, one frame after the other. */
  function Mapped(m: Memory, d: nat, address: uint32, n: nat): (m': Memory)
    requires Formed(m) && d < DIRECTORIES
    ensures Formed(m')
  {
    if n == 0 then m else
      var before := Mapped(m, d, address, n - 1);
      AllocatedFormed(before, d, PagesOn(address, n - 1));
      Allocated(before, d, PagesOn(address, n - 1))
  }

  /** A new directory with `n` pages mapped from `address` on. */
  function NewSpace(m: Memory, address: uint32, n: nat): (m': Memory)
    requires Formed(m) && FirstUnused(m.used) < DIRECTORIES
    ensures Formed(m')
  {
    Mapped(WithDirectory(m), FirstUnused(m.used), address, n)
  }

  /** Mapping pages touches their slots in one directory and nothing else. */
  lemma {:induction false} MappedKeeps(m: Memory, d: nat, address: uint32, n: nat)
    requires Formed(m) && d < DIRECTORIES && PageIndex(address) + n < ENTRIES
    ensures var m' := Mapped(m, d, address, n);
      && m'.used == m.used
      && (forall d2 :: 0 <= d2 < DIRECTORIES && d2 != d ==> m'.dirs[d2] == m.dirs[d2])
      && (forall j :: 0 <= j < ENTRIES && !(PageIndex(address) <= j < PageIndex(address) + n) ==> m'.dirs[d][j] == m.dirs[d][j])
  {
    if n > 0 {
      MappedKeeps(m, d, address, n - 1);
      PagesOnIndex(address, n - 1);
    }
  }

  /** With enough free frames a run of allocations stays sound and takes one frame a page. */
  lemma {:induction false} MappedSound(m: Memory, d: nat, address: uint32, n: nat)
    requires Sound(m) && d < DIRECTORIES && m.used[d] && n <= m.free
    requires PageIndex(address) + n <= KERNEL_SLOT
    requires forall j :: PageIndex(address) <= j < PageIndex(address) + n ==> !m.dirs[d][j].user
    ensures Sound(Mapped(m, d, address, n)) && Mapped(m, d, address, n).free == m.free - n
  {
    if n > 0 {
      MappedSound(m, d, address, n - 1);
      NextPage(m, d, address, n - 1);
    }
  }

  lemma NextPage(m: Memory, d: nat, address: uint32, n: nat)
    requires Formed(m) && d < DIRECTORIES && m.used[d] && PageIndex(address) + n < KERNEL_SLOT
    requires !m.dirs[d][PageIndex(address) + n].user
    requires Sound(Mapped(m, d, address, n)) && Mapped(m, d, address, n).free > 0
    ensures Sound(Mapped(m, d, address, n + 1))
    ensures Mapped(m, d, address, n + 1).free == Mapped(m, d, address, n).free - 1
  {
    MappedKeeps(m, d, address, n);
    PagesOnIndex(address, n);
    AllocateSound(Mapped(m, d, address, n), d, PagesOn(address, n));
  }

  /** With an exact counter that is high enough, every allocation of the run finds a frame, and
      the counter stays exact, wherever the pages lie and whatever their slots held. */
  lemma {:induction false} AllSucceed(m: Memory, d: nat, address: uint32, n: nat)
    requires Formed(m) && d < DIRECTORIES && m.free == Unused(m.frames) && n <= m.free
    ensures var m' := Mapped(m, d, address, n); m'.free == Unused(m'.frames) == m.free - n
    ensures forall k :: 0 <= k < n ==> FirstUnused(Mapped(m, d, address, k).frames) < FRAMES
  {
    hide Unused, FirstUnused, Formed, Allocated;
    if n > 0 {
      AllSucceed(m, d, address, n - 1);
      AllocatedCount(Mapped(m, d, address, n - 1), d, PagesOn(address, n - 1));
    }
  }

  /** An allocation with an exact counter that is not zero finds a frame and keeps it exact. */
  lemma AllocatedCount(m: Memory, d: nat, address: uint32)
    requires Formed(m) && d < DIRECTORIES && m.free == Unused(m.frames) && m.free > 0
    ensures FirstUnused(m.frames) < FRAMES
    ensures var m' := Allocated(m, d, address); m'.free == Unused(m'.frames) == m.free - 1
  {
    UnusedNone(m.frames);
    UnusedSet(m.frames, FirstUnused(m.frames), true);
  }

  /** An allocation that finds a frame maps it in one slot, and later ones find higher frames. */
  lemma AllocatedEntry(m: Memory, d: nat, address: uint32)
    requires Formed(m) && d < DIRECTORIES && FirstUnused(m.frames) < FRAMES
    ensures var f, j, m' := FirstUnused(m.frames), PageIndex(address), Allocated(m, d, address);
      && Formed(m') && f < FirstUnused(m'.frames)
      && m'.dirs[d] == m.dirs[d][j := Entry(true, true, true, true, f)]
  {
    AllocatedFormed(m, d, address);
  }

  /** Each page got a frame for its process, which can read and write it, in the order of the
      frames. */
  lemma {:induction false} MappedUser(m: Memory, d: nat, address: uint32, n: nat)
    requires Formed(m) && d < DIRECTORIES && PageIndex(address) + n < ENTRIES
    requires forall k :: 0 <= k < n ==> FirstUnused(Mapped(m, d, address, k).frames) < FRAMES
    ensures forall j :: PageIndex(address) <= j < PageIndex(address) + n ==>
              var m' := Mapped(m, d, address, n); var e := m'.dirs[d][j];
              e.present && e.write && e.user && e.big && e.lowerAddress < FirstUnused(m'.frames) && m'.frames[e.lowerAddress]
    ensures forall i, j :: PageIndex(address) <= i < j < PageIndex(address) + n ==>
              Mapped(m, d, address, n).dirs[d][i].lowerAddress < Mapped(m, d, address, n).dirs[d][j].lowerAddress
  {
    hide Allocated, PageIndex;
    if n > 0 {
      MappedUser(m, d, address, n - 1);
      PagesOnIndex(address, n - 1);
      assert FirstUnused(Mapped(m, d, address, n - 1).frames) < FRAMES;
      AllocatedEntry(Mapped(m, d, address, n - 1), d, PagesOn(address, n - 1));
    }
  }

  /** The pages start at address 0 and there is at least one of them. */
  predicate CoversSlotZero(address: uint32, n: nat) {
    PageIndex(address) == 0 && n >= 1
  }

  /** A new address space leaves memory isolated exactly when its pages cover slot 0, where the
      directory comes with a mapping of frame 0. */
  lemma NewSpaceIsolated(m: Memory, address: uint32, n: nat)
    requires Isolated(m) && FirstUnused(m.used) < DIRECTORIES
    requires n <= m.free && n <= MAX_PROCESS_FRAMES && PageIndex(address) < KERNEL_SLOT
    ensures Isolated(NewSpace(m, address, n)) <==> CoversSlotZero(address, n)
    ensures NewSpace(m, address, n).used == m.used[FirstUnused(m.used) := true]
    ensures forall d :: 0 <= d < DIRECTORIES && d != FirstUnused(m.used) ==>
              NewSpace(m, address, n).dirs[d] == m.dirs[d]
  {
    var d, m' := FirstUnused(m.used), NewSpace(m, address, n);
    WithDirectorySound(m);
    MappedKeeps(WithDirectory(m), d, address, n);
    if CoversSlotZero(address, n) {
      MappedSound(WithDirectory(m), d, address, n);
      AllSucceed(WithDirectory(m), d, address, n);
      MappedUser(WithDirectory(m), d, address, n);
      forall d2 | 0 <= d2 < DIRECTORIES && m'.used[d2] && d2 != d
        ensures OnlyUser(m'.dirs[d2])
      {
        assert m.used[d2];
      }
    } else {
      PresetStays(m, address, n);
      assert !OnlyUser(m'.dirs[d]);
    }
  }

  /** It takes one frame a page. */
  lemma NewSpaceFree(m: Memory, address: uint32, n: nat)
    requires Isolated(m) && FirstUnused(m.used) < DIRECTORIES
    requires n <= m.free && n <= MAX_PROCESS_FRAMES && CoversSlotZero(address, n)
    ensures NewSpace(m, address, n).free == m.free - n
  {
    WithDirectorySound(m);
    MappedSound(WithDirectory(m), FirstUnused(m.used), address, n);
  }

  lemma PresetStays(m: Memory, address: uint32, n: nat)
    requires Sound(m) && FirstUnused(m.used) < DIRECTORIES
    requires n <= MAX_PROCESS_FRAMES && PageIndex(address) < KERNEL_SLOT && !CoversSlotZero(address, n)
    ensures NewSpace(m, address, n).dirs[FirstUnused(m.used)][0] == KERNEL_ENTRY
  {
    var d := FirstUnused(m.used);
    WithDirectorySound(m);
    MappedKeeps(WithDirectory(m), d, address, n);
  }

  /** Building an address space and releasing it gives back every frame, the counter, and the
      directory as it was. */
  lemma ReleaseUndoesNewSpace(m: Memory, address: uint32, n: nat)
    requires Isolated(m) && FirstUnused(m.used) < DIRECTORIES
    requires n <= m.free && n <= MAX_PROCESS_FRAMES && CoversSlotZero(address, n)
    ensures Released(NewSpace(m, address, n), FirstUnused(m.used)) == m
  {
    var d, m1 := FirstUnused(m.used), NewSpace(m, address, n);
    var m2 := Released(m1, d);
    NewSpaceIsolated(m, address, n);
    ReleaseShape(m1, d);
    forall d2 | 0 <= d2 < DIRECTORIES
      ensures m2.dirs[d2] == m.dirs[d2]
    {
      if d2 == d {
        assert forall j :: 0 <= j < ENTRIES ==> m2.dirs[d][j] == m.dirs[d][j];
      }
    }
    forall f: nat | f < FRAMES
      ensures m2.frames[f] == m.frames[f]
    {
      FramesReturn(m, address, n, f);
    }
    assert m2.frames == m.frames && m2.dirs == m.dirs && m2.used == m.used;
  }

  lemma FramesReturn(m: Memory, address: uint32, n: nat, f: nat)
    requires Isolated(m) && FirstUnused(m.used) < DIRECTORIES && f < FRAMES
    requires n <= m.free && n <= MAX_PROCESS_FRAMES && CoversSlotZero(address, n)
    ensures var m1 := NewSpace(m, address, n);
      m.frames[f] <==> m1.frames[f] && !MappedBefore(m1.dirs[FirstUnused(m.used)], ENTRIES, f)
  {
    var d, m1 := FirstUnused(m.used), NewSpace(m, address, n);
    NewSpaceIsolated(m, address, n);
    if MappedBefore(m1.dirs[d], ENTRIES, f) {
      MappedIsClaimed(m1, d, f);
    }
    if m.frames[f] && f != 0 {
      var d2: nat, j: nat :| Claims(m, d2, j) && m.dirs[d2][j].lowerAddress == f;
      OldClaims(m, address, n, d2, j);
    }
    if m1.frames[f] && f != 0 {
      var d2: nat, j: nat :| Claims(m1, d2, j) && m1.dirs[d2][j].lowerAddress == f;
      if d2 == d {
        assert MappedBefore(m1.dirs[d], ENTRIES, f);
      } else {
        OldClaims(m, address, n, d2, j);
      }
    }
  }

  lemma OldClaims(m: Memory, address: uint32, n: nat, d: nat, j: nat)
    requires Isolated(m) && FirstUnused(m.used) < DIRECTORIES
    requires n <= m.free && n <= MAX_PROCESS_FRAMES && CoversSlotZero(address, n)
    ensures Claims(m, d, j) <==> d != FirstUnused(m.used) && Claims(NewSpace(m, address, n), d, j)
    ensures Claims(m, d, j) ==> NewSpace(m, address, n).dirs[d][j] == m.dirs[d][j]
  {
    NewSpaceIsolated(m, address, n);
  }

  /** If the pages do not cover slot 0, releasing the address space hands out the kernel's own
      frame. */
  lemma KernelFrameLost(m: Memory, address: uint32, n: nat)
    requires Isolated(m) && FirstUnused(m.used) < DIRECTORIES
    requires n <= MAX_PROCESS_FRAMES && PageIndex(address) < KERNEL_SLOT && !CoversSlotZero(address, n)
    ensures !Released(NewSpace(m, address, n), FirstUnused(m.used)).frames[0]
    ensures FirstUnused(Released(NewSpace(m, address, n), FirstUnused(m.used)).frames) == 0
  {
    var d, m1 := FirstUnused(m.used), NewSpace(m, address, n);
    PresetStays(m, address, n);
    ClearedShape(m1.(used := m1.used[d := false]), d, ENTRIES);
    assert MappedBefore(m1.dirs[d], ENTRIES, 0);
  }
}
