/** Physical page frames and page directories: which frame is in use, who maps it, and the
    operations that hand frames out and take them back. */
module Paging {
  import opened Codec

  const FRAMES: nat := 32
  const DIRECTORIES: nat := 32
  const ENTRIES: nat := 1024
  const KERNEL_SLOT: nat := 0x300

  /** A page directory entry; the four flags are the ones the kernel sets, `lowerAddress` the
      number of the frame. */
  datatype Entry = Entry(present: bool, write: bool, user: bool, big: bool, lowerAddress: nat)

  type Directory = seq<Entry>

  const NO_ENTRY: Entry := Entry(false, false, false, false, 0)
  const KERNEL_ENTRY: Entry := Entry(true, true, false, true, 0)

  function UserEntry(frame: nat): Entry {
    Entry(true, true, true, true, frame)
  }

  /** The state of the page manager and of the directory pool. */
  datatype Memory = Memory(frames: seq<bool>, free: uint32, dirs: seq<Directory>, used: seq<bool>)

  /** The tables have their sizes, and every entry that is present names a frame there is. */
  ghost predicate Formed(m: Memory) {
    && |m.frames| == FRAMES && |m.dirs| == DIRECTORIES && |m.used| == DIRECTORIES
    && (forall d :: 0 <= d < DIRECTORIES ==> |m.dirs[d]| == ENTRIES)
    && (forall d, j :: 0 <= d < DIRECTORIES && 0 <= j < ENTRIES && m.dirs[d][j].present ==> m.dirs[d][j].lowerAddress < FRAMES)
  }

  // ---- arithmetic on 32-bit words -----------------------------------------------------------

  function Increment(x: uint32): uint32 {
    (x + 1) % 0x1_0000_0000
  }

  function Decrement(x: uint32): uint32 {
    (x + 0xFFFF_FFFF) % 0x1_0000_0000
  }

  /** The frames for `amount` bytes; the rounding up wraps around for the largest amounts. */
  function RequiredFrames(amount: uint32): (n: nat)
    ensures n < ENTRIES
  {
    (amount + 0x3F_FFFF) % 0x1_0000_0000 / 0x40_0000
  }

  /** Up to 0xFFC0_0000 bytes the frames required are the least whose 4 MiB each hold the amount;
      above that the rounding up wraps around and no frame is required. So `n` frames pass for
      enough exactly when they hold the amount or it is above that bound. */
  lemma RequiredFramesHold(amount: uint32, n: nat)
    ensures amount <= 0xFFC0_0000 ==> 0x40_0000 * RequiredFrames(amount) >= amount > 0x40_0000 * (RequiredFrames(amount) - 1)
    ensures amount > 0xFFC0_0000 ==> RequiredFrames(amount) == 0
    ensures RequiredFrames(amount) <= n <==> amount > 0xFFC0_0000 || amount <= 0x40_0000 * n
  {
  }

  function PageIndex(address: uint32): (j: nat)
    ensures j < ENTRIES
  {
    address / 0x40_0000
  }

  /** The address `n` pages after `address`. */
  function PagesOn(address: uint32, n: nat): uint32 {
    (address + 0x40_0000 * n) % 0x1_0000_0000
  }

  lemma PagesOnIndex(address: uint32, n: nat)
    requires PageIndex(address) + n < ENTRIES
    ensures PageIndex(PagesOn(address, n)) == PageIndex(address) + n
  {
  }

  // ---- searching and counting ---------------------------------------------------------------

  /** The first position that is not in use; the length if there is none. */
  function FirstUnused(s: seq<bool>): (i: nat)
    ensures i <= |s| && (i < |s| ==> !s[i]) && forall k :: 0 <= k < i ==> s[k]
  {
    if s == [] || !s[0] then 0 else
      var i := FirstUnused(s[1..]);
      assert forall k :: 0 < k <= i ==> s[k] == s[1..][k - 1];
      i + 1
  }

  function Unused(s: seq<bool>): (n: nat)
    ensures n <= |s|
  {
    if s == [] then 0 else Unused(s[..|s| - 1]) + if s[|s| - 1] then 0 else 1
  }

  lemma {:induction false} UnusedSet(s: seq<bool>, i: nat, b: bool)
    requires i < |s|
    ensures Unused(s[i := b]) == Unused(s) + (if b then 0 else 1) - (if s[i] then 0 else 1)
  {
    var n := |s| - 1;
    if i == n {
      assert s[i := b][..n] == s[..n];
    } else {
      assert s[i := b][..n] == s[..n][i := b];
      UnusedSet(s[..n], i, b);
    }
  }

  lemma {:induction false} UnusedNone(s: seq<bool>)
    ensures Unused(s) == 0 <==> FirstUnused(s) == |s|
  {
    if s != [] {
      var n := |s| - 1;
      UnusedNone(s[..n]);
      if FirstUnused(s) == |s| {
        assert s[n] && forall k :: 0 <= k < n ==> s[..n][k];
      } else if FirstUnused(s) < n {
        assert !s[..n][FirstUnused(s)];
      }
    }
  }

  // ---- the operations, on states ------------------------------------------------------------

  /** Maps the first free frame at a virtual address; without a free frame nothing happens. */
  function Allocated(m: Memory, d: nat, address: uint32): (m': Memory)
    requires Formed(m) && d < DIRECTORIES
  {
    var i := FirstUnused(m.frames);
    if i == FRAMES then m
    else Memory(m.frames[i := true], Decrement(m.free), m.dirs[d := m.dirs[d][PageIndex(address) := UserEntry(i)]], m.used)
  }

  lemma AllocatedFormed(m: Memory, d: nat, address: uint32)
    requires Formed(m) && d < DIRECTORIES
    ensures Formed(Allocated(m, d, address))
  {
  }

  /** Takes back the frame mapped in slot `j`, if the slot is present. */
  function Freed(m: Memory, d: nat, j: nat): (m': Memory)
    requires Formed(m) && d < DIRECTORIES && j < ENTRIES
    ensures Formed(m')
  {
    var e := m.dirs[d][j];
    if !e.present then m
    else Memory(m.frames[e.lowerAddress := false], Increment(m.free), m.dirs[d := m.dirs[d][j := NO_ENTRY]], m.used)
  }

  /** Slot 0 of a new directory maps frame 0 for the kernel's use, and slot 0x300 does. */
  function FreshDirectory(t: Directory): Directory
    requires |t| == ENTRIES
  {
    t[0 := t[0].(present := true, write := true, big := true, lowerAddress := 0)][KERNEL_SLOT := KERNEL_ENTRY]
  }

  /** Takes the first unused directory into use; `FirstUnused(m.used)` tells which. */
  function WithDirectory(m: Memory): (m': Memory)
    requires Formed(m)
    ensures Formed(m')
  {
    var d := FirstUnused(m.used);
    if d == DIRECTORIES then m
    else m.(dirs := m.dirs[d := FreshDirectory(m.dirs[d])], used := m.used[d := true])
  }

  /** Clears the first `n` slots of a directory and takes their frames back, except for the
      kernel's slot, which is only cleared. */
  function Cleared(m: Memory, d: nat, n: nat): (m': Memory)
    requires Formed(m) && d < DIRECTORIES && n <= ENTRIES
    ensures Formed(m')
  {
    if n == 0 then m else
      var before := Cleared(m, d, n - 1);
      if n - 1 == KERNEL_SLOT then before.(dirs := before.dirs[d := before.dirs[d][n - 1 := NO_ENTRY]])
      else Freed(before, d, n - 1)
  }

  function Released(m: Memory, d: nat): (m': Memory)
    requires Formed(m) && d < DIRECTORIES
    ensures Formed(m')
  {
    Cleared(m.(used := m.used[d := false]), d, ENTRIES)
  }

  // ---- ownership ----------------------------------------------------------------------------

  /** A directory in use maps a frame for its process in slot `j`. */
  ghost predicate Claims(m: Memory, d: nat, j: nat)
    requires Formed(m)
  {
    d < DIRECTORIES && j < ENTRIES && m.used[d] && j != KERNEL_SLOT && m.dirs[d][j].present && m.dirs[d][j].user
  }

  ghost predicate Claimed(m: Memory, f: nat)
    requires Formed(m)
  {
    exists d: nat, j: nat :: Claims(m, d, j) && m.dirs[d][j].lowerAddress == f
  }

  /** The used frames are exactly frame 0, which no process has, and the frames that directories
      in use map, each mapped once. */
  ghost predicate OneOwner(m: Memory)
    requires Formed(m)
  {
    && m.frames[0]
    && (forall d: nat, j: nat :: Claims(m, d, j) ==> m.frames[m.dirs[d][j].lowerAddress] && m.dirs[d][j].lowerAddress != 0)
    && (forall d: nat, j: nat, d2: nat, j2: nat :: Claims(m, d, j) && Claims(m, d2, j2) ==>
          m.dirs[d][j].lowerAddress == m.dirs[d2][j2].lowerAddress ==> d == d2 && j == j2)
    && (forall f: nat :: 0 < f < FRAMES && m.frames[f] ==> Claimed(m, f))
  }

  /** A directory in use carries the kernel's entry, one that is not in use carries nothing, and
      a slot that is not present is clear. */
  ghost predicate Tidy(m: Memory)
    requires Formed(m)
  {
    && (forall d :: 0 <= d < DIRECTORIES ==> if m.used[d] then m.dirs[d][KERNEL_SLOT] == KERNEL_ENTRY else Blank(m.dirs[d]))
    && (forall d, j :: 0 <= d < DIRECTORIES && 0 <= j < ENTRIES && !m.dirs[d][j].present ==> m.dirs[d][j] == NO_ENTRY)
  }

  ghost predicate Sound(m: Memory) {
    Formed(m) && m.free == Unused(m.frames) && OneOwner(m) && Tidy(m)
  }

  ghost predicate Blank(t: Directory) {
    forall j :: 0 <= j < |t| ==> t[j] == NO_ENTRY
  }

  /** Apart from the kernel's slot, directory `d` maps nothing but frames of its process. */
  ghost predicate OnlyUser(t: Directory)
    requires |t| == ENTRIES
  {
    forall j :: 0 <= j < ENTRIES && j != KERNEL_SLOT && t[j].present ==> t[j].user
  }

  /** Sound, and frame 0 is mapped nowhere but in the kernel's slot. */
  ghost predicate Isolated(m: Memory) {
    Sound(m) && forall d :: 0 <= d < DIRECTORIES && m.used[d] ==> OnlyUser(m.dirs[d])
  }

  /** An allocation adds one claim and changes no other. */
  lemma AllocateClaims(m: Memory, d: nat, address: uint32, d2: nat, j2: nat)
    requires Formed(m) && d < DIRECTORIES && m.used[d] && FirstUnused(m.frames) < FRAMES
           && PageIndex(address) != KERNEL_SLOT
    ensures Formed(Allocated(m, d, address))
    ensures Claims(Allocated(m, d, address), d2, j2) <==> Claims(m, d2, j2) || (d2 == d && j2 == PageIndex(address))
    ensures d2 < DIRECTORIES && j2 < ENTRIES ==>
              Allocated(m, d, address).dirs[d2][j2] ==
              if d2 == d && j2 == PageIndex(address) then UserEntry(FirstUnused(m.frames)) else m.dirs[d2][j2]
  {
    AllocatedFormed(m, d, address);
  }

  /** A free frame is handed to a slot that holds none. */
  lemma AllocateSound(m: Memory, d: nat, address: uint32)
    requires Sound(m) && d < DIRECTORIES && m.used[d] && m.free > 0
    requires PageIndex(address) != KERNEL_SLOT && !m.dirs[d][PageIndex(address)].user
    ensures Sound(Allocated(m, d, address)) && Allocated(m, d, address).free == m.free - 1
    ensures FirstUnused(m.frames) < FRAMES
  {
    UnusedNone(m.frames);
    UnusedSet(m.frames, FirstUnused(m.frames), true);
    AllocatedFormed(m, d, address);
    AllocateOwner(m, d, address);
  }

  lemma AllocateOwner(m: Memory, d: nat, address: uint32)
    requires Formed(m) && OneOwner(m) && d < DIRECTORIES && m.used[d] && FirstUnused(m.frames) < FRAMES
    requires PageIndex(address) != KERNEL_SLOT && !m.dirs[d][PageIndex(address)].user
    ensures Formed(Allocated(m, d, address)) && OneOwner(Allocated(m, d, address))
  {
    var i, j, m' := FirstUnused(m.frames), PageIndex(address), Allocated(m, d, address);
    forall d2: nat, j2: nat
      ensures Formed(m') && (Claims(m', d2, j2) <==> Claims(m, d2, j2) || (d2 == d && j2 == j))
      ensures Claims(m', d2, j2) ==> m'.dirs[d2][j2] == if d2 == d && j2 == j then UserEntry(i) else m.dirs[d2][j2]
    {
      AllocateClaims(m, d, address, d2, j2);
    }
    forall f: nat | 0 < f < FRAMES && m'.frames[f]
      ensures Claimed(m', f)
    {
      AllocateClaimed(m, d, address, f);
    }
  }

  lemma AllocateClaimed(m: Memory, d: nat, address: uint32, f: nat)
    requires Formed(m) && OneOwner(m) && d < DIRECTORIES && m.used[d] && FirstUnused(m.frames) < FRAMES
    requires PageIndex(address) != KERNEL_SLOT && !m.dirs[d][PageIndex(address)].user
    requires 0 < f < FRAMES && Allocated(m, d, address).frames[f]
    ensures Formed(Allocated(m, d, address)) && Claimed(Allocated(m, d, address), f)
  {
    if f == FirstUnused(m.frames) {
      AllocateClaims(m, d, address, d, PageIndex(address));
    } else {
      var d2: nat, j2: nat :| Claims(m, d2, j2) && m.dirs[d2][j2].lowerAddress == f;
      AllocateClaims(m, d, address, d2, j2);
    }
  }

  lemma WithDirectorySound(m: Memory)
    requires Sound(m) && FirstUnused(m.used) < DIRECTORIES
    ensures Sound(WithDirectory(m))
    ensures var d := FirstUnused(m.used);
      WithDirectory(m).dirs[d] == FreshDirectory(m.dirs[d]) && forall j ::
              0 <= j < ENTRIES && j != 0 && j != KERNEL_SLOT ==> WithDirectory(m).dirs[d][j] == NO_ENTRY
  {
    var d, m' := FirstUnused(m.used), WithDirectory(m);
    forall d2: nat, j: nat
      ensures Claims(m', d2, j) <==> Claims(m, d2, j)
      ensures Claims(m, d2, j) ==> m'.dirs[d2][j] == m.dirs[d2][j]
    {
    }
    forall f: nat | 0 < f < FRAMES && m'.frames[f]
      ensures Claimed(m', f)
    {
      var d2: nat, j: nat :| Claims(m, d2, j) && m.dirs[d2][j].lowerAddress == f;
      assert Claims(m', d2, j);
    }
  }

  /** One of the first `n` slots maps frame `f`, the kernel's slot aside. */
  ghost predicate MappedBefore(t: Directory, n: nat, f: nat)
    requires n <= |t|
  {
    exists j :: 0 <= j < n && j != KERNEL_SLOT && t[j].present && t[j].lowerAddress == f
  }

  /** What clearing the first `n` slots does. */
  lemma {:induction false} ClearedShape(m: Memory, d: nat, n: nat)
    requires Formed(m) && d < DIRECTORIES && n <= ENTRIES
    ensures var c := Cleared(m, d, n);
      && c.used == m.used && (forall d2 :: 0 <= d2 < DIRECTORIES && d2 != d ==> c.dirs[d2] == m.dirs[d2])
      && (forall j :: 0 <= j < ENTRIES ==>
            c.dirs[d][j] == if j < n && (j == KERNEL_SLOT || m.dirs[d][j].present) then NO_ENTRY else m.dirs[d][j])
      && (forall f :: 0 <= f < FRAMES ==> (c.frames[f] <==> m.frames[f] && !MappedBefore(m.dirs[d], n, f)))
  {
    if n > 0 {
      ClearedShape(m, d, n - 1);
      var c, t := Cleared(m, d, n - 1), m.dirs[d];
      assert c.dirs[d][n - 1] == t[n - 1];
      forall f | 0 <= f < FRAMES
        ensures MappedBefore(t, n, f) <==>
                MappedBefore(t, n - 1, f) || (n - 1 != KERNEL_SLOT && t[n - 1].present && t[n - 1].lowerAddress == f)
      {
      }
    }
  }

  /** Every slot of the directory maps a used frame of its own. */
  ghost predicate OwnFrames(m: Memory, d: nat)
    requires Formed(m) && d < DIRECTORIES
  {
    && (forall j :: 0 <= j < ENTRIES && j != KERNEL_SLOT && m.dirs[d][j].present ==> m.frames[m.dirs[d][j].lowerAddress])
    && (forall j, k :: 0 <= j < k < ENTRIES && j != KERNEL_SLOT && k != KERNEL_SLOT ==>
          m.dirs[d][j].present && m.dirs[d][k].present ==> m.dirs[d][j].lowerAddress != m.dirs[d][k].lowerAddress)
  }

  lemma {:induction false} ClearedCount(m: Memory, d: nat, n: nat)
    requires Formed(m) && d < DIRECTORIES && n <= ENTRIES && OwnFrames(m, d) && m.free == Unused(m.frames)
    ensures Cleared(m, d, n).free == Unused(Cleared(m, d, n).frames)
  {
    if n > 0 {
      ClearedCount(m, d, n - 1);
      ClearedShape(m, d, n - 1);
      var c, e := Cleared(m, d, n - 1), m.dirs[d][n - 1];
      assert c.dirs[d][n - 1] == e;
      if n - 1 != KERNEL_SLOT && e.present {
        assert !MappedBefore(m.dirs[d], n - 1, e.lowerAddress);
        UnusedSet(c.frames, e.lowerAddress, false);
      }
    }
  }

  /** A release drops the claims of one directory and changes no other. */
  lemma ReleaseClaims(m: Memory, d: nat, d2: nat, j: nat)
    requires Isolated(m) && d < DIRECTORIES && m.used[d]
    ensures Claims(Released(m, d), d2, j) <==> d2 != d && Claims(m, d2, j)
    ensures Claims(Released(m, d), d2, j) ==> Released(m, d).dirs[d2][j] == m.dirs[d2][j]
  {
    ClearedShape(m.(used := m.used[d := false]), d, ENTRIES);
  }

  /** What a release does to directories and frames. */
  lemma ReleaseShape(m: Memory, d: nat)
    requires Isolated(m) && d < DIRECTORIES && m.used[d]
    ensures Blank(Released(m, d).dirs[d]) && Released(m, d).used == m.used[d := false]
    ensures forall d2 :: 0 <= d2 < DIRECTORIES && d2 != d ==> Released(m, d).dirs[d2] == m.dirs[d2]
    ensures forall f :: 0 <= f < FRAMES ==>
              (Released(m, d).frames[f] <==> m.frames[f] && !MappedBefore(m.dirs[d], ENTRIES, f))
    ensures Released(m, d).free == Unused(Released(m, d).frames)
  {
    var m0 := m.(used := m.used[d := false]);
    ClearedShape(m0, d, ENTRIES);
    DirectoryOwns(m, d);
    ClearedCount(m0, d, ENTRIES);
  }

  lemma ReleaseOwner(m: Memory, d: nat)
    requires Isolated(m) && d < DIRECTORIES && m.used[d]
    ensures OneOwner(Released(m, d))
  {
    var m' := Released(m, d);
    ReleaseShape(m, d);
    forall d2: nat, j: nat
      ensures Claims(m', d2, j) <==> d2 != d && Claims(m, d2, j)
      ensures Claims(m', d2, j) ==>
                m'.dirs[d2][j] == m.dirs[d2][j] && !MappedBefore(m.dirs[d], ENTRIES, m.dirs[d2][j].lowerAddress)
    {
      ReleaseClaims(m, d, d2, j);
      if Claims(m', d2, j) && MappedBefore(m.dirs[d], ENTRIES, m.dirs[d2][j].lowerAddress) {
        MappedIsClaimed(m, d, m.dirs[d2][j].lowerAddress);
      }
    }
    ZeroNotMapped(m, d);
    forall j: nat | Claims(m, d, j)
      ensures MappedBefore(m.dirs[d], ENTRIES, m.dirs[d][j].lowerAddress)
    {
    }
    forall f: nat | 0 < f < FRAMES && m'.frames[f]
      ensures Claimed(m', f)
    {
      var d2: nat, j: nat :| Claims(m, d2, j) && m.dirs[d2][j].lowerAddress == f;
      assert d2 != d;
      assert Claims(m', d2, j);
    }
  }

  lemma ZeroNotMapped(m: Memory, d: nat)
    requires Isolated(m) && d < DIRECTORIES && m.used[d]
    ensures !MappedBefore(m.dirs[d], ENTRIES, 0)
  {
    forall j: nat | j < ENTRIES && j != KERNEL_SLOT && m.dirs[d][j].present
      ensures m.dirs[d][j].lowerAddress != 0
    {
      assert Claims(m, d, j);
    }
  }

  /** Whatever an isolated directory maps is a claim of its own. */
  lemma MappedIsClaimed(m: Memory, d: nat, f: nat)
    requires Isolated(m) && d < DIRECTORIES && m.used[d] && MappedBefore(m.dirs[d], ENTRIES, f)
    ensures f != 0 && forall d2: nat, j: nat :: Claims(m, d2, j) && m.dirs[d2][j].lowerAddress == f ==> d2 == d
  {
    var j: nat :| j < ENTRIES && j != KERNEL_SLOT && m.dirs[d][j].present && m.dirs[d][j].lowerAddress == f;
    assert Claims(m, d, j);
  }

  /** Releasing a directory keeps isolation. */
  lemma ReleaseIsolated(m: Memory, d: nat)
    requires Isolated(m) && d < DIRECTORIES && m.used[d]
    ensures Isolated(Released(m, d))
  {
    ReleaseShape(m, d);
    ReleaseOwner(m, d);
  }

  lemma DirectoryOwns(m: Memory, d: nat)
    requires Isolated(m) && d < DIRECTORIES && m.used[d]
    ensures OwnFrames(m.(used := m.used[d := false]), d)
  {
    forall j: nat | j < ENTRIES && j != KERNEL_SLOT && m.dirs[d][j].present
      ensures Claims(m, d, j)
    {
    }
  }
}
