/** The page manager and the directory pool, updated in place. */
module PageManagers {
  import opened Codec
  import opened Paging

  /** What a directory pointer points at. */
  datatype DirectoryAddress = NoDirectory | KernelDirectory | DirectoryAt(index: nat)

  /** Memory when the kernel starts: frame 0 is its own, no directory of the pool is in use. */
  function InitialMemory(): Memory {
    Memory(seq(FRAMES, i => i == 0), 31, seq(DIRECTORIES, _ => seq(ENTRIES, _ => NO_ENTRY)), seq(DIRECTORIES, _ => false))
  }

  lemma InitialIsolated()
    ensures Isolated(InitialMemory())
  {
    var m := InitialMemory();
    UnusedTail(m.frames, FRAMES);
    assert m.frames[..FRAMES] == m.frames;
  }

  lemma {:induction false} UnusedTail(s: seq<bool>, n: nat)
    requires 0 < n <= |s| && forall i :: 0 <= i < n ==> (s[i] <==> i == 0)
    ensures Unused(s[..n]) == n - 1
  {
    assert s[..n][..n - 1] == s[..n - 1];
    if n > 1 {
      UnusedTail(s, n - 1);
    }
  }

  class PageManager {
    const pageFrameMap: array<bool>
    var freePageFrameCount: uint32
    const pageDirectoryList: array<Directory>
    const pageDirectoryUsed: array<bool>
    /** The directory the processor translates addresses with. */
    var cr3: DirectoryAddress

    ghost function View(): Memory
      reads `freePageFrameCount, pageFrameMap, pageDirectoryList, pageDirectoryUsed
    {
      Memory(pageFrameMap[..], freePageFrameCount, pageDirectoryList[..], pageDirectoryUsed[..])
    }

    ghost predicate Valid()
      reads `freePageFrameCount, pageFrameMap, pageDirectoryList, pageDirectoryUsed
    {
      Formed(View()) && pageFrameMap != pageDirectoryUsed
    }

    constructor ()
      ensures Valid() && View() == InitialMemory() && cr3 == KernelDirectory
      ensures freePageFrameCount == 31 && forall f :: 0 <= f < FRAMES ==> (pageFrameMap[f] <==> f == 0)
      ensures forall d, j :: 0 <= d < DIRECTORIES && 0 <= j < ENTRIES ==>
                !pageDirectoryUsed[d] && pageDirectoryList[d][j] == Entry(false, false, false, false, 0)
      ensures fresh(pageFrameMap) && fresh(pageDirectoryList) && fresh(pageDirectoryUsed)
    {
      pageFrameMap := new bool[FRAMES](i => i == 0);
      freePageFrameCount := 31;
      pageDirectoryList := new Directory[DIRECTORIES](_ => seq(ENTRIES, _ => NO_ENTRY));
      pageDirectoryUsed := new bool[DIRECTORIES](_ => false);
      cr3 := KernelDirectory;
      new;
      assert pageFrameMap[..] == InitialMemory().frames;
      assert pageDirectoryList[..] == InitialMemory().dirs;
      assert pageDirectoryUsed[..] == InitialMemory().used;
    }

    /** Do the free frames hold `amount` bytes? Amounts above 0xFFC0_0000 always pass, because the
        rounding up wraps around. */
    method AllocateCheck(amount: uint32) returns (ok: bool)
      ensures ok <==> amount > 0xFFC0_0000 || amount <= 0x40_0000 * freePageFrameCount
    {
      RequiredFramesHold(amount, freePageFrameCount);
      var required := RequiredFrames(amount);
      ok := freePageFrameCount >= required;
    }

    /** Maps a user frame in a directory. */
    method UpdatePageDirectoryEntry(d: nat, frame: nat, virtualAddr: uint32)
      requires Formed(View()) && d < DIRECTORIES && frame < FRAMES
      modifies pageDirectoryList
      ensures pageDirectoryList[..] == old(pageDirectoryList[..])[d :=
                old(pageDirectoryList[d])[PageIndex(virtualAddr) := UserEntry(frame)]]
    {
      pageDirectoryList[d] := pageDirectoryList[d][PageIndex(virtualAddr) := UserEntry(frame)];
    }

    /** Hands the first free frame to a page; says whether there was one. The page can then be read
        and written by its process. */
    method AllocateUserPageFrame(d: nat, virtualAddr: uint32) returns (ok: bool)
      requires Valid() && d < DIRECTORIES
      modifies pageFrameMap, `freePageFrameCount, pageDirectoryList
      ensures Valid() && View() == Allocated(old(View()), d, virtualAddr)
      ensures ok <==> FirstUnused(old(pageFrameMap[..])) < FRAMES
      ensures ok <==> exists f :: 0 <= f < FRAMES && !old(pageFrameMap[f])
      ensures ok ==>
        var e := pageDirectoryList[d][virtualAddr / 0x40_0000];
        && e.present && e.write && e.user && e.big
        && e.lowerAddress < FRAMES && !old(pageFrameMap[..])[e.lowerAddress]
        && (forall f :: 0 <= f < e.lowerAddress ==> old(pageFrameMap[f]))
        && pageFrameMap[..] == old(pageFrameMap[..])[e.lowerAddress := true]
        && pageDirectoryList[..] == old(pageDirectoryList[..])[d := old(pageDirectoryList[d])[virtualAddr / 0x40_0000 := e]]
        && freePageFrameCount == (old(freePageFrameCount) + 0xFFFF_FFFF) % 0x1_0000_0000
      ensures !ok ==> View() == old(View())
    {
      AllocatedFormed(View(), d, virtualAddr);
      for i := 0 to FRAMES
        invariant View() == old(View()) && forall k :: 0 <= k < i ==> pageFrameMap[k]
      {
        if !pageFrameMap[i] {
          assert i == FirstUnused(pageFrameMap[..]);
          pageFrameMap[i] := true;
          freePageFrameCount := Decrement(freePageFrameCount);
          UpdatePageDirectoryEntry(d, i, virtualAddr);
          return true;
        }
      }
      return false;
    }

    /** Takes the frame of a page back; says whether the page was mapped. */
    method FreeUserPageFrame(d: nat, virtualAddr: uint32) returns (ok: bool)
      requires Valid() && d < DIRECTORIES
      modifies pageFrameMap, `freePageFrameCount, pageDirectoryList
      ensures Valid() && View() == Freed(old(View()), d, PageIndex(virtualAddr))
      ensures ok <==> old(pageDirectoryList[d][virtualAddr / 0x40_0000].present)
      ensures ok ==>
        var j := virtualAddr / 0x40_0000; var e := old(pageDirectoryList[d][j]);
        && pageFrameMap[..] == old(pageFrameMap[..])[e.lowerAddress := false]
        && pageDirectoryList[..] == old(pageDirectoryList[..])[d := old(pageDirectoryList[d])[j := Entry(false, false, false, false, 0)]]
        && freePageFrameCount == (old(freePageFrameCount) + 1) % 0x1_0000_0000
      ensures !ok ==> View() == old(View())
    {
      var j := PageIndex(virtualAddr);
      var e := pageDirectoryList[d][j];
      if !e.present {
        return false;
      }
      pageFrameMap[e.lowerAddress] := false;
      freePageFrameCount := Increment(freePageFrameCount);
      pageDirectoryList[d] := pageDirectoryList[d][j := NO_ENTRY];
      return true;
    }

    /** Takes the first unused directory, with the kernel's mappings in it. */
    method CreateNewPageDirectory() returns (dir: DirectoryAddress)
      requires Valid()
      modifies pageDirectoryList, pageDirectoryUsed
      ensures Valid() && View() == WithDirectory(old(View()))
      ensures var d := FirstUnused(old(pageDirectoryUsed[..]));
        dir == if d < DIRECTORIES then DirectoryAt(d) else NoDirectory
      ensures dir.NoDirectory? <==> forall d :: 0 <= d < DIRECTORIES ==> old(pageDirectoryUsed[d])
      ensures dir.NoDirectory? ==> View() == old(View())
      ensures !dir.NoDirectory? ==>
        && dir.DirectoryAt? && dir.index < DIRECTORIES && !old(pageDirectoryUsed[..])[dir.index]
        && (forall d :: 0 <= d < dir.index ==> old(pageDirectoryUsed[d]))
        && pageDirectoryUsed[..] == old(pageDirectoryUsed[..])[dir.index := true]
        && pageDirectoryList[dir.index][0x300] == Entry(true, true, false, true, 0)
        && pageDirectoryList[dir.index][0] == Entry(true, true, old(pageDirectoryList[..])[dir.index][0].user, true, 0)
        && (forall j :: 0 < j < ENTRIES && j != 0x300 ==>
              pageDirectoryList[dir.index][j] == old(pageDirectoryList[..])[dir.index][j])
        && pageDirectoryList[..] == old(pageDirectoryList[..])[dir.index := pageDirectoryList[dir.index]]
    {
      for i := 0 to DIRECTORIES
        invariant View() == old(View()) && forall k :: 0 <= k < i ==> pageDirectoryUsed[k]
      {
        if !pageDirectoryUsed[i] {
          assert i == FirstUnused(pageDirectoryUsed[..]);
          pageDirectoryUsed[i] := true;
          pageDirectoryList[i] := FreshDirectory(pageDirectoryList[i]);
          return DirectoryAt(i);
        }
      }
      return NoDirectory;
    }

    /** Releases a directory of the pool and all it maps; any other pointer is refused. */
    method FreePageDirectory(dir: DirectoryAddress) returns (ok: bool)
      requires Valid()
      modifies pageFrameMap, `freePageFrameCount, pageDirectoryList, pageDirectoryUsed
      ensures Valid() && (ok <==> dir.DirectoryAt? && dir.index < DIRECTORIES)
      ensures View() == if ok then Released(old(View()), dir.index) else old(View())
      ensures ok ==>
        var d, t := dir.index, old(pageDirectoryList[..])[dir.index];
        && pageDirectoryUsed[..] == old(pageDirectoryUsed[..])[d := false]
        && pageDirectoryList[..] == old(pageDirectoryList[..])[d := pageDirectoryList[d]]
        && (forall j :: 0 <= j < ENTRIES ==>
              pageDirectoryList[d][j] == if j == 0x300 || t[j].present then Entry(false, false, false, false, 0) else t[j])
        && (forall f :: 0 <= f < FRAMES ==>
              (pageFrameMap[f] <==> old(pageFrameMap[f])
                                    && !exists j :: 0 <= j < ENTRIES && j != 0x300 && t[j].present && t[j].lowerAddress == f))
    {
      for i := 0 to DIRECTORIES
        invariant Valid() && View() == old(View()) && !(dir.DirectoryAt? && dir.index < i)
      {
        if dir == DirectoryAt(i) {
          pageDirectoryUsed[i] := false;
          ClearEntries(i);
          ClearedShape(old(View()).(used := pageDirectoryUsed[..]), i, ENTRIES);
          return true;
        }
      }
      return false;
    }

    /** Clears the slots one by one. */
    method ClearEntries(d: nat)
      requires Valid() && d < DIRECTORIES
      modifies pageFrameMap, `freePageFrameCount, pageDirectoryList
      ensures Valid() && View() == Cleared(old(View()), d, ENTRIES)
    {
      ghost var m := View();
      for j := 0 to ENTRIES
        invariant Valid() && View() == Cleared(m, d, j)
      {
        if j == KERNEL_SLOT {
          pageDirectoryList[d] := pageDirectoryList[d][j := NO_ENTRY];
        } else if pageDirectoryList[d][j].present {
          var _ := FreeUserPageFrame(d, 0x40_0000 * j);
        }
      }
    }

    method UsePageDirectory(dir: DirectoryAddress)
      modifies `cr3
      ensures cr3 == dir
    {
      cr3 := dir;
    }
  }
}
