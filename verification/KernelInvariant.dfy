/** What every timer interrupt, creation and destruction keeps. */
module KernelInvariant {
  import opened Codec
  import opened Options
  import opened Paging
  import opened AddressSpaces
  import opened PageManagers
  import opened Processes

  /** Slot `p` of the process table. A used slot holds a ready or running process that knows its
      own pid and has a directory in use; an unused slot is all zeros. */
  ghost predicate PcbOk(k: Kernel, p: nat)
    requires Shaped(k) && p < PROCESSES
  {
    var b := k.pcbs[p];
    if k.pidUsed[p] then
      && b.pid == p && (b.state == READY || b.state == RUNNING)
      && Pooled(b.context.dir) && k.mem.used[b.context.dir.index]
    else
      b == ZERO_PCB
  }

  /** At most one process runs, in the directory the processor uses. */
  ghost predicate OneRuns(k: Kernel)
    requires Shaped(k)
  {
    && (forall p, q :: 0 <= p < q < PROCESSES ==> k.pcbs[p].state != RUNNING || k.pcbs[q].state != RUNNING)
    && (forall p :: 0 <= p < PROCESSES && k.pcbs[p].state == RUNNING ==> k.cr3 == k.pcbs[p].context.dir)
  }

  /** No two processes share a directory. */
  ghost predicate OwnDirectories(k: Kernel)
    requires Shaped(k)
  {
    forall p, q :: 0 <= p < q < PROCESSES && k.pidUsed[p] && k.pidUsed[q] ==>
              k.pcbs[p].context.dir != k.pcbs[q].context.dir
  }

  ghost predicate TableOk(k: Kernel)
    requires Shaped(k)
  {
    (forall p :: 0 <= p < PROCESSES ==> PcbOk(k, p)) && OneRuns(k) && OwnDirectories(k)
  }

  ghost predicate Inv(k: Kernel) {
    Shaped(k) && Isolated(k.mem) && TableOk(k)
  }

  function InitialKernel(): Kernel {
    Kernel(InitialMemory(), seq(PROCESSES, _ => ZERO_PCB), seq(PROCESSES, _ => false), 0, KernelDirectory, None)
  }

  lemma InitialInv()
    ensures Inv(InitialKernel())
  {
    InitialIsolated();
    var k := InitialKernel();
    AllUnused(k.pidUsed);
  }

  lemma {:induction false} AllUnused(s: seq<bool>)
    requires forall i :: 0 <= i < |s| ==> !s[i]
    ensures Unused(s) == |s|
  {
    if s != [] {
      AllUnused(s[..|s| - 1]);
    }
  }

  // ---- creation -----------------------------------------------------------------------------

  /** A request that gets as far as building an address space. */
  predicate Builds(k: Kernel, program: Program, readCode: int)
    requires Formed(k.mem)
  {
    var code := CreateCode(k, program, readCode); code == 0 || code == 4
  }

  lemma BuildsSpace(k: Kernel, program: Program, readCode: int)
    requires Inv(k) && Builds(k, program, readCode)
    ensures var n := RequiredFrames(program.size);
      && FirstUnused(k.mem.used) < DIRECTORIES && n <= k.mem.free && n <= MAX_PROCESS_FRAMES
      && PageIndex(program.buf) < KERNEL_SLOT
      && Created(k, program, readCode).mem == NewSpace(k.mem, program.buf, n)
  {
  }

  /** The tables keep their sizes and the counter stays exact. */
  lemma CreatedShaped(k: Kernel, program: Program, readCode: int)
    requires Shaped(k)
    ensures Shaped(Created(k, program, readCode))
  {
    if CreateCode(k, program, readCode) == 0 {
      UnusedNone(k.pidUsed);
      UnusedSet(k.pidUsed, FirstUnused(k.pidUsed), true);
    }
  }

  lemma CreatedTable(k: Kernel, program: Program, readCode: int)
    requires Inv(k)
    ensures Shaped(Created(k, program, readCode)) && TableOk(Created(k, program, readCode))
  {
    hide Isolated, NewSpace;
    CreatedShaped(k, program, readCode);
    if Builds(k, program, readCode) {
      forall p | 0 <= p < PROCESSES
        ensures PcbOk(Created(k, program, readCode), p)
        ensures !(p == FirstUnused(k.pidUsed) && CreateCode(k, program, readCode) == 0) ==>
                  SameSlot(k, Created(k, program, readCode), p)
        ensures k.pidUsed[p] ==> k.pcbs[p].context.dir != DirectoryAt(FirstUnused(k.mem.used))
      {
        CreatedSlot(k, program, readCode, p);
      }
    }
  }

  ghost predicate SameSlot(k: Kernel, k': Kernel, p: nat)
    requires Shaped(k) && Shaped(k') && p < PROCESSES
  {
    k'.pcbs[p] == k.pcbs[p] && k'.pidUsed[p] == k.pidUsed[p]
  }

  /** What a creation does to one slot. */
  lemma CreatedSlot(k: Kernel, program: Program, readCode: int, p: nat)
    requires Inv(k) && Builds(k, program, readCode) && p < PROCESSES && Shaped(Created(k, program, readCode))
    ensures PcbOk(Created(k, program, readCode), p)
    ensures !(p == FirstUnused(k.pidUsed) && CreateCode(k, program, readCode) == 0) ==>
              SameSlot(k, Created(k, program, readCode), p)
    ensures k.pidUsed[p] ==> k.pcbs[p].context.dir != DirectoryAt(FirstUnused(k.mem.used))
  {
    BuildsSpace(k, program, readCode);
    NewSpaceIsolated(k.mem, program.buf, RequiredFrames(program.size));
    UnusedNone(k.pidUsed);
    assert PcbOk(k, p);
  }

  /** Creation keeps the invariant if and only if it fails before it builds an address space, or
      builds one that covers slot 0. */
  lemma CreationKeeps(k: Kernel, program: Program, readCode: int)
    requires Inv(k)
    ensures Inv(Created(k, program, readCode)) <==>
            !Builds(k, program, readCode) || CoversSlotZero(program.buf, RequiredFrames(program.size))
  {
    CreatedTable(k, program, readCode);
    if Builds(k, program, readCode) {
      BuildsSpace(k, program, readCode);
      NewSpaceIsolated(k.mem, program.buf, RequiredFrames(program.size));
    }
  }

  // ---- destruction --------------------------------------------------------------------------

  lemma DestructionKeeps(k: Kernel, pid: uint32)
    requires Inv(k)
    ensures Inv(Destroyed(k, pid))
  {
    if pid < PROCESSES && k.pidUsed[pid] {
      assert PcbOk(k, pid);
      ReleaseIsolated(k.mem, k.pcbs[pid].context.dir.index);
      DestructionTable(k, pid);
    }
  }

  lemma DestructionTable(k: Kernel, pid: uint32)
    requires Inv(k) && pid < PROCESSES && k.pidUsed[pid]
    ensures Shaped(Destroyed(k, pid)) && TableOk(Destroyed(k, pid))
  {
    var k' := Destroyed(k, pid);
    assert PcbOk(k, pid);
    UnusedSet(k.pidUsed, pid, false);
    forall p | 0 <= p < PROCESSES
      ensures PcbOk(k', p)
    {
      DestructionSlot(k, pid, p);
    }
  }

  lemma DestructionSlot(k: Kernel, pid: uint32, p: nat)
    requires Inv(k) && pid < PROCESSES && k.pidUsed[pid] && p < PROCESSES && Shaped(Destroyed(k, pid))
    ensures PcbOk(Destroyed(k, pid), p)
    ensures p != pid ==> Destroyed(k, pid).pcbs[p] == k.pcbs[p]
  {
    assert PcbOk(k, pid) && PcbOk(k, p);
    ReleaseShape(k.mem, k.pcbs[pid].context.dir.index);
  }

  /** Creating a process and destroying it leaves the kernel exactly as it was. */
  lemma DestructionUndoesCreation(k: Kernel, program: Program, readCode: int)
    requires Inv(k) && CreateCode(k, program, readCode) == 0
           && CoversSlotZero(program.buf, RequiredFrames(program.size))
    ensures FirstUnused(k.pidUsed) < PROCESSES && Shaped(Created(k, program, readCode))
    ensures Destroyed(Created(k, program, readCode), FirstUnused(k.pidUsed)) == k
  {
    var p := FirstUnused(k.pidUsed);
    CreatedShaped(k, program, readCode);
    CreationFills(k, program, readCode);
    BuildsSpace(k, program, readCode);
    ReleaseUndoesNewSpace(k.mem, program.buf, RequiredFrames(program.size));
    DestructionEmpties(k, Created(k, program, readCode), p, FirstUnused(k.mem.used));
  }

  /** A successful creation fills the first unused slot, which was all zeros, and no other. */
  lemma CreationFills(k: Kernel, program: Program, readCode: int)
    requires Inv(k) && CreateCode(k, program, readCode) == 0
    ensures FirstUnused(k.mem.used) < DIRECTORIES
    ensures var p, k' := FirstUnused(k.pidUsed), Created(k, program, readCode);
      && p < PROCESSES && !k.pidUsed[p] && k.pcbs[p] == ZERO_PCB
      && k' == Kernel(k'.mem, k.pcbs[p := k'.pcbs[p]], k.pidUsed[p := true], k.active + 1, k.cr3, k.loaded)
      && k'.pcbs[p].context.dir == DirectoryAt(FirstUnused(k.mem.used)) && k'.pcbs[p].state == READY
  {
    UnusedNone(k.pidUsed);
    assert PcbOk(k, FirstUnused(k.pidUsed));
  }

  /** A new process starts from the same context whatever ran in its slot before: at address 0,
      with its stack at the end of the first page, interrupts on and nothing left over. */
  lemma NewProcessStartsClean(k: Kernel, program: Program, readCode: int)
    requires Inv(k) && CreateCode(k, program, readCode) == 0
    ensures FirstUnused(k.pidUsed) < PROCESSES && FirstUnused(k.mem.used) < DIRECTORIES
    ensures var b := Created(k, program, readCode).pcbs[FirstUnused(k.pidUsed)]; var n := RequiredFrames(program.size);
      && b.pid == FirstUnused(k.pidUsed) && b.state == READY && b.name == program.name && b.frameCount == n
      && b.context == Context(Registers(0, 0, 0, 0x40_0000, 0, 0, 0, 0, 0x20, 0x20, 0x20, 0x20), 0, 0x202,
                              DirectoryAt(FirstUnused(k.mem.used)))
      && |b.virtualAddrUsed| == MAX_PROCESS_FRAMES
      && forall i :: 0 <= i < MAX_PROCESS_FRAMES ==>
                b.virtualAddrUsed[i] == if i < n then (program.buf + 0x40_0000 * i) % 0x1_0000_0000 else 0
  {
    CreationFills(k, program, readCode);
  }

  /** Every page of a new process is mapped to a used frame that the process can read and write, and
      the kernel's own mapping, if no page lies on it, is not open to the process. */
  lemma NewProcessMapped(k: Kernel, program: Program, readCode: int, j: nat)
    requires Inv(k) && CreateCode(k, program, readCode) == 0 && j < ENTRIES
    ensures FirstUnused(k.pidUsed) < PROCESSES && Shaped(Created(k, program, readCode))
    ensures var k', n := Created(k, program, readCode), RequiredFrames(program.size);
      var dir := k'.pcbs[FirstUnused(k.pidUsed)].context.dir;
      && dir.DirectoryAt? && dir.index < DIRECTORIES && k'.mem.used[dir.index]
      && var e := k'.mem.dirs[dir.index][j];
      && (program.buf / 0x40_0000 <= j < program.buf / 0x40_0000 + n ==>
            e.present && e.write && e.user && e.big && e.lowerAddress < FRAMES && k'.mem.frames[e.lowerAddress])
      && (!(program.buf / 0x40_0000 <= j < program.buf / 0x40_0000 + n) ==>
            e == if j == 0 || j == 0x300 then Entry(true, true, false, true, 0) else Entry(false, false, false, false, 0))
  {
    var d, n := FirstUnused(k.mem.used), RequiredFrames(program.size);
    CreatedShaped(k, program, readCode);
    CreationFills(k, program, readCode);
    BuildsSpace(k, program, readCode);
    WithDirectorySound(k.mem);
    AllSucceed(WithDirectory(k.mem), d, program.buf, n);
    MappedUser(WithDirectory(k.mem), d, program.buf, n);
    MappedKeeps(WithDirectory(k.mem), d, program.buf, n);
  }

  /** It takes one directory and one frame a page. */
  lemma CreationTakes(k: Kernel, program: Program, readCode: int)
    requires Inv(k) && CreateCode(k, program, readCode) == 0
           && CoversSlotZero(program.buf, RequiredFrames(program.size))
    ensures FirstUnused(k.mem.used) < DIRECTORIES
    ensures var mem := Created(k, program, readCode).mem;
      && mem.free == k.mem.free - RequiredFrames(program.size)
          && mem.used == k.mem.used[FirstUnused(k.mem.used) := true]
  {
    BuildsSpace(k, program, readCode);
    NewSpaceIsolated(k.mem, program.buf, RequiredFrames(program.size));
    NewSpaceFree(k.mem, program.buf, RequiredFrames(program.size));
  }

  /** Emptying a slot that was the last to be filled. */
  lemma DestructionEmpties(k: Kernel, k': Kernel, p: nat, d: nat)
    requires Shaped(k) && Shaped(k') && p < PROCESSES && !k.pidUsed[p] && k.pcbs[p] == ZERO_PCB && d < DIRECTORIES
    requires k' == Kernel(k'.mem, k.pcbs[p := k'.pcbs[p]], k.pidUsed[p := true], k.active + 1, k.cr3, k.loaded)
    requires k'.pcbs[p].context.dir == DirectoryAt(d) && Released(k'.mem, d) == k.mem
    ensures Destroyed(k', p) == k
  {
    var k2 := Destroyed(k', p);
    assert k2.pcbs == k.pcbs && k2.pidUsed == k.pidUsed;
  }

  /** Otherwise the pair is not harmless: frame 0, the kernel's own, becomes the next frame to be
      handed to a process. */
  lemma CreationCostsKernelFrame(k: Kernel, program: Program, readCode: int)
    requires Inv(k) && CreateCode(k, program, readCode) == 0
           && !CoversSlotZero(program.buf, RequiredFrames(program.size))
    ensures FirstUnused(k.pidUsed) < PROCESSES && Shaped(Created(k, program, readCode))
    ensures FirstUnused(Destroyed(Created(k, program, readCode), FirstUnused(k.pidUsed)).mem.frames) == 0
  {
    CreatedShaped(k, program, readCode);
    BuildsSpace(k, program, readCode);
    UnusedNone(k.pidUsed);
    KernelFrameLost(k.mem, program.buf, RequiredFrames(program.size));
  }

  /** When the check before it passes, every allocation of a creation finds a frame, whether the
      program covers slot 0 or not. */
  lemma CreationAllocates(k: Kernel, program: Program, readCode: int, i: nat)
    requires Inv(k) && Builds(k, program, readCode) && i < RequiredFrames(program.size)
    ensures FirstUnused(k.mem.used) < DIRECTORIES
    ensures FirstUnused(Mapped(WithDirectory(k.mem), FirstUnused(k.mem.used), program.buf, i).frames) < FRAMES
    ensures Created(k, program, readCode).mem.free == k.mem.free - RequiredFrames(program.size)
  {
    BuildsSpace(k, program, readCode);
    AllSucceed(WithDirectory(k.mem), FirstUnused(k.mem.used), program.buf, RequiredFrames(program.size));
  }

  // ---- switching ----------------------------------------------------------------------------

  lemma SaveKeeps(k: Kernel, cpu: Registers, eip: uint32, eflags: uint32)
    requires Inv(k)
    ensures Inv(Saved(k, cpu, eip, eflags)) && Running(Saved(k, cpu, eip, eflags)) == Running(k)
  {
    var k' := Saved(k, cpu, eip, eflags);
    forall p | 0 <= p < PROCESSES
      ensures PcbOk(k', p)
    {
      assert PcbOk(k, p);
    }
  }

  /** Some process exists. */
  ghost predicate Populated(k: Kernel) {
    exists p :: 0 <= p < |k.pidUsed| && k.pidUsed[p]
  }

  lemma PopulatedCount(k: Kernel)
    requires Shaped(k)
    ensures Populated(k) <==> k.active > 0
  {
    if k.active == 0 {
      FullMeansAll(k.pidUsed);
    } else if !Populated(k) {
      AllUnused(k.pidUsed);
    }
  }

  lemma {:induction false} FullMeansAll(s: seq<bool>)
    requires Unused(s) == |s|
    ensures forall i :: 0 <= i < |s| ==> !s[i]
  {
    if s != [] {
      FullMeansAll(s[..|s| - 1]);
      assert forall i :: 0 <= i < |s| - 1 ==> s[i] == s[..|s| - 1][i];
    }
  }

  lemma OnlyRunning(k: Kernel, n: nat)
    requires Inv(k) && n < PROCESSES && k.pcbs[n].state == RUNNING
    ensures Running(k) == n
  {
    assert PcbOk(k, n);
  }

  /** A switch turns to a process that exists, if one does. */
  lemma NextExists(k: Kernel)
    requires Inv(k)
    ensures Populated(k) ==> k.pidUsed[NextProcess(k)] && Yielded(k)[NextProcess(k)].state == READY
    ensures !Populated(k) ==> Yielded(k) == k.pcbs
  {
    var r, pcbs, start := Running(k), Yielded(k), ScanStart(k);
    if r < PROCESSES {
      assert PcbOk(k, r);
    }
    if Populated(k) {
      var q :| 0 <= q < PROCESSES && k.pidUsed[q];
      assert PcbOk(k, q);
      if k.pcbs[q].state == RUNNING {
        OnlyRunning(k, q);
      }
      assert pcbs[q].state == READY;
      assert Distance(start, q) < PROCESSES;
    }
    assert PcbOk(k, NextProcess(k));
  }

  lemma SwitchedPcb(k: Kernel, p: nat)
    requires Shaped(k) && p < PROCESSES
    ensures Switched(k).mem == k.mem && Switched(k).pidUsed == k.pidUsed && |Switched(k).pcbs| == PROCESSES
    ensures Switched(k).pcbs[p] == if p == NextProcess(k) then Yielded(k)[p].(state := RUNNING) else Yielded(k)[p]
  {
    hide NextProcess, Formed;
  }

  /** What a switch does to one slot: the chosen process runs, no other does, and apart from
      its state nothing changes. */
  lemma SwitchSlot(k: Kernel, p: nat)
    requires Inv(k) && Populated(k) && p < PROCESSES
    ensures Shaped(Switched(k)) && PcbOk(Switched(k), p)
    ensures Switched(k).pcbs[p].state == RUNNING <==> p == NextProcess(k)
    ensures Switched(k).pcbs[p].context == k.pcbs[p].context
  {
    hide Switched, NextProcess, Isolated;
    SwitchedPcb(k, p);
    SwitchedShaped(k);
    NextExists(k);
    assert PcbOk(k, p);
    YieldedOthers(k, p);
  }

  /** A switch keeps the invariant if and only if some process exists. */
  lemma SwitchKeeps(k: Kernel)
    requires Inv(k)
    ensures Shaped(Switched(k)) && (Inv(Switched(k)) <==> Populated(k))
  {
    SwitchedShaped(k);
    if Populated(k) {
      SwitchAmong(k);
    } else {
      SwitchNowhere(k);
    }
  }

  lemma SwitchAmong(k: Kernel)
    requires Inv(k) && Populated(k)
    ensures Shaped(Switched(k)) && TableOk(Switched(k))
  {
    SwitchedShaped(k);
    forall p | 0 <= p < PROCESSES
      ensures SwitchedWell(k, Switched(k), p)
    {
      SwitchSlot(k, p);
    }
    SwitchTable(k, Switched(k));
  }

  /** Slot `p` after a switch: sound, with its own context, running if it is the one chosen. */
  ghost predicate SwitchedWell(k: Kernel, k': Kernel, p: nat)
    requires Shaped(k) && Shaped(k') && p < PROCESSES
  {
    PcbOk(k', p) && (k'.pcbs[p].state == RUNNING <==> p == NextProcess(k)) && k'.pcbs[p].context == k.pcbs[p].context
  }

  /** Without a process, a slot that is not in use is marked as running. */
  lemma SwitchNowhere(k: Kernel)
    requires Inv(k) && !Populated(k)
    ensures Shaped(Switched(k)) && !PcbOk(Switched(k), NextProcess(k))
  {
    NextExists(k);
  }

  lemma SwitchTable(k: Kernel, k': Kernel)
    requires Shaped(k) && OwnDirectories(k) && Shaped(k') && k'.pidUsed == k.pidUsed
    requires forall p :: 0 <= p < PROCESSES ==> SwitchedWell(k, k', p)
    requires k'.cr3 == k'.pcbs[NextProcess(k)].context.dir
    ensures TableOk(k')
  {
    forall p, q | 0 <= p < q < PROCESSES
      ensures k'.pcbs[p].state != RUNNING || k'.pcbs[q].state != RUNNING
      ensures k.pidUsed[p] && k.pidUsed[q] ==> k'.pcbs[p].context.dir != k'.pcbs[q].context.dir
    {
      assert SwitchedWell(k, k', p) && SwitchedWell(k, k', q);
    }
    forall p | 0 <= p < PROCESSES
      ensures PcbOk(k', p) && (k'.pcbs[p].state == RUNNING ==> p == NextProcess(k))
    {
      assert SwitchedWell(k, k', p);
    }
  }

  lemma YieldedOthers(k: Kernel, p: nat)
    requires Inv(k) && p < PROCESSES
    ensures Yielded(k)[p].state != RUNNING
    ensures Yielded(k)[p] == k.pcbs[p].(state := Yielded(k)[p].state)
  {
    assert PcbOk(k, p);
    if k.pcbs[p].state == RUNNING {
      OnlyRunning(k, p);
    }
  }

  /** When some process exists, a switch ends with exactly one running: the first ready process
      after the one that ran, around the table, or that one again. */
  lemma SwitchChoice(k: Kernel, q: nat)
    requires Inv(k) && Populated(k) && q < PROCESSES
    ensures var k', n := Switched(k), NextProcess(k);
      && (k'.pcbs[q].state == RUNNING <==> q == n) && k'.pidUsed[n]
      && (k.pcbs[q].state == READY ==> Distance(ScanStart(k), n) <= Distance(ScanStart(k), q))
      && (k.pcbs[n].state == READY || n == Running(k))
  {
    NextExists(k);
    YieldedOthers(k, q);
    if k.pcbs[q].state == READY {
      assert Yielded(k)[q].state == READY;
    }
  }
}
