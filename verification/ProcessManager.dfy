/** The process manager and the scheduler, updated in place, against the functions that say what
    they do. */
module ProcessManagers {
  import opened Codec
  import opened Options
  import opened Paging
  import opened AddressSpaces
  import opened PageManagers
  import opened Processes
  import opened KernelInvariant
  import opened KernelRuns

  datatype Metadata = Metadata(pid: uint32, state: ProcessState, name: Name)

  /** The metadata of the processes in use among the first `n`, in order. */
  function Listing(k: Kernel, n: nat): seq<Metadata>
    requires Shaped(k) && n <= PROCESSES
  {
    if n == 0 then []
    else
      var b := k.pcbs[n - 1];
      Listing(k, n - 1) + if k.pidUsed[n - 1] then [Metadata(b.pid, b.state, b.name)] else []
  }

  /** The list has as many entries as there are active processes, process `p` is in it exactly when
      its pid is in use, entries come in the order of their pids, and each tells its process's state
      and name. */
  lemma ListingComplete(k: Kernel, p: nat)
    requires Inv(k) && p < PROCESSES
    ensures |Listing(k, PROCESSES)| == k.active
    ensures k.pidUsed[p] <==> exists m :: m in Listing(k, PROCESSES) && m.pid == p
    ensures forall m :: m in Listing(k, PROCESSES) ==>
              m.pid < PROCESSES && m.state == k.pcbs[m.pid].state && m.name == k.pcbs[m.pid].name
              && (m.state == READY || m.state == RUNNING)
    ensures forall i, j :: 0 <= i < j < |Listing(k, PROCESSES)| ==>
              Listing(k, PROCESSES)[i].pid < Listing(k, PROCESSES)[j].pid
  {
    ListingUpTo(k, p, PROCESSES);
    ListingTells(k, PROCESSES);
    assert k.pidUsed[..PROCESSES] == k.pidUsed;
  }

  lemma {:induction false} ListingUpTo(k: Kernel, p: nat, n: nat)
    requires Inv(k) && p < PROCESSES && n <= PROCESSES
    ensures |Listing(k, n)| == n - Unused(k.pidUsed[..n])
    ensures (p < n && k.pidUsed[p]) <==> exists m :: m in Listing(k, n) && m.pid == p
  {
    hide Isolated, OneRuns, OwnDirectories;
    if n > 0 {
      ListingUpTo(k, p, n - 1);
      assert k.pidUsed[..n][..n - 1] == k.pidUsed[..n - 1];
      assert PcbOk(k, n - 1);
      var b := k.pcbs[n - 1];
      var rest, last := Listing(k, n - 1), if k.pidUsed[n - 1] then [Metadata(b.pid, b.state, b.name)] else [];
      assert Listing(k, n) == rest + last;
      assert forall m :: m in rest + last <==> m in rest || m in last;
    }
  }

  lemma {:induction false} ListingTells(k: Kernel, n: nat)
    requires Inv(k) && n <= PROCESSES
    ensures forall m :: m in Listing(k, n) ==>
              m.pid < n && m.state == k.pcbs[m.pid].state && m.name == k.pcbs[m.pid].name
              && (m.state == READY || m.state == RUNNING)
    ensures forall i, j :: 0 <= i < j < |Listing(k, n)| ==> Listing(k, n)[i].pid < Listing(k, n)[j].pid
  {
    hide Isolated, OneRuns, OwnDirectories;
    if n > 0 {
      ListingTells(k, n - 1);
      assert PcbOk(k, n - 1);
      var rest := Listing(k, n - 1);
      assert forall i :: 0 <= i < |rest| ==> rest[i] in rest;
    }
  }

  class ProcessManager {
    const processList: array<Pcb>
    const pidUsed: array<bool>
    var activeProcessCount: uint32
    const paging: PageManager
    /** The context the processor last took up. */
    var loaded: Option<Context>

    ghost function View(): Kernel
      reads this, processList, pidUsed, paging, paging.pageFrameMap, paging.pageDirectoryList, paging.pageDirectoryUsed
    {
      Kernel(paging.View(), processList[..], pidUsed[..], activeProcessCount, paging.cr3, loaded)
    }

    ghost predicate Valid()
      reads this, processList, pidUsed, paging, paging.pageFrameMap, paging.pageDirectoryList, paging.pageDirectoryUsed
    {
      && paging.Valid() && pidUsed != paging.pageFrameMap && pidUsed != paging.pageDirectoryUsed
      && Shaped(View())
    }

    constructor ()
      ensures Valid() && View() == InitialKernel() && Inv(View())
      ensures activeProcessCount == 0 && loaded == None && paging.cr3 == KernelDirectory
      ensures forall p :: 0 <= p < PROCESSES ==> !pidUsed[p] && processList[p] == ZERO_PCB
      ensures fresh(processList) && fresh(pidUsed) && fresh(paging)
      ensures fresh(paging.pageFrameMap) && fresh(paging.pageDirectoryList) && fresh(paging.pageDirectoryUsed)
    {
      processList := new Pcb[PROCESSES](_ => ZERO_PCB);
      pidUsed := new bool[PROCESSES](_ => false);
      activeProcessCount := 0;
      paging := new PageManager();
      loaded := None;
      new;
      InitialInv();
      assert processList[..] == InitialKernel().pcbs && pidUsed[..] == InitialKernel().pidUsed;
    }

    /** The first pid that is free; -1 if all are taken. */
    method GetInactiveIndex() returns (i: int)
      requires Valid()
      ensures i == if FirstUnused(pidUsed[..]) < PROCESSES then FirstUnused(pidUsed[..]) else -1
    {
      i := 0;
      while i < PROCESSES
        invariant 0 <= i <= PROCESSES && forall j :: 0 <= j < i ==> pidUsed[j]
      {
        if !pidUsed[i] {
          return;
        }
        i := i + 1;
      }
      return -1;
    }

    /** The running process; `PROCESSES` if there is none. */
    method GetCurrentRunning() returns (r: nat)
      requires Valid()
      ensures r == Running(View())
    {
      for i := 0 to PROCESSES
        invariant Running(View()) == RunningFrom(View(), i)
      {
        if pidUsed[i] {
          if processList[i].state == RUNNING {
            return i;
          }
        }
      }
      return PROCESSES;
    }

    /** Starts a program; `readCode` is what reading it returned. */
    method CreateUserProcess(program: Program, readCode: int) returns (code: int)
      requires Valid()
      modifies this, processList, pidUsed, paging, paging.pageFrameMap, paging.pageDirectoryList, paging.pageDirectoryUsed
      ensures Valid() && code == CreateCode(old(View()), program, readCode)
      ensures View() == Created(old(View()), program, readCode)
      ensures code == 1 <==> old(activeProcessCount) >= 16
      ensures code == 2 <==> old(activeProcessCount) < 16 && program.buf >= 0xC000_0000
      ensures code == 3 <==>
              && old(activeProcessCount) < 16 && program.buf < 0xC000_0000
              && var required := (program.size + 0x3F_FFFF) % 0x1_0000_0000 / 0x40_0000;
                 required > old(paging.freePageFrameCount) || required > 8
                 || forall d :: 0 <= d < DIRECTORIES ==> old(paging.pageDirectoryUsed[d])
      ensures code == 4 <==> code !in {1, 2, 3} && readCode != 0
      ensures 0 <= code <= 4
      ensures Inv(old(View())) ==>
                (Inv(View()) <==> code in {1, 2, 3} || CoversSlotZero(program.buf, RequiredFrames(program.size)))
    {
      hide Inv, NewSpace, NewPcb, Mapped, FirstUnused;
      ghost var k := View();
      CreatedShaped(k, program, readCode);
      if Inv(k) {
        CreationKeeps(k, program, readCode);
      }
      if activeProcessCount >= PROCESSES {
        return 1;
      }
      if program.buf >= KERNEL_BASE {
        return 2;
      }
      var required := RequiredFrames(program.size);
      RequiredFramesHold(program.size, k.mem.free);
      var enough := paging.AllocateCheck(program.size);
      if !enough || required > MAX_PROCESS_FRAMES {
        return 3;
      }
      var dir := paging.CreateNewPageDirectory();
      if dir.NoDirectory? {
        return 3;
      }
      code := Load(program, readCode, dir.index, required, k);
    }

    /** The rest of a creation, once the directory is taken: pages, program, control block. */
    method Load(program: Program, readCode: int, d: nat, required: nat, ghost k: Kernel) returns (code: int)
      requires Valid() && Shaped(k) && View() == k.(mem := WithDirectory(k.mem))
      requires CreateCode(k, program, readCode) == (if readCode != 0 then 4 else 0)
      requires d == FirstUnused(k.mem.used) < DIRECTORIES && required == RequiredFrames(program.size) <= MAX_PROCESS_FRAMES
      requires activeProcessCount < PROCESSES
      modifies this, processList, pidUsed, paging, paging.pageFrameMap, paging.pageDirectoryList, paging.pageDirectoryUsed
      ensures Valid() && code == CreateCode(k, program, readCode) && View() == Created(k, program, readCode)
    {
      CreatedShaped(k, program, readCode);
      var current := paging.cr3;
      paging.UsePageDirectory(DirectoryAt(d));
      AllocatePages(d, program.buf, required);
      if readCode != 0 {
        paging.UsePageDirectory(current);
        return 4;
      }
      SetUp(program, d, required, k);
      paging.UsePageDirectory(current);
      return 0;
    }

    /** Maps the pages of a program, one frame each. */
    method AllocatePages(d: nat, address: uint32, n: nat)
      requires paging.Valid() && d < DIRECTORIES
      modifies paging, paging.pageFrameMap, paging.pageDirectoryList
      ensures paging.Valid() && paging.View() == Mapped(old(paging.View()), d, address, n)
             && paging.cr3 == old(paging.cr3)
    {
      ghost var m := paging.View();
      for i := 0 to n
        invariant paging.Valid() && paging.View() == Mapped(m, d, address, i) && paging.cr3 == old(paging.cr3)
      {
        var _ := paging.AllocateUserPageFrame(d, PagesOn(address, i));
      }
    }

    /** Fills in the control block of a new process. */
    method SetUp(program: Program, d: nat, required: nat, ghost k: Kernel)
      requires Valid() && required == RequiredFrames(program.size) && required <= MAX_PROCESS_FRAMES
             && activeProcessCount < PROCESSES
      requires d < DIRECTORIES
      modifies this, processList, pidUsed
      ensures paging.View() == old(paging.View()) && paging.cr3 == old(paging.cr3) && loaded == old(loaded)
      ensures var p := FirstUnused(old(pidUsed[..]));
        && p < PROCESSES && pidUsed[..] == old(pidUsed[..])[p := true]
            && activeProcessCount == old(activeProcessCount) + 1
        && processList[..] == old(processList[..])[p := NewPcb(old(processList[p]), p, d, program)]
    {
      UnusedNone(pidUsed[..]);
      var index := GetInactiveIndex();
      activeProcessCount := activeProcessCount + 1;
      pidUsed[index] := true;
      var pages := processList[index].virtualAddrUsed;
      for i := 0 to required
        invariant |pages| == MAX_PROCESS_FRAMES
        invariant pages == PagesUsed(processList[index].virtualAddrUsed, program.buf, i)
      {
        pages := pages[i := PagesOn(program.buf, i)];
      }
      var b := processList[index];
      var cpu := b.context.cpu.(ds := USER_SEGMENT, es := USER_SEGMENT, fs := USER_SEGMENT, gs := USER_SEGMENT);
      cpu := cpu.(esp := 0x40_0000);
      var context := Context(cpu, b.context.eip, WithBaseFlags(b.context.eflags), DirectoryAt(d));
      processList[index] := Pcb(index, READY, program.name, context, pages, required);
    }

    /** Ends a process. */
    method DestroyProcess(pid: uint32) returns (ok: bool)
      requires Valid()
      modifies this, processList, pidUsed, paging, paging.pageFrameMap, paging.pageDirectoryList, paging.pageDirectoryUsed
      ensures Valid() && View() == Destroyed(old(View()), pid)
      ensures ok <==> pid < PROCESSES && old(pidUsed[pid]) && Pooled(old(processList[pid].context.dir))
      ensures Inv(old(View())) ==> Inv(View()) && (ok <==> pid < PROCESSES && old(pidUsed[pid]))
    {
      hide Inv;
      ghost var k := View();
      DestructionSound(k, pid);
      if pid >= PROCESSES {
        return false;
      }
      if !pidUsed[pid] {
        return false;
      }
      UnusedSet(pidUsed[..], pid, false);
      processList[pid] := processList[pid].(state := BLOCKED);
      ok := paging.FreePageDirectory(processList[pid].context.dir);
      if !ok {
        return;
      }
      processList[pid] := ZERO_PCB;
      pidUsed[pid] := false;
      activeProcessCount := Decrement(activeProcessCount);
      assert processList[..] == k.pcbs[pid := ZERO_PCB];
    }

    /** In a sound kernel a pid in use has a directory of the pool, and destroying it keeps that. */
    static lemma DestructionSound(k: Kernel, pid: uint32)
      requires Shaped(k)
      ensures Inv(k) ==> Inv(Destroyed(k, pid)) && (pid < PROCESSES && k.pidUsed[pid] ==> Pooled(k.pcbs[pid].context.dir))
    {
      if Inv(k) {
        DestructionKeeps(k, pid);
        if pid < PROCESSES {
          assert PcbOk(k, pid);
        }
      }
    }

    /** The running process ends itself. */
    method Exit()
      requires Valid() && Inv(View())
      modifies this, processList, pidUsed, paging, paging.pageFrameMap, paging.pageDirectoryList, paging.pageDirectoryUsed
      ensures Valid() && Inv(View())
      ensures View() == if Running(old(View())) < PROCESSES then Destroyed(old(View()), Running(old(View()))) else old(View())
    {
      var r := GetCurrentRunning();
      if r != PROCESSES {
        assert PcbOk(View(), r);
        var _ := DestroyProcess(processList[r].pid);
      }
    }

    /** Lists the processes in use. */
    method GetProcessList() returns (list: array<Metadata>, size: nat)
      requires Valid()
      ensures fresh(list) && size <= list.Length && list[..size] == Listing(View(), PROCESSES)
    {
      list := new Metadata[PROCESSES](_ => Metadata(0, BLOCKED, ZERO_NAME));
      size := 0;
      for i := 0 to PROCESSES
        invariant size <= i && list[..size] == Listing(View(), i)
      {
        if pidUsed[i] {
          list[size] := Metadata(processList[i].pid, processList[i].state, processList[i].name);
          size := size + 1;
        }
      }
    }

    /** The running process, if any, keeps the registers it was interrupted with. */
    method SaveContext(cpu: Registers, eip: uint32, eflags: uint32)
      requires Valid()
      modifies processList
      ensures Valid() && View() == Saved(old(View()), cpu, eip, eflags)
    {
      SavedShaped(View(), cpu, eip, eflags);
      var r := GetCurrentRunning();
      if r != PROCESSES {
        processList[r] := processList[r].(context := processList[r].context.(cpu := cpu, eip := eip, eflags := eflags));
      }
    }

    /** Turns to the next ready process. */
    method SwitchToNextProcess()
      requires Valid()
      modifies `loaded, processList, paging`cr3
      ensures Valid() && View() == Switched(old(View()))
    {
      ghost var k := View();
      var idx := YieldRunning();
      ghost var pcbs := processList[..];
      idx := ScanReady(idx);
      Dispatch(idx);
      SwitchedIs(k, View(), pcbs, idx);
    }

    static lemma SwitchedIs(k: Kernel, k': Kernel, pcbs: seq<Pcb>, p: nat)
      requires Shaped(k) && pcbs == Yielded(k) && p < PROCESSES
      requires p == Around(ScanStart(k), StepsToReady(pcbs, ScanStart(k), PROCESSES))
      requires k'.mem == k.mem && k'.pidUsed == k.pidUsed && k'.active == k.active
      requires k'.pcbs == pcbs[p := pcbs[p].(state := RUNNING)]
      requires k'.cr3 == pcbs[p].context.dir
      requires k'.loaded == Some(pcbs[p].context)
      ensures k' == Switched(k) && Shaped(k')
    {
      SwitchedShaped(k);
    }

    /** The running process, if any, is put back among the ready ones; the scan is to begin after
        it. */
    method YieldRunning() returns (idx: nat)
      requires Valid()
      modifies processList
      ensures processList[..] == Yielded(old(View())) && idx == ScanStart(old(View()))
    {
      var r := GetCurrentRunning();
      idx := 0;
      if r != PROCESSES {
        idx := (processList[r].pid + 1) % 16;
        processList[r] := processList[r].(state := READY);
      }
    }

    /** A process is marked as running, and the processor takes up its context. */
    method Dispatch(idx: nat)
      requires paging.Valid() && idx < processList.Length
      modifies `loaded, processList, paging`cr3
      ensures processList[..] == old(processList[..])[idx := old(processList[idx]).(state := RUNNING)]
      ensures paging.cr3 == processList[idx].context.dir && loaded == Some(processList[idx].context)
    {
      processList[idx] := processList[idx].(state := RUNNING);
      paging.UsePageDirectory(processList[idx].context.dir);
      loaded := Some(processList[idx].context);
    }

    /** The first ready process from `start` on, around the table; `start` again if there is
        none. */
    method ScanReady(start: nat) returns (idx: nat)
      requires processList.Length == PROCESSES && start < PROCESSES
      ensures idx == Around(start, StepsToReady(processList[..], start, PROCESSES))
    {
      hide StepsToReady, Scanning, Around;
      ghost var pcbs := processList[..];
      ScanBegins(pcbs, start);
      idx := start;
      var cnt := 0;
      while cnt < PROCESSES
        invariant cnt <= PROCESSES && idx == Around(start, cnt) && Scanning(pcbs, start, cnt)
      {
        ScanStep(pcbs, start, cnt);
        if processList[idx].state == READY {
          return;
        }
        idx := (idx + 1) % 16;
        cnt := cnt + 1;
      }
      ScanEnds(pcbs, start);
    }

    /** The scan has found no ready process in `cnt` places. */
    static ghost predicate Scanning(pcbs: seq<Pcb>, start: nat, cnt: nat)
      requires |pcbs| == PROCESSES && start < PROCESSES && cnt <= PROCESSES
    {
      StepsToReady(pcbs, start, PROCESSES) == cnt + StepsToReady(pcbs, Around(start, cnt), PROCESSES - cnt)
    }

    static lemma ScanBegins(pcbs: seq<Pcb>, start: nat)
      requires |pcbs| == PROCESSES && start < PROCESSES
      ensures Around(start, 0) == start && Scanning(pcbs, start, 0)
    {
    }

    static lemma ScanEnds(pcbs: seq<Pcb>, start: nat)
      requires |pcbs| == PROCESSES && start < PROCESSES && Scanning(pcbs, start, PROCESSES)
      ensures StepsToReady(pcbs, start, PROCESSES) == PROCESSES
    {
    }

    /** One step of the scan: it has found a ready process, or goes on. */
    static lemma ScanStep(pcbs: seq<Pcb>, start: nat, cnt: nat)
      requires |pcbs| == PROCESSES && start < PROCESSES && cnt < PROCESSES && Scanning(pcbs, start, cnt)
      ensures Around(start, cnt + 1) == (Around(start, cnt) + 1) % 16
      ensures if pcbs[Around(start, cnt)].state == READY then StepsToReady(pcbs, start, PROCESSES) == cnt
              else Scanning(pcbs, start, cnt + 1)
    {
      assert Around(Around(start, cnt), 1) == Around(start, cnt + 1);
    }

    /** The timer interrupt: save what was interrupted, then switch. */
    method TimerInterrupt(cpu: Registers, eip: uint32, eflags: uint32)
      requires Valid()
      modifies `loaded, processList, paging`cr3
      ensures Valid() && View() == Ticked(old(View()), cpu, eip, eflags)
      ensures Inv(old(View())) ==> (Inv(View()) <==> Populated(old(View())))
    {
      ghost var k := View();
      if Inv(k) {
        EventKeeps(k, Tick(cpu, eip, eflags));
      }
      SaveContext(cpu, eip, eflags);
      SwitchToNextProcess();
    }
  }
}
