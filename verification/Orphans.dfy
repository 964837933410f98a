/** Creations that fail: which of them cost nothing, and what the others cost for good. */
module Orphans {
  import opened Codec
  import opened Options
  import opened Paging
  import opened AddressSpaces
  import opened PageManagers
  import opened Processes
  import opened KernelInvariant
  import opened KernelRuns

  /** A failed creation leaves the kernel as it was exactly when it failed before it built an
      address space; when the program could not be read, it did not. */
  lemma FailureCosts(k: Kernel, program: Program, readCode: int)
    requires Inv(k) && CreateCode(k, program, readCode) != 0
    ensures Created(k, program, readCode) == k <==> CreateCode(k, program, readCode) in {1, 2, 3}
  {
    if CreateCode(k, program, readCode) == 4 {
      var d := FirstUnused(k.mem.used);
      NewSpaceIsolated(k.mem, program.buf, RequiredFrames(program.size));
      assert Created(k, program, readCode).mem.used[d] && !k.mem.used[d];
    }
  }

  /** A directory in use that belongs to no process. */
  ghost predicate Orphan(k: Kernel, d: nat)
    requires Shaped(k)
  {
    d < DIRECTORIES && k.mem.used[d]
    && forall p :: 0 <= p < PROCESSES && k.pidUsed[p] ==> k.pcbs[p].context.dir != DirectoryAt(d)
  }

  /** A program that could not be read leaves its directory behind, and its frames. */
  lemma FailureOrphans(k: Kernel, program: Program, readCode: int)
    requires Inv(k) && CreateCode(k, program, readCode) == 4
    ensures Shaped(Created(k, program, readCode)) && Orphan(Created(k, program, readCode), FirstUnused(k.mem.used))
    ensures Created(k, program, readCode).mem.free == k.mem.free - RequiredFrames(program.size)
  {
    var d := FirstUnused(k.mem.used);
    CreatedShaped(k, program, readCode);
    BuildsSpace(k, program, readCode);
    NewSpaceIsolated(k.mem, program.buf, RequiredFrames(program.size));
    AllSucceed(WithDirectory(k.mem), d, program.buf, RequiredFrames(program.size));
    forall p | 0 <= p < PROCESSES && k.pidUsed[p]
      ensures k.pcbs[p].context.dir != DirectoryAt(d)
    {
      assert PcbOk(k, p);
    }
  }

  /** The directory is an orphan still, with the contents it had. */
  ghost predicate Abandoned(k: Kernel, k': Kernel, d: nat)
    requires Shaped(k) && Shaped(k')
  {
    Orphan(k', d) && k'.mem.dirs[d] == k.mem.dirs[d]
  }

  /** Neither saving nor switching gives a process another directory. */
  lemma SavedDirectories(k: Kernel, cpu: Registers, eip: uint32, eflags: uint32)
    requires Inv(k) && Populated(k)
    ensures var s := Saved(k, cpu, eip, eflags);
      && Inv(s) && Populated(s) && s.mem == k.mem && s.pidUsed == k.pidUsed
      && forall p :: 0 <= p < PROCESSES ==> s.pcbs[p].context.dir == k.pcbs[p].context.dir
  {
    hide Isolated, TableOk;
    SaveKeeps(k, cpu, eip, eflags);
    var p :| 0 <= p < |k.pidUsed| && k.pidUsed[p];
    assert Saved(k, cpu, eip, eflags).pidUsed[p];
  }

  lemma SwitchedDirectories(k: Kernel)
    requires Inv(k) && Populated(k)
    ensures Shaped(Switched(k)) && Switched(k).mem == k.mem && Switched(k).pidUsed == k.pidUsed
    ensures forall p :: 0 <= p < PROCESSES ==> Switched(k).pcbs[p].context.dir == k.pcbs[p].context.dir
  {
    hide Isolated, TableOk, NextProcess, Switched;
    SwitchedShaped(k);
    forall p | 0 <= p < PROCESSES
      ensures Switched(k).pcbs[p].context.dir == k.pcbs[p].context.dir
    {
      SwitchSlot(k, p);
    }
    SwitchedPcb(k, 0);
  }

  lemma TickAbandons(k: Kernel, cpu: Registers, eip: uint32, eflags: uint32, d: nat)
    requires Inv(k) && Populated(k) && Orphan(k, d) && Shaped(Ticked(k, cpu, eip, eflags))
    ensures Abandoned(k, Ticked(k, cpu, eip, eflags), d)
  {
    hide Isolated, TableOk, Populated, Saved, Switched;
    SavedDirectories(k, cpu, eip, eflags);
    SwitchedDirectories(Saved(k, cpu, eip, eflags));
  }

  lemma CreateAbandons(k: Kernel, program: Program, readCode: int, d: nat)
    requires Inv(k) && Orphan(k, d) && Shaped(Created(k, program, readCode))
    ensures Abandoned(k, Created(k, program, readCode), d)
  {
    if Builds(k, program, readCode) {
      var k' := Created(k, program, readCode);
      BuildsSpace(k, program, readCode);
      NewSpaceIsolated(k.mem, program.buf, RequiredFrames(program.size));
      UnusedNone(k.pidUsed);
      forall p | 0 <= p < PROCESSES && k'.pidUsed[p]
        ensures k'.pcbs[p].context.dir != DirectoryAt(d)
      {
        CreatedSlot(k, program, readCode, p);
      }
    }
  }

  lemma DestroyAbandons(k: Kernel, pid: uint32, d: nat)
    requires Inv(k) && Orphan(k, d) && Shaped(Destroyed(k, pid))
    ensures Abandoned(k, Destroyed(k, pid), d)
  {
    if pid < PROCESSES && k.pidUsed[pid] {
      assert PcbOk(k, pid);
      ReleaseShape(k.mem, k.pcbs[pid].context.dir.index);
    }
  }

  lemma EventAbandons(k: Kernel, e: Event, d: nat)
    requires Inv(k) && Allowed(k, e) && Orphan(k, d)
    ensures Abandoned(k, After(k, e), d)
  {
    EventKeeps(k, e);
    match e
    case Tick(cpu, eip, eflags) => TickAbandons(k, cpu, eip, eflags, d);
    case Create(program, readCode) => CreateAbandons(k, program, readCode, d);
    case Destroy(pid) => DestroyAbandons(k, pid, d);
  }

  /** No run gives an orphan directory back, or any frame that it maps. */
  lemma {:induction false} NeverRecovered(k: Kernel, es: seq<Event>, d: nat)
    requires Inv(k) && Legal(k, es) && Orphan(k, d)
    ensures Inv(Run(k, es)) && Abandoned(k, Run(k, es), d)
    ensures forall j: nat :: Claims(k.mem, d, j) ==>
              Claims(Run(k, es).mem, d, j) && Run(k, es).mem.frames[k.mem.dirs[d][j].lowerAddress]
    decreases |es|
  {
    if es != [] {
      EventAbandons(k, es[0], d);
      NeverRecovered(After(k, es[0]), es[1..], d);
    }
  }
}
