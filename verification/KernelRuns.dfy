/** Whole runs of the kernel: timer interrupts, creations and destructions in any order. */
module KernelRuns {
  import opened Codec
  import opened Options
  import opened Paging
  import opened AddressSpaces
  import opened PageManagers
  import opened Processes
  import opened KernelInvariant

  datatype Event =
    | Tick(cpu: Registers, eip: uint32, eflags: uint32)
    | Create(program: Program, readCode: int)
    | Destroy(pid: uint32)

  function Apply(k: Kernel, e: Event): Kernel
    requires Shaped(k)
  {
    match e
    case Tick(cpu, eip, eflags) => Ticked(k, cpu, eip, eflags)
    case Create(program, readCode) => Created(k, program, readCode)
    case Destroy(pid) => Destroyed(k, pid)
  }

  /** What the kernel relies on: the timer runs only while some process exists, and a program
      covers slot 0 of its address space, as both callers' programs do. */
  ghost predicate Allowed(k: Kernel, e: Event)
    requires Shaped(k)
  {
    match e
    case Tick(_, _, _) => Populated(k)
    case Create(program, readCode) =>
      Builds(k, program, readCode) ==> CoversSlotZero(program.buf, RequiredFrames(program.size))
    case Destroy(_) => true
  }

  /** An event keeps the invariant exactly when it is one the kernel relies on. */
  lemma EventKeeps(k: Kernel, e: Event)
    requires Inv(k)
    ensures Inv(Apply(k, e)) <==> Allowed(k, e)
  {
    match e
    case Tick(cpu, eip, eflags) =>
      SaveKeeps(k, cpu, eip, eflags);
      SwitchKeeps(Saved(k, cpu, eip, eflags));
    case Create(program, readCode) =>
      CreationKeeps(k, program, readCode);
    case Destroy(pid) =>
      DestructionKeeps(k, pid);
  }

  ghost function After(k: Kernel, e: Event): (k': Kernel)
    requires Inv(k) && Allowed(k, e)
    ensures Inv(k')
  {
    EventKeeps(k, e);
    Apply(k, e)
  }

  /** Every event of the run is allowed when it comes. */
  ghost predicate Legal(k: Kernel, es: seq<Event>)
    requires Inv(k)
    decreases |es|
  {
    es == [] || (Allowed(k, es[0]) && Legal(After(k, es[0]), es[1..]))
  }

  ghost function Run(k: Kernel, es: seq<Event>): Kernel
    requires Inv(k) && Legal(k, es)
    decreases |es|
  {
    if es == [] then k else Run(After(k, es[0]), es[1..])
  }

  /** From the initial state on, every run keeps the invariant: in every reachable state frames
      have one owner each, the counters are exact, and the process table is sound. */
  lemma {:induction false} RunKeeps(k: Kernel, es: seq<Event>)
    requires Inv(k) && Legal(k, es)
    ensures Inv(Run(k, es))
    decreases |es|
  {
    if es != [] {
      RunKeeps(After(k, es[0]), es[1..]);
    }
  }

  lemma ReachableSound(es: seq<Event>)
    requires Inv(InitialKernel()) && Legal(InitialKernel(), es)
    ensures Inv(Run(InitialKernel(), es))
  {
    RunKeeps(InitialKernel(), es);
  }

  // ---- a process that is not running --------------------------------------------------------

  /** The process is where it was, with the context and the address space it had. */
  ghost predicate Undisturbed(k: Kernel, k': Kernel, p: nat)
    requires Inv(k) && Inv(k') && p < PROCESSES && k.pidUsed[p]
  {
    && k'.pidUsed[p] && k'.pcbs[p].context == k.pcbs[p].context
    && (PcbOk(k, p) ==> k'.mem.dirs[k.pcbs[p].context.dir.index] == k.mem.dirs[k.pcbs[p].context.dir.index])
  }

  /** If the process runs now, it runs with its own context and directory. */
  ghost predicate Resumed(k: Kernel, p: nat)
    requires Inv(k) && p < PROCESSES
  {
    k.pcbs[p].state == RUNNING ==> k.loaded == Some(k.pcbs[p].context) && k.cr3 == k.pcbs[p].context.dir
  }

  lemma CreationSpares(k: Kernel, program: Program, readCode: int, p: nat)
    requires Inv(k) && Inv(Created(k, program, readCode)) && p < PROCESSES && k.pidUsed[p]
    ensures Undisturbed(k, Created(k, program, readCode), p)
    ensures Created(k, program, readCode).pcbs[p] == k.pcbs[p]
  {
    assert PcbOk(k, p);
    if Builds(k, program, readCode) {
      BuildsSpace(k, program, readCode);
      NewSpaceIsolated(k.mem, program.buf, RequiredFrames(program.size));
      CreatedSlot(k, program, readCode, p);
    }
  }

  lemma DestructionSpares(k: Kernel, pid: uint32, p: nat)
    requires Inv(k) && Inv(Destroyed(k, pid)) && p < PROCESSES && k.pidUsed[p] && p != pid
    ensures Undisturbed(k, Destroyed(k, pid), p)
    ensures Destroyed(k, pid).pcbs[p] == k.pcbs[p]
  {
    assert PcbOk(k, p);
    if pid < PROCESSES && k.pidUsed[pid] {
      assert PcbOk(k, pid);
      assert k.pcbs[p].context.dir != k.pcbs[pid].context.dir;
      ReleaseShape(k.mem, k.pcbs[pid].context.dir.index);
    }
  }

  lemma TickSpares(k: Kernel, cpu: Registers, eip: uint32, eflags: uint32, p: nat)
    requires Inv(k) && Inv(Ticked(k, cpu, eip, eflags)) && Populated(k)
    requires p < PROCESSES && k.pidUsed[p] && k.pcbs[p].state != RUNNING
    ensures Undisturbed(k, Ticked(k, cpu, eip, eflags), p) && Resumed(Ticked(k, cpu, eip, eflags), p)
    ensures Ticked(k, cpu, eip, eflags).pcbs[p].state == RUNNING <==> p == NextProcess(Saved(k, cpu, eip, eflags))
  {
    var s := Saved(k, cpu, eip, eflags);
    SaveKeeps(k, cpu, eip, eflags);
    SwitchSlot(s, p);
    YieldedOthers(s, p);
  }

  /** The running process is saved with what it was interrupted with. */
  lemma TickSaves(k: Kernel, cpu: Registers, eip: uint32, eflags: uint32)
    requires Inv(k) && Inv(Ticked(k, cpu, eip, eflags)) && Running(k) < PROCESSES
    ensures var r, k' := Running(k), Ticked(k, cpu, eip, eflags);
      && k'.pidUsed[r] && k'.pcbs[r].context == Context(cpu, eip, eflags, k.pcbs[r].context.dir)
      && k'.mem == k.mem && Resumed(k', r)
  {
    var s, r := Saved(k, cpu, eip, eflags), Running(k);
    SaveKeeps(k, cpu, eip, eflags);
    assert Populated(s) by {
      assert s.pidUsed[r];
    }
    SwitchSlot(s, r);
    YieldedOthers(s, r);
  }

  /** Until the last state of the run, the process does not run, and it is not destroyed. */
  ghost predicate Waiting(k: Kernel, es: seq<Event>, p: nat)
    requires Inv(k) && Legal(k, es) && p < PROCESSES
    decreases |es|
  {
    es == []
    || (k.pcbs[p].state != RUNNING && es[0] != Destroy(p)
        && Waiting(After(k, es[0]), es[1..], p))
  }

  lemma EventSpares(k: Kernel, e: Event, p: nat)
    requires Inv(k) && Allowed(k, e)
    requires p < PROCESSES && k.pidUsed[p] && k.pcbs[p].state != RUNNING && e != Destroy(p)
    ensures Undisturbed(k, After(k, e), p) && Resumed(After(k, e), p)
  {
    EventKeeps(k, e);
    match e
    case Tick(cpu, eip, eflags) => TickSpares(k, cpu, eip, eflags, p);
    case Create(program, readCode) => CreationSpares(k, program, readCode, p);
    case Destroy(pid) => DestructionSpares(k, pid, p);
  }

  /** Whatever happens while a process waits, its context and its address space stay, and when
      it runs again it runs with them. */
  lemma {:induction false} WaitingUndisturbed(k: Kernel, es: seq<Event>, p: nat)
    requires Inv(k) && Legal(k, es) && p < PROCESSES && k.pidUsed[p] && Waiting(k, es, p)
    ensures Inv(Run(k, es)) && Undisturbed(k, Run(k, es), p)
    ensures es != [] || Resumed(k, p) ==> Resumed(Run(k, es), p)
    decreases |es|
  {
    if es != [] {
      EventSpares(k, es[0], p);
      assert PcbOk(k, p);
      WaitingUndisturbed(After(k, es[0]), es[1..], p);
    }
  }

  /** A process that is interrupted with some registers, and later runs again, is resumed with
      exactly those registers, in its own address space, which is as it was. */
  lemma ResumedAsInterrupted(k: Kernel, cpu: Registers, eip: uint32, eflags: uint32, es: seq<Event>)
    requires Inv(k) && Inv(Ticked(k, cpu, eip, eflags)) && Running(k) < PROCESSES
    requires Legal(Ticked(k, cpu, eip, eflags), es) && Waiting(Ticked(k, cpu, eip, eflags), es, Running(k))
    requires Shaped(Run(Ticked(k, cpu, eip, eflags), es))
    requires Run(Ticked(k, cpu, eip, eflags), es).pcbs[Running(k)].state == RUNNING
    ensures var dir, k' := k.pcbs[Running(k)].context.dir, Run(Ticked(k, cpu, eip, eflags), es);
      && k'.loaded == Some(Context(cpu, eip, eflags, dir)) && k'.cr3 == dir
      && Pooled(dir) && Formed(k'.mem) && k'.mem.dirs[dir.index] == k.mem.dirs[dir.index]
  {
    var r, k1 := Running(k), Ticked(k, cpu, eip, eflags);
    TickSaves(k, cpu, eip, eflags);
    WaitingUndisturbed(k1, es, r);
    assert PcbOk(k, r) && PcbOk(k1, r);
  }

  // ---- waiting ------------------------------------------------------------------------------

  function Ticks(es: seq<Event>): nat {
    if es == [] then 0 else (if es[0].Tick? then 1 else 0) + Ticks(es[1..])
  }

  /** The process runs in some state of the run. */
  ghost predicate Runs(k: Kernel, es: seq<Event>, p: nat)
    requires Inv(k) && Legal(k, es) && p < PROCESSES
    decreases |es|
  {
    || k.pcbs[p].state == RUNNING
    || (es != [] && Runs(After(k, es[0]), es[1..], p))
  }

  /** No event destroys the process. */
  ghost predicate Spared(es: seq<Event>, p: nat) {
    forall e :: e in es && e.Destroy? ==> e.pid != p
  }

  /** The event ends the process that is running when it comes. */
  predicate EndsRunning(k: Kernel, e: Event)
    requires Shaped(k)
  {
    e.Destroy? && e.pid == Running(k) < PROCESSES
  }

  /** How many events of the run end the running process. */
  ghost function Exits(k: Kernel, es: seq<Event>): nat
    requires Inv(k) && Legal(k, es)
    decreases |es|
  {
    if es == [] then 0 else (if EndsRunning(k, es[0]) then 1 else 0) + Exits(After(k, es[0]), es[1..])
  }

  /** How many interrupts a ready process may still have to wait: its distance from the running
      one, or one more than its slot if none runs, since the scan then begins at slot 0. */
  ghost function Patience(k: Kernel, p: nat): (n: nat)
    requires Shaped(k) && p < PROCESSES
    ensures n <= PROCESSES
  {
    if Running(k) == PROCESSES then p + 1 else Distance(Running(k), p)
  }

  /** A timer interrupt turns to the waiting process or comes closer to it. */
  lemma TickComesCloser(k: Kernel, cpu: Registers, eip: uint32, eflags: uint32, p: nat)
    requires Inv(k) && Inv(Ticked(k, cpu, eip, eflags)) && Running(k) < PROCESSES
    requires p < PROCESSES && k.pidUsed[p] && k.pcbs[p].state == READY
    ensures var k' := Ticked(k, cpu, eip, eflags);
      k'.pcbs[p].state == RUNNING
      || (Running(k') < PROCESSES && k'.pidUsed[p] && k'.pcbs[p].state == READY
          && Distance(Running(k'), p) < Distance(Running(k), p))
  {
    var s := Saved(k, cpu, eip, eflags);
    SaveKeeps(k, cpu, eip, eflags);
    assert Populated(k) && Populated(s) by {
      assert s.pidUsed[Running(k)];
    }
    TickSpares(k, cpu, eip, eflags, p);
    SwitchComesCloser(s, p);
  }

  /** From the place after `r`, reaching `n` no later than `p` leaves `p` nearer. */
  lemma Nearer(r: nat, n: nat, p: nat)
    requires r < PROCESSES && n < PROCESSES && p < PROCESSES && n != p && p != r
    requires Distance(Around(r, 1), n) <= Distance(Around(r, 1), p)
    ensures Distance(n, p) < Distance(r, p)
  {
  }

  lemma SwitchComesCloser(s: Kernel, p: nat)
    requires Inv(s) && Inv(Switched(s)) && Populated(s) && Running(s) < PROCESSES
    requires p < PROCESSES && s.pidUsed[p] && s.pcbs[p].state == READY
    ensures Switched(s).pcbs[p].state == RUNNING
            || (Running(Switched(s)) < PROCESSES && Switched(s).pcbs[p].state == READY
                && Distance(Running(Switched(s)), p) < Distance(Running(s), p))
  {
    var n, r := NextProcess(s), Running(s);
    SwitchChoice(s, p);
    SwitchChoice(s, n);
    if n != p {
      OnlyRunning(Switched(s), n);
      assert PcbOk(s, r) && PcbOk(Switched(s), p);
      SwitchSlot(s, p);
      assert ScanStart(s) == Around(r, 1);
      Nearer(r, n, p);
    }
  }

  /** If nothing runs, an interrupt turns to the waiting process or to one in a slot before it. */
  lemma TickFromNone(k: Kernel, cpu: Registers, eip: uint32, eflags: uint32, p: nat)
    requires Inv(k) && Inv(Ticked(k, cpu, eip, eflags)) && Running(k) == PROCESSES
    requires p < PROCESSES && k.pidUsed[p] && k.pcbs[p].state == READY
    ensures var k' := Ticked(k, cpu, eip, eflags);
      k'.pcbs[p].state == RUNNING
      || (Running(k') < PROCESSES && k'.pidUsed[p] && k'.pcbs[p].state == READY && Distance(Running(k'), p) <= p)
  {
    assert Saved(k, cpu, eip, eflags) == k && Populated(k);
    var n := NextProcess(k);
    TickSpares(k, cpu, eip, eflags, p);
    SwitchChoice(k, p);
    SwitchChoice(k, n);
    if n != p {
      OnlyRunning(Switched(k), n);
      SwitchSlot(k, p);
      assert Distance(0, n) == n && Distance(0, p) == p;
    }
  }

  /** An interrupt brings a ready process to run, or costs it one of the interrupts it may wait. */
  lemma TickCosts(k: Kernel, cpu: Registers, eip: uint32, eflags: uint32, p: nat)
    requires Inv(k) && Inv(Ticked(k, cpu, eip, eflags))
    requires p < PROCESSES && k.pidUsed[p] && k.pcbs[p].state == READY
    ensures var k' := Ticked(k, cpu, eip, eflags);
      k'.pcbs[p].state == RUNNING || (k'.pidUsed[p] && k'.pcbs[p].state == READY && Patience(k', p) < Patience(k, p))
  {
    if Running(k) == PROCESSES {
      TickFromNone(k, cpu, eip, eflags, p);
    } else {
      TickComesCloser(k, cpu, eip, eflags, p);
    }
  }

  /** A process that is not running stays ready through a creation or a destruction of another. */
  lemma OthersKeepReady(k: Kernel, e: Event, p: nat)
    requires Inv(k) && Inv(Apply(k, e)) && !e.Tick?
    requires p < PROCESSES && k.pidUsed[p] && (e.Destroy? ==> e.pid != p)
    ensures Apply(k, e).pidUsed[p] && Apply(k, e).pcbs[p] == k.pcbs[p]
  {
    match e
    case Tick(_, _, _) =>
    case Create(program, readCode) => CreationSpares(k, program, readCode, p);
    case Destroy(pid) => DestructionSpares(k, pid, p);
  }

  /** Creations, and destructions of others, leave the running process running, and start none. */
  lemma OthersKeepRunning(k: Kernel, e: Event)
    requires Inv(k) && Inv(Apply(k, e)) && !e.Tick? && !EndsRunning(k, e)
    ensures Running(Apply(k, e)) == Running(k)
  {
    var r, k' := Running(k), Apply(k, e);
    if r < PROCESSES {
      OthersKeepReady(k, e, r);
      OnlyRunning(k', r);
    } else {
      NoneStarts(k, e);
    }
  }

  /** The processes that run after an event other than an interrupt ran before it. */
  lemma NoneStarts(k: Kernel, e: Event)
    requires Inv(k) && Inv(Apply(k, e)) && !e.Tick? && Running(k) == PROCESSES
    ensures Running(Apply(k, e)) == PROCESSES
  {
    var r := Running(Apply(k, e));
    if r < PROCESSES {
      StateAfter(k, e, r);
      if k.pcbs[r].state == RUNNING {
        OnlyRunning(k, r);
      }
    }
  }

  /** A slot that runs after a creation or destruction was running before. */
  lemma StateAfter(k: Kernel, e: Event, q: nat)
    requires Inv(k) && Inv(Apply(k, e)) && !e.Tick? && q < PROCESSES
    ensures Apply(k, e).pcbs[q].state == RUNNING ==> k.pcbs[q].state == RUNNING && !(e.Destroy? && e.pid == q)
  {
    match e
    case Tick(_, _, _) =>
    case Create(program, readCode) =>
      UnusedNone(k.pidUsed);
    case Destroy(pid) =>
      if pid < PROCESSES && k.pidUsed[pid] {
        assert PcbOk(k, pid);
        DestructionSlot(k, pid, q);
      } else {
        assert PcbOk(k, q);
      }
  }

  /** Once the running process is destroyed none runs. */
  lemma EndedNoneRuns(k: Kernel, e: Event)
    requires Inv(k) && Inv(Apply(k, e)) && EndsRunning(k, e)
    ensures Running(Apply(k, e)) == PROCESSES
  {
    var r := Running(Apply(k, e));
    if r < PROCESSES {
      StateAfter(k, e, r);
      OnlyRunning(k, r);
    }
  }

  /** A ready process that is not destroyed runs within as many interrupts as its patience, and 16
      more for each time the running process ends, whatever else is created or destroyed. */
  lemma {:induction false} BoundedWaiting(k: Kernel, es: seq<Event>, p: nat)
    requires Inv(k) && Legal(k, es) && p < PROCESSES && k.pidUsed[p] && k.pcbs[p].state == READY && Spared(es, p)
    requires Patience(k, p) + PROCESSES * Exits(k, es) <= Ticks(es)
    ensures Runs(k, es, p)
    decreases |es|
  {
    hide TableOk, Isolated, Formed;
    if es != [] {
      var e, k' := es[0], After(k, es[0]);
      assert e in es;
      if e.Tick? {
        TickCosts(k, e.cpu, e.eip, e.eflags, p);
      } else {
        OthersKeepReady(k, e, p);
        if EndsRunning(k, e) {
          EndedNoneRuns(k, e);
        } else {
          OthersKeepRunning(k, e);
        }
      }
      if k'.pcbs[p].state != RUNNING {
        BoundedWaiting(k', es[1..], p);
      }
    }
  }

  /** Where the running process ends at most `m` times, every ready process that is not destroyed
      runs within 16 * (m + 1) interrupts, from any state. */
  lemma NoStarvation(k: Kernel, es: seq<Event>, p: nat, m: nat)
    requires Inv(k) && Legal(k, es) && p < PROCESSES && k.pidUsed[p] && Spared(es, p)
    requires Exits(k, es) <= m && PROCESSES * (m + 1) <= Ticks(es)
    ensures Runs(k, es, p)
  {
    assert PcbOk(k, p);
    if k.pcbs[p].state == READY {
      BoundedWaiting(k, es, p);
    }
  }
}
