/** Why the bound on waiting asks that the running process is not destroyed: without a running
    process the scheduler's scan restarts at slot 0, and slot 0 can win for ever. */
module Starvation {
  import opened Codec
  import opened Paging
  import opened AddressSpaces
  import opened PageManagers
  import opened Processes
  import opened KernelInvariant
  import opened KernelRuns

  /** A program of 1 MiB at address 0, which is what the kernel and the shell ask for. */
  const SMALL: Program := Program(0, 0x10_0000, ZERO_NAME)

  /** Exit of the process in slot 0, start of a new one, timer interrupt; `n` times over. */
  function OneRound(es: seq<Event>): seq<Event> {
    [Destroy(0)] + ([Create(SMALL, 0)] + ([Tick(ZERO_REGISTERS, 0, 0)] + es))
  }

  function Churn(n: nat): seq<Event> {
    if n == 0 then [] else OneRound(Churn(n - 1))
  }

  /** Slot 0 runs, process `p` is ready, and once slot 0 is gone there is a frame to spare. */
  ghost predicate SlotZeroRuns(k: Kernel, p: nat) {
    && Inv(k) && 0 < p < PROCESSES && k.pidUsed[p] && k.pcbs[p].state == READY
    && k.pcbs[0].state == RUNNING && k.pidUsed[0] && Destroyed(k, 0).mem.free >= 1
  }

  /** After the exit, the new process gets slot 0 again. */
  lemma Restarted(k: Kernel, p: nat)
    requires SlotZeroRuns(k, p)
    ensures Inv(Destroyed(k, 0))
    ensures var k1 := Destroyed(k, 0); var k2 := Created(k1, SMALL, 0);
      && Inv(k1) && Inv(k2) && Allowed(k1, Create(SMALL, 0)) && Running(k2) == PROCESSES && Populated(k2)
      && k2.pidUsed[0] && k2.pcbs[0].state == READY && k2.pidUsed[p] && k2.pcbs[p].state == READY
          && k1.pcbs[p].state == READY
      && Destroyed(k2, 0) == k1
  {
    var k1 := Destroyed(k, 0);
    DestructionKeeps(k, 0);
    DestructionSpares(k, 0, p);
    assert PcbOk(k, 0);
    ReleaseShape(k.mem, k.pcbs[0].context.dir.index);
    assert !k1.pidUsed[0] && FirstUnused(k1.pidUsed) == 0;
    assert !k1.mem.used[k.pcbs[0].context.dir.index];
    UnusedNone(k1.pidUsed);
    PopulatedCount(k1);
    assert CreateCode(k1, SMALL, 0) == 0;
    CreationKeeps(k1, SMALL, 0);
    CreationSpares(k1, SMALL, 0, p);
    DestructionUndoesCreation(k1, SMALL, 0);
    NoneRuns(k, k1, p);
  }

  lemma NoneRuns(k: Kernel, k1: Kernel, p: nat)
    requires SlotZeroRuns(k, p) && k1 == Destroyed(k, 0) && Inv(k1) && CreateCode(k1, SMALL, 0) == 0
    requires Shaped(Created(k1, SMALL, 0))
    ensures Running(Created(k1, SMALL, 0)) == PROCESSES
  {
  }

  /** One round leaves everything as it was for the waiting process. */
  lemma ChurnRound(k: Kernel, p: nat) returns (k1: Kernel, k2: Kernel, k3: Kernel)
    requires SlotZeroRuns(k, p)
    ensures Allowed(k, Destroy(0)) && k1 == After(k, Destroy(0)) && k1.pcbs[p].state == READY
    ensures Allowed(k1, Create(SMALL, 0)) && k2 == After(k1, Create(SMALL, 0)) && k2.pcbs[p].state == READY
    ensures Allowed(k2, Tick(ZERO_REGISTERS, 0, 0)) && k3 == After(k2, Tick(ZERO_REGISTERS, 0, 0))
    ensures SlotZeroRuns(k3, p)
  {
    Restarted(k, p);
    k1 := After(k, Destroy(0));
    k2 := After(k1, Create(SMALL, 0));
    assert Saved(k2, ZERO_REGISTERS, 0, 0) == k2 && NextProcess(k2) == 0;
    SwitchKeeps(k2);
    k3 := After(k2, Tick(ZERO_REGISTERS, 0, 0));
    SwitchSlot(k2, 0);
    SwitchSlot(k2, p);
    YieldedOthers(k2, p);
    assert k3.mem == k2.mem && k3.pcbs[0].context == k2.pcbs[0].context;
    assert PcbOk(k2, 0) && PcbOk(k3, 0);
    assert Destroyed(k3, 0).mem == Destroyed(k2, 0).mem;
  }

  /** A run with `n` timer interrupts in which the process never runs. */
  ghost predicate Starves(k: Kernel, es: seq<Event>, p: nat, n: nat) {
    Inv(k) && Legal(k, es) && p < PROCESSES && Ticks(es) == n && !Runs(k, es, p)
  }

  lemma Prepend(k: Kernel, e: Event, k': Kernel, es: seq<Event>, p: nat, n: nat)
    requires Inv(k) && Allowed(k, e) && k' == After(k, e) && p < PROCESSES && k.pcbs[p].state == READY
    requires Starves(k', es, p, n)
    ensures Starves(k, [e] + es, p, if e.Tick? then n + 1 else n)
  {
    hide Inv, Allowed, Apply;
    assert ([e] + es)[1..] == es;
  }

  /** A round before a run in which the process starves. */
  lemma RoundStarves(k: Kernel, k1: Kernel, k2: Kernel, k3: Kernel, es: seq<Event>, p: nat, n: nat)
    requires Inv(k) && p < PROCESSES && k.pcbs[p].state == READY
    requires Allowed(k, Destroy(0)) && k1 == After(k, Destroy(0)) && k1.pcbs[p].state == READY
    requires Allowed(k1, Create(SMALL, 0)) && k2 == After(k1, Create(SMALL, 0)) && k2.pcbs[p].state == READY
    requires Allowed(k2, Tick(ZERO_REGISTERS, 0, 0)) && k3 == After(k2, Tick(ZERO_REGISTERS, 0, 0))
    requires Starves(k3, es, p, n)
    ensures Starves(k, OneRound(es), p, n + 1)
  {
    Prepend(k2, Tick(ZERO_REGISTERS, 0, 0), k3, es, p, n);
    Prepend(k1, Create(SMALL, 0), k2, [Tick(ZERO_REGISTERS, 0, 0)] + es, p, n + 1);
    Prepend(k, Destroy(0), k1, [Create(SMALL, 0)] + ([Tick(ZERO_REGISTERS, 0, 0)] + es), p, n + 1);
  }

  lemma AnotherRound(k: Kernel, p: nat) returns (next: Kernel)
    requires SlotZeroRuns(k, p)
    ensures SlotZeroRuns(next, p)
    ensures forall es, n: nat :: Starves(next, es, p, n) ==> Starves(k, OneRound(es), p, n + 1)
  {
    var k1, k2, k3 := ChurnRound(k, p);
    next := k3;
    forall es, n: nat | Starves(k3, es, p, n)
      ensures Starves(k, OneRound(es), p, n + 1)
    {
      RoundStarves(k, k1, k2, k3, es, p, n);
    }
  }

  /** However many timer interrupts come, the waiting process need not run. */
  lemma {:induction false} WaitsForEver(k: Kernel, p: nat, n: nat)
    requires SlotZeroRuns(k, p)
    ensures Starves(k, Churn(n), p, n)
    decreases n
  {
    if n > 0 {
      var next := AnotherRound(k, p);
      WaitsForEver(next, p, n - 1);
    }
  }

  /** A small program can be started while there is a pid, a directory and a frame left. */
  lemma SmallStarts(k: Kernel)
    requires Inv(k) && k.active < PROCESSES && FirstUnused(k.mem.used) < DIRECTORIES && k.mem.free >= 1
    ensures CreateCode(k, SMALL, 0) == 0 && FirstUnused(k.pidUsed) < PROCESSES && Allowed(k, Create(SMALL, 0))
  {
    UnusedNone(k.pidUsed);
  }

  lemma SmallStarted(k: Kernel)
    requires Inv(k) && CreateCode(k, SMALL, 0) == 0 && FirstUnused(k.pidUsed) < PROCESSES
           && Allowed(k, Create(SMALL, 0))
    ensures var k', p := After(k, Create(SMALL, 0)), FirstUnused(k.pidUsed);
      && k'.pidUsed == k.pidUsed[p := true] && k'.active == k.active + 1 && k'.mem.free == k.mem.free - 1
      && k'.mem.used == k.mem.used[FirstUnused(k.mem.used) := true]
      && k'.pcbs[p].state == READY && forall q :: 0 <= q < PROCESSES && q != p ==> k'.pcbs[q] == k.pcbs[q]
  {
    hide Isolated, TableOk, NewSpace;
    CreationFills(k, SMALL, 0);
    CreationTakes(k, SMALL, 0);
  }

  /** No process, no directory of the pool in use. */
  ghost predicate Idle(k: Kernel) {
    && Inv(k) && k.active == 0 && k.mem.free >= 3
    && (forall p :: 0 <= p < PROCESSES ==> !k.pidUsed[p])
    && (forall d :: 0 <= d < DIRECTORIES ==> !k.mem.used[d])
  }

  lemma IdleSlot(k: Kernel, p: nat)
    requires Idle(k) && p < PROCESSES
    ensures k.pcbs[p] == ZERO_PCB
  {
    assert PcbOk(k, p);
  }

  /** Two small programs, started one after the other. */
  lemma TwoStarted(k: Kernel) returns (k1: Kernel, k2: Kernel)
    requires Idle(k)
    ensures Allowed(k, Create(SMALL, 0)) && k1 == After(k, Create(SMALL, 0))
    ensures Allowed(k1, Create(SMALL, 0)) && k2 == After(k1, Create(SMALL, 0))
    ensures k2.pidUsed[0] && k2.pidUsed[1] && k2.mem.free >= 1
    ensures k2.pcbs[0].state == READY && k2.pcbs[1].state == READY
    ensures forall p :: 2 <= p < PROCESSES ==> k2.pcbs[p].state == BLOCKED
  {
    hide Isolated, OneRuns, OwnDirectories, Apply;
    assert FirstUnused(k.pidUsed) == 0 && FirstUnused(k.mem.used) == 0;
    SmallStarts(k);
    SmallStarted(k);
    k1 := After(k, Create(SMALL, 0));
    assert FirstUnused(k1.pidUsed) == 1 && FirstUnused(k1.mem.used) == 1;
    SmallStarts(k1);
    SmallStarted(k1);
    k2 := After(k1, Create(SMALL, 0));
    forall p | 2 <= p < PROCESSES
      ensures k2.pcbs[p].state == BLOCKED
    {
      assert k2.pcbs[p] == k.pcbs[p];
      IdleSlot(k, p);
    }
  }

  lemma FirstTick(k: Kernel)
    requires Inv(k) && k.pidUsed[0] && k.pidUsed[1] && k.mem.free >= 1
    requires k.pcbs[0].state == READY && k.pcbs[1].state == READY
    requires forall p :: 2 <= p < PROCESSES ==> k.pcbs[p].state == BLOCKED
    ensures Allowed(k, Tick(ZERO_REGISTERS, 0, 0)) && SlotZeroRuns(After(k, Tick(ZERO_REGISTERS, 0, 0)), 1)
  {
    assert Running(k) == PROCESSES;
    assert Populated(k) by {
      assert k.pidUsed[0];
    }
    FirstRuns(k);
  }

  ghost predicate Reaches(k: Kernel, last: Kernel)
    requires Inv(k)
  {
    exists es :: Legal(k, es) && Run(k, es) == last
  }

  lemma ReachesSelf(k: Kernel)
    requires Inv(k)
    ensures Reaches(k, k)
  {
    assert Legal(k, []) && Run(k, []) == k;
  }

  lemma StepReaches(k: Kernel, e: Event, k': Kernel, last: Kernel)
    requires Inv(k) && Allowed(k, e) && k' == After(k, e) && Reaches(k', last)
    ensures Reaches(k, last)
  {
    hide Inv, Allowed, Apply;
    var es :| Legal(k', es) && Run(k', es) == last;
    assert ([e] + es)[1..] == es;
    assert Legal(k, [e] + es) && Run(k, [e] + es) == last;
  }

  /** Such a state is reached from an idle kernel by two small programs and one interrupt. */
  lemma SlotZeroFrom(k: Kernel)
    requires Idle(k)
    ensures exists last :: Reaches(k, last) && SlotZeroRuns(last, 1)
  {
    var k1, k2 := TwoStarted(k);
    FirstTick(k2);
    var k3 := After(k2, Tick(ZERO_REGISTERS, 0, 0));
    ReachesSelf(k3);
    StepReaches(k2, Tick(ZERO_REGISTERS, 0, 0), k3, k3);
    StepReaches(k1, Create(SMALL, 0), k2, k3);
    StepReaches(k, Create(SMALL, 0), k1, k3);
  }

  lemma InitialIdle()
    ensures Idle(InitialKernel())
  {
    InitialInv();
  }

  /** The kernel reaches such a state from its start. */
  lemma SlotZeroReached()
    ensures Inv(InitialKernel()) && exists last :: Reaches(InitialKernel(), last) && SlotZeroRuns(last, 1)
  {
    hide InitialKernel;
    InitialIdle();
    SlotZeroFrom(InitialKernel());
  }

  lemma FirstRuns(k: Kernel)
    requires Inv(k) && Populated(k) && k.pidUsed[0] && k.pidUsed[1] && k.pcbs[1].state == READY && k.mem.free >= 1
    requires Saved(k, ZERO_REGISTERS, 0, 0) == k && NextProcess(k) == 0
    ensures SlotZeroRuns(After(k, Tick(ZERO_REGISTERS, 0, 0)), 1)
  {
    var k' := After(k, Tick(ZERO_REGISTERS, 0, 0));
    SwitchSlot(k, 0);
    SwitchSlot(k, 1);
    YieldedOthers(k, 1);
    assert PcbOk(k', 0);
    ReleaseShape(k'.mem, k'.pcbs[0].context.dir.index);
    MoreUnused(k'.mem.frames, Released(k'.mem, k'.pcbs[0].context.dir.index).frames);
  }

  lemma {:induction false} MoreUnused(s: seq<bool>, t: seq<bool>)
    requires |s| == |t| && forall i :: 0 <= i < |s| && t[i] ==> s[i]
    ensures Unused(s) <= Unused(t)
  {
    if s != [] {
      MoreUnused(s[..|s| - 1], t[..|s| - 1]);
    }
  }
}
