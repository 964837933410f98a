/** Inputs at which properties of the kernel that one might expect do not hold. */
module KernelWitnesses {
  import opened Codec
  import opened Paging
  import opened AddressSpaces
  import opened PageManagers
  import opened Processes
  import opened KernelInvariant
  import opened KernelRuns
  import opened Starvation

  /** A program of 1 MiB one page above address 0. */
  const HIGH: Program := Program(0x40_0000, 0x10_0000, ZERO_NAME)

  /** A program so large that the rounding up of its size wraps around, and no frame is asked for. */
  const HUGE: Program := Program(0, 0xFFFF_FFFF, ZERO_NAME)

  /** An interrupt before any process exists breaks the process table. */
  lemma TickTooEarly(cpu: Registers, eip: uint32, eflags: uint32)
    ensures Inv(InitialKernel()) && Shaped(Ticked(InitialKernel(), cpu, eip, eflags))
    ensures !Inv(Ticked(InitialKernel(), cpu, eip, eflags))
  {
    hide InitialKernel;
    InitialIdle();
    TickOfIdle(InitialKernel(), cpu, eip, eflags);
  }

  lemma TickOfIdle(k: Kernel, cpu: Registers, eip: uint32, eflags: uint32)
    requires Idle(k)
    ensures Shaped(Ticked(k, cpu, eip, eflags)) && !Inv(Ticked(k, cpu, eip, eflags))
  {
    SavedShaped(k, cpu, eip, eflags);
    SwitchedShaped(Saved(k, cpu, eip, eflags));
    EventKeeps(k, Tick(cpu, eip, eflags));
    assert !Allowed(k, Tick(cpu, eip, eflags));
  }

  /** Programs that do not cover slot 0 start, the invariant is lost, and when they end frame 0 is
      the next to be handed out. */
  lemma OffSlotZero(program: Program)
    requires program == HIGH || program == HUGE
    ensures Inv(InitialKernel()) && CreateCode(InitialKernel(), program, 0) == 0
    ensures Shaped(Created(InitialKernel(), program, 0)) && !Inv(Created(InitialKernel(), program, 0))
    ensures FirstUnused(Destroyed(Created(InitialKernel(), program, 0), 0).mem.frames) == 0
  {
    hide InitialKernel;
    InitialIdle();
    OffSlotZeroFrom(InitialKernel(), program);
  }

  lemma OffSlotZeroFrom(k: Kernel, program: Program)
    requires Idle(k) && (program == HIGH || program == HUGE)
    ensures CreateCode(k, program, 0) == 0 && Shaped(Created(k, program, 0)) && !Inv(Created(k, program, 0))
    ensures FirstUnused(Destroyed(Created(k, program, 0), 0).mem.frames) == 0
  {
    assert FirstUnused(k.pidUsed) == 0 && FirstUnused(k.mem.used) == 0;
    CreatedShaped(k, program, 0);
    CreationKeeps(k, program, 0);
    CreationCostsKernelFrame(k, program, 0);
  }
}
