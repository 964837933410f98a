/** Processes: their control blocks, creation and destruction, and the scheduler's choice, as
    functions on the state of the kernel. */
module Processes {
  import opened Codec
  import opened Paging
  import opened AddressSpaces
  import opened PageManagers
  import opened Options

  const PROCESSES: nat := 16
  const KERNEL_BASE: uint32 := 0xC000_0000
  const USER_SEGMENT: uint32 := 0x20

  datatype ProcessState = BLOCKED | READY | RUNNING

  datatype Registers = Registers(edi: uint32, esi: uint32, ebp: uint32, esp: uint32,
                                 ebx: uint32, edx: uint32, ecx: uint32, eax: uint32,
                                 gs: uint32, fs: uint32, es: uint32, ds: uint32)

  datatype Context = Context(cpu: Registers, eip: uint32, eflags: uint32, dir: DirectoryAddress)

  datatype Pcb = Pcb(pid: uint32, state: ProcessState, name: Name, context: Context,
                     virtualAddrUsed: seq<uint32>, frameCount: uint32)

  const ZERO_REGISTERS: Registers := Registers(0, 0, 0, 0, 0, 0, 0, 0, 0, 0, 0, 0)
  const ZERO_NAME: Name := [0, 0, 0, 0, 0, 0, 0, 0]

  /** A control block filled with zeros. */
  const ZERO_PCB: Pcb := Pcb(0, BLOCKED, ZERO_NAME, Context(ZERO_REGISTERS, 0, 0, NoDirectory), [0, 0, 0, 0, 0, 0, 0, 0], 0)

  /** Memory, the process table, the directory in use, and the context last loaded. */
  datatype Kernel = Kernel(mem: Memory, pcbs: seq<Pcb>, pidUsed: seq<bool>, active: uint32,
                           cr3: DirectoryAddress, loaded: Option<Context>)

  /** A request to run a program: where it goes, its size and its name. */
  datatype Program = Program(buf: uint32, size: uint32, name: Name)

  /** The tables have their sizes and the counter counts the pids in use. */
  ghost predicate Shaped(k: Kernel) {
    && Formed(k.mem) && |k.pcbs| == PROCESSES && |k.pidUsed| == PROCESSES
    && (forall p :: 0 <= p < PROCESSES ==> |k.pcbs[p].virtualAddrUsed| == MAX_PROCESS_FRAMES)
    && k.active == PROCESSES - Unused(k.pidUsed)
  }

  // ---- creation and destruction -------------------------------------------------------------

  /** 0 success, 1 too many processes, 2 entry point in the kernel's half, 3 not enough memory,
      4 the program could not be read. */
  function CreateCode(k: Kernel, program: Program, readCode: int): int
    requires Formed(k.mem)
  {
    if k.active >= PROCESSES then 1
    else if program.buf >= KERNEL_BASE then 2
    else if k.mem.free < RequiredFrames(program.size) || RequiredFrames(program.size) > MAX_PROCESS_FRAMES then 3
    else if FirstUnused(k.mem.used) == DIRECTORIES then 3
    else if readCode != 0 then 4
    else 0
  }

  /** The interrupt flag and the flag that is always one are set. */
  function WithBaseFlags(eflags: uint32): uint32 {
    var f := if eflags / 2 % 2 == 0 then eflags + 2 else eflags;
    if f / 512 % 2 == 0 then (f + 512) % 0x1_0000_0000 else f
  }

  function PagesUsed(before: seq<uint32>, address: uint32, n: nat): (s: seq<uint32>)
    requires |before| == MAX_PROCESS_FRAMES
  {
    seq(MAX_PROCESS_FRAMES, i requires 0 <= i < MAX_PROCESS_FRAMES => if i < n then PagesOn(address, i) else before[i])
  }

  /** A control block set up for a new process. */
  function NewPcb(b: Pcb, p: nat, d: nat, program: Program): Pcb
    requires p < PROCESSES && |b.virtualAddrUsed| == MAX_PROCESS_FRAMES
  {
    var n := RequiredFrames(program.size);
    var cpu := b.context.cpu.(ds := USER_SEGMENT, es := USER_SEGMENT, fs := USER_SEGMENT, gs := USER_SEGMENT, esp := 0x40_0000);
    Pcb(p, READY, program.name, Context(cpu, b.context.eip, WithBaseFlags(b.context.eflags), DirectoryAt(d)),
        PagesUsed(b.virtualAddrUsed, program.buf, n), n)
  }

  function Created(k: Kernel, program: Program, readCode: int): Kernel
    requires Shaped(k)
  {
    var code := CreateCode(k, program, readCode);
    if 1 <= code <= 3 then k
    else
      var mem := NewSpace(k.mem, program.buf, RequiredFrames(program.size));
      if code == 4 then k.(mem := mem)
      else
        UnusedNone(k.pidUsed);
        var p := FirstUnused(k.pidUsed);
        k.(mem := mem, pcbs := k.pcbs[p := NewPcb(k.pcbs[p], p, FirstUnused(k.mem.used), program)],
           pidUsed := k.pidUsed[p := true], active := k.active + 1)
  }

  /** The directory pointer is one of the pool's. */
  predicate Pooled(dir: DirectoryAddress) {
    dir.DirectoryAt? && dir.index < DIRECTORIES
  }

  function Destroyed(k: Kernel, pid: uint32): Kernel
    requires Shaped(k)
  {
    if pid >= PROCESSES || !k.pidUsed[pid] then k
    else if !Pooled(k.pcbs[pid].context.dir) then k.(pcbs := k.pcbs[pid := k.pcbs[pid].(state := BLOCKED)])
    else k.(mem := Released(k.mem, k.pcbs[pid].context.dir.index), pcbs := k.pcbs[pid := ZERO_PCB],
            pidUsed := k.pidUsed[pid := false], active := Decrement(k.active))
  }

  // ---- scheduling ---------------------------------------------------------------------------

  /** The first process in use that is running; `PROCESSES` if there is none. */
  function RunningFrom(k: Kernel, i: nat): (r: nat)
    requires Shaped(k) && i <= PROCESSES
    ensures i <= r <= PROCESSES && (r < PROCESSES ==> k.pidUsed[r] && k.pcbs[r].state == RUNNING)
    ensures forall p :: i <= p < r ==> !(k.pidUsed[p] && k.pcbs[p].state == RUNNING)
    decreases PROCESSES - i
  {
    if i == PROCESSES || (k.pidUsed[i] && k.pcbs[i].state == RUNNING) then i else RunningFrom(k, i + 1)
  }

  function Running(k: Kernel): (r: nat)
    requires Shaped(k)
  {
    RunningFrom(k, 0)
  }

  /** The running process keeps the registers it was interrupted with. */
  function Saved(k: Kernel, cpu: Registers, eip: uint32, eflags: uint32): Kernel
    requires Shaped(k)
  {
    var r := Running(k);
    if r == PROCESSES then k
    else k.(pcbs := k.pcbs[r := k.pcbs[r].(context := k.pcbs[r].context.(cpu := cpu, eip := eip, eflags := eflags))])
  }

  /** `m` places on, around the table. */
  function Around(i: nat, m: nat): (p: nat)
    requires i < PROCESSES && m <= PROCESSES
    ensures p < PROCESSES && p == (i + m) % 16
  {
    if i + m < PROCESSES then i + m else i + m - PROCESSES
  }

  /** How many places `p` is ahead of `i`, around the table. */
  function Distance(i: nat, p: nat): (m: nat)
    requires i < PROCESSES && p < PROCESSES
    ensures m < PROCESSES && Around(i, m) == p
  {
    if p >= i then p - i else p + PROCESSES - i
  }

  /** The number of places from `i`, around the table, to the first ready process; `n` if none is
      seen in `n` steps. */
  function StepsToReady(pcbs: seq<Pcb>, i: nat, n: nat): (s: nat)
    requires |pcbs| == PROCESSES && i < PROCESSES && n <= PROCESSES
    ensures s <= n && (s < n ==> pcbs[Around(i, s)].state == READY)
    ensures forall p :: 0 <= p < PROCESSES && Distance(i, p) < s ==> pcbs[p].state != READY
    decreases n
  {
    if n == 0 || pcbs[i].state == READY then 0 else 1 + StepsToReady(pcbs, Around(i, 1), n - 1)
  }

  /** Where the scan begins, with the running process put back among the ready ones. */
  function ScanStart(k: Kernel): nat
    requires Shaped(k)
  {
    var r := Running(k);
    if r == PROCESSES then 0 else (k.pcbs[r].pid + 1) % 16
  }

  function Yielded(k: Kernel): seq<Pcb>
    requires Shaped(k)
  {
    var r := Running(k);
    if r == PROCESSES then k.pcbs else k.pcbs[r := k.pcbs[r].(state := READY)]
  }

  /** The process a switch turns to. */
  function NextProcess(k: Kernel): (p: nat)
    requires Shaped(k)
    ensures p < PROCESSES
  {
    Around(ScanStart(k), StepsToReady(Yielded(k), ScanStart(k), PROCESSES))
  }

  function Switched(k: Kernel): Kernel
    requires Shaped(k)
  {
    var p, pcbs := NextProcess(k), Yielded(k);
    k.(pcbs := pcbs[p := pcbs[p].(state := RUNNING)], cr3 := pcbs[p].context.dir, loaded := Some(pcbs[p].context))
  }

  lemma SavedShaped(k: Kernel, cpu: Registers, eip: uint32, eflags: uint32)
    requires Shaped(k)
    ensures Shaped(Saved(k, cpu, eip, eflags))
  {
  }

  lemma SwitchedShaped(k: Kernel)
    requires Shaped(k)
    ensures Shaped(Switched(k))
  {
  }

  /** A timer interrupt: save, then switch. */
  function Ticked(k: Kernel, cpu: Registers, eip: uint32, eflags: uint32): Kernel
    requires Shaped(k)
  {
    SavedShaped(k, cpu, eip, eflags);
    Switched(Saved(k, cpu, eip, eflags))
  }
}
