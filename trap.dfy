/**
 * Trap handling on one RISC-V hart: classifying `scause`, dispatching device
 * interrupts, the user-trap path (`usertrap` / `usertrapret`) and the
 * kernel-trap path (`kerneltrap`).  The supervisor CSRs and the current
 * process's trapframe are fields of a `Hart`; calls into code outside this
 * file (syscall, yield, exit, device handlers, the PLIC) are events appended
 * to a trace, and their results are parameters.
 */
module Trap {
  import opened Common

  // ---------------------------------------------------------------------------
  // Platform constants
  // ---------------------------------------------------------------------------

  /**
   * The `sstatus` CSR: its SIE bit (device interrupts enabled), SPIE bit
   * (interrupts enabled after `sret`) and SPP bit (the trap came from
   * supervisor mode), which the trap code reads and writes one by one, and
   * the rest of the register, which it only saves and restores.
   */
  datatype Sstatus = Sstatus(sie: bool, spie: bool, spp: bool, rest: u64)

  /**
   * The board constants the trap code relies on: the PLIC numbers of the
   * UART and the virtio disk, and the addresses `stvec` is set to.
   */
  datatype Platform = Platform(
    uart0Irq: int,
    virtio0Irq: int,
    /** the address of `kernelvec` */
    kernelvec: u64,
    /** TRAMPOLINE + (uservec - trampoline) */
    uservec: u64,
    /** the address of `usertrap` */
    usertrapAddr: u64)
  {
    /** Two distinct nonzero device IRQs. */
    predicate WellFormed()
    {
      uart0Irq != 0 && virtio0Irq != 0 && uart0Irq != virtio0Irq
    }
  }

  /** A 64-bit register or address (uint64). */
  newtype u64 = x: int | 0 <= x < 0x1_0000_0000_0000_0000

  /** uint64 addition, which wraps around modulo 2^64. */
  function Add64(a: u64, b: u64): u64
  {
    ((a as int + b as int) % TWO64) as u64
  }

  /** PGSIZE as a 64-bit quantity, for address arithmetic. */
  const PAGE_BYTES: u64 := 4096

  /** The SSIP bit of `sip`: a pending supervisor software interrupt. */
  const SSIP: bv64 := 2

  /** Bit 63 of `scause`: the trap is an interrupt. */
  const INTERRUPT: bv64 := 0x8000_0000_0000_0000

  /** `scause` of an environment call from user mode. */
  const ECALL_FROM_U: bv64 := 8

  /** `scause` of the supervisor software interrupt the machine-mode timer handler raises. */
  const TIMER_SCAUSE: bv64 := 0x8000_0000_0000_0001

  // ---------------------------------------------------------------------------
  // What the trap code does outside this file
  // ---------------------------------------------------------------------------

  /** A call out of the trap code, or a line it prints. */
  datatype Event =
    | Syscall(intrOn: bool)
    | Yield
    | Exit(status: int)
    | UartIntr
    | VirtioDiskIntr
    | UnexpectedIrq(irq: int)
    | PlicComplete(irq: int)
    | UnexpectedScause(scause: bv64, pid: int, sepc: u64, stval: u64)
    | KernelTrapReport(scause: bv64, sepc: u64, stval: u64)
    | ReturnToUser(pagetable: u64)

  /**
   * What `yield` leaves behind: `sepc` and `sstatus` after other traps ran
   * meanwhile, and `tp`, the id of the hart the process resumes on.
   */
  datatype YieldEffect = YieldEffect(sepc: u64, sstatus: Sstatus, tp: u64)

  /** How `usertrap` ends: back in user space, in `exit`, or in `panic`. */
  datatype Outcome = ReturnedToUser | Exited(code: int) | Halted(msg: string)

  /** The trapframe fields the trap code reads and writes. */
  datatype Trapframe = Trapframe(
    kernelSatp: u64,
    kernelSp: u64,
    kernelTrap: u64,
    epc: u64,
    kernelHartid: u64)

  // ---------------------------------------------------------------------------
  // Pure decisions
  // ---------------------------------------------------------------------------

  /**
   * devintr's classification of `scause`: 1 for a supervisor external
   * interrupt (bit 63 set, code 9), 2 for the timer's software interrupt,
   * 0 for anything else.  The three cases exclude each other.
   */
  function DevClass(scause: bv64): (which: int)
    ensures which == 1 <==> scause & INTERRUPT != 0 && scause & 0xff == 9
    ensures which == 2 <==> scause == TIMER_SCAUSE
    ensures which == 0 <==> !(scause & INTERRUPT != 0 && scause & 0xff == 9) && scause != TIMER_SCAUSE
    ensures 0 <= which <= 2
  {
    if scause & INTERRUPT != 0 && scause & 0xff == 9 then 1
    else if scause == TIMER_SCAUSE then 2
    else 0
  }

  /**
   * The calls devintr makes for a claimed PLIC interrupt `irq`: the UART or
   * disk handler, or a report of an unknown device, then the completion of
   * a nonzero claim.
   */
  function ClaimEvents(irq: int, plat: Platform): (evs: seq<Event>)
    requires plat.WellFormed()
    ensures PlicComplete(irq) in evs <==> irq != 0
    ensures irq != 0 ==> evs[|evs| - 1] == PlicComplete(irq) && PlicComplete(irq) !in evs[..|evs| - 1]
    ensures irq == 0 ==> evs == []
    ensures UartIntr in evs <==> irq == plat.uart0Irq
    ensures VirtioDiskIntr in evs <==> irq == plat.virtio0Irq
    ensures UnexpectedIrq(irq) in evs <==> irq != 0 && irq != plat.uart0Irq && irq != plat.virtio0Irq
    ensures |evs| <= 2 && Yield !in evs
  {
    var handler :=
      if irq == plat.uart0Irq then [UartIntr]
      else if irq == plat.virtio0Irq then [VirtioDiskIntr]
      else if irq != 0 then [UnexpectedIrq(irq)]
      else [];
    handler + (if irq != 0 then [PlicComplete(irq)] else [])
  }

  /** Acknowledging the timer's software interrupt: SSIP clear, every other bit of `sip` kept. */
  function AckSoftware(sip: bv64): (r: bv64)
    ensures r & SSIP == 0
    ensures r & !SSIP == sip & !SSIP
  {
    sip & !SSIP
  }

  /** `ticks++` on a 32-bit unsigned counter: one more, wrapping to 0 after 2^32 - 1. */
  function NextTick(t: nat): (u: nat)
    requires t < TWO32
    ensures u < TWO32
    ensures t < TWO32 - 1 ==> u == t + 1
    ensures t == TWO32 - 1 ==> u == 0
  {
    (t + 1) % TWO32
  }

  /**
   * The `sstatus` usertrapret writes: SPP clear (the next `sret` goes to
   * user mode), SPIE set (interrupts on in user mode), SIE clear (the
   * intr_off before `stvec` changes), every other bit kept.
   */
  function ReturnStatus(s: Sstatus): Sstatus
  {
    s.(sie := false, spp := false, spie := true)
  }

  // ---------------------------------------------------------------------------
  // The hart
  // ---------------------------------------------------------------------------

  /** One hart's trap-related CSRs, the global tick count, and the current process. */
  class Hart {
    const plat: Platform

    var sstatus: Sstatus
    var sepc: u64
    var scause: bv64
    var stval: u64
    var sip: bv64
    var stvec: u64
    var satp: u64
    /** `tp` holds the hart id; cpuid() reads it. */
    var tp: u64
    /** The global `ticks`, a 32-bit unsigned counter. */
    var ticks: nat

    /** myproc() != 0 */
    var hasProc: bool
    /** myproc()->state == RUNNING */
    var running: bool
    var killed: bool
    var pid: int
    var kstack: u64
    var pagetable: u64
    var tf: Trapframe

    /** Calls made and lines printed, oldest first. */
    var trace: seq<Event>

    constructor(plat: Platform)
      requires plat.WellFormed()
      ensures this.plat == plat && trace == []
    {
      this.plat := plat;
      trace := [];
    }

    /** trapinithart: kernel traps go to `kernelvec`. */
    method TrapInitHart()
      modifies `stvec
      ensures stvec == plat.kernelvec
    {
      stvec := plat.kernelvec;
    }

    /** clockintr: one more tick. */
    method ClockIntr()
      requires ticks < TWO32
      modifies `ticks
      ensures ticks == NextTick(old(ticks))
    {
      ticks := (ticks + 1) % TWO32;
    }

    /**
     * yield: other processes run; traps meanwhile leave `sepc` and `sstatus`
     * as `e` says, and the process may resume on another hart, `e.tp`.
     */
    method DoYield(e: YieldEffect)
      modifies `trace, `sepc, `sstatus, `tp
      ensures trace == old(trace) + [Yield]
      ensures sepc == e.sepc && sstatus == e.sstatus && tp == e.tp
    {
      trace := trace + [Yield];
      sepc, sstatus, tp := e.sepc, e.sstatus, e.tp;
    }

    /**
     * devintr, with `irq` the number plic_claim returns: handles an external
     * or timer interrupt and says which kind it was.  Only hart 0 counts
     * ticks; a timer interrupt is acknowledged by clearing SSIP alone.
     */
    method DevIntr(irq: int) returns (which: int)
      requires plat.WellFormed() && ticks < TWO32
      modifies `trace, `ticks, `sip
      ensures which == DevClass(scause)
      ensures trace == old(trace) + (if which == 1 then ClaimEvents(irq, plat) else [])
      ensures ticks == if which == 2 && tp == 0 then NextTick(old(ticks)) else old(ticks)
      ensures sip == if which == 2 then AckSoftware(old(sip)) else old(sip)
    {
      which := DevClass(scause);
      if which == 1 {
        if irq == plat.uart0Irq {
          trace := trace + [UartIntr];
        } else if irq == plat.virtio0Irq {
          trace := trace + [VirtioDiskIntr];
        } else if irq != 0 {
          trace := trace + [UnexpectedIrq(irq)];
        }
        if irq != 0 {
          trace := trace + [PlicComplete(irq)];
        }
      } else if which == 2 {
        if tp == 0 {
          ClockIntr();
        }
        sip := AckSoftware(sip);
      }
    }

    /**
     * The trapframe fields usertrapret fills in for the next trap from user
     * space: the kernel page table, the top of the process's kernel stack,
     * `usertrap`, and the hart id.
     */
    function ReturnFrame(t: Trapframe): Trapframe
      reads this
    {
      t.(kernelSatp := satp, kernelSp := Add64(kstack, PAGE_BYTES),
         kernelTrap := plat.usertrapAddr, kernelHartid := tp)
    }

    /**
     * usertrapret: traps go to the trampoline again, the trapframe records
     * the kernel's page table, stack, trap handler and hart id, the next
     * `sret` drops to user mode with interrupts enabled, at the saved pc.
     */
    method UserTrapRet()
      requires plat.WellFormed()
      modifies `sstatus, `stvec, `tf, `sepc, `trace
      ensures stvec == plat.uservec
      ensures tf == ReturnFrame(old(tf))
      ensures sstatus == ReturnStatus(old(sstatus))
      ensures !sstatus.spp && sstatus.spie && !sstatus.sie && sstatus.rest == old(sstatus).rest
      ensures sepc == tf.epc == old(tf.epc)
      ensures trace == old(trace) + [ReturnToUser(pagetable)]
    {
      sstatus := sstatus.(sie := false);
      stvec := plat.uservec;
      tf := tf.(kernelSatp := satp, kernelSp := Add64(kstack, PAGE_BYTES),
                kernelTrap := plat.usertrapAddr, kernelHartid := tp);
      var x := sstatus;
      x := x.(spp := false);
      x := x.(spie := true);
      sstatus := x;
      sepc := tf.epc;
      trace := trace + [ReturnToUser(pagetable)];
    }

    /**
     * usertrap, for a trap taken from user mode.  `irq` is what plic_claim
     * would return, `syscallKills` whether the system call left the process
     * killed, `afterYield` what a yield leaves in the trap registers and
     * which hart the process resumes on.
     */
    method UserTrap(irq: int, syscallKills: bool, afterYield: YieldEffect) returns (out: Outcome)
      requires plat.WellFormed() && ticks < TWO32 && hasProc
      modifies `stvec, `tf, `sstatus, `sepc, `trace, `killed, `ticks, `sip, `tp
      // a trap that did not come from user mode
      ensures old(sstatus).spp ==>
        out == Halted("usertrap: not from user mode") && unchanged(this)
      // only a timer interrupt counts a tick (on hart 0) and clears SSIP
      ensures !old(sstatus).spp ==>
        ticks == (if DevClass(old(scause)) == 2 && old(tp) == 0 then NextTick(old(ticks)) else old(ticks)) &&
        sip == (if DevClass(old(scause)) == 2 then AckSoftware(old(sip)) else old(sip))
      // only the yield after a timer interrupt may move the process to another hart
      ensures !old(sstatus).spp ==>
        tp == (if old(scause) != ECALL_FROM_U && DevClass(old(scause)) == 2 && !old(killed) then afterYield.tp else old(tp))
      // every exit leaves the kernel's trap vector, the saved pc and the registers as they were
      ensures !old(sstatus).spp && out.Exited? ==>
        out == Exited(-1) && killed && stvec == plat.kernelvec && sepc == old(sepc) &&
        tf == old(tf).(epc := if old(scause) == ECALL_FROM_U && !old(killed) then Add64(old(sepc), 4) else old(sepc)) &&
        sstatus == (if old(scause) == ECALL_FROM_U && !old(killed) then old(sstatus).(sie := true) else old(sstatus))
      // every return to user space goes through usertrapret
      ensures !old(sstatus).spp && out == ReturnedToUser ==>
        stvec == plat.uservec && sepc == tf.epc && !killed &&
        tf == ReturnFrame(old(tf).(epc := tf.epc))
      // a system call from a process already killed: exit before the call
      ensures !old(sstatus).spp && old(scause) == ECALL_FROM_U && old(killed) ==>
        out == Exited(-1) && trace == old(trace) + [Exit(-1)]
      // a system call: it runs with interrupts on and returns past the ecall
      ensures !old(sstatus).spp && old(scause) == ECALL_FROM_U && !old(killed) ==>
        tf.epc == Add64(old(sepc), 4) && killed == syscallKills &&
        (syscallKills ==>
          out == Exited(-1) && trace == old(trace) + [Syscall(true), Exit(-1)]) &&
        (!syscallKills ==>
          out == ReturnedToUser && sstatus == ReturnStatus(old(sstatus)) &&
          trace == old(trace) + [Syscall(true)] + [ReturnToUser(pagetable)])
      // an unrecognised cause kills the process
      ensures !old(sstatus).spp && old(scause) != ECALL_FROM_U && DevClass(old(scause)) == 0 ==>
        out == Exited(-1) &&
        trace == old(trace) + [UnexpectedScause(old(scause), old(pid), old(sepc), old(stval)), Exit(-1)]
      // a device interrupt; only a timer interrupt yields
      ensures !old(sstatus).spp && old(scause) != ECALL_FROM_U && DevClass(old(scause)) != 0 ==>
        var dev := if DevClass(old(scause)) == 1 then ClaimEvents(irq, plat) else [];
        killed == old(killed) && tf.epc == old(sepc) &&
        (old(killed) ==> out == Exited(-1) && trace == old(trace) + dev + [Exit(-1)]) &&
        (!old(killed) ==>
          out == ReturnedToUser &&
          trace == old(trace) + dev + (if DevClass(old(scause)) == 2 then [Yield, ReturnToUser(pagetable)] else [ReturnToUser(pagetable)]) &&
          sstatus == ReturnStatus(if DevClass(old(scause)) == 2 then afterYield.sstatus else old(sstatus)) &&
          tf.kernelHartid == (if DevClass(old(scause)) == 2 then afterYield.tp else old(tp)))
      ensures !old(sstatus).spp ==> out.Exited? || out == ReturnedToUser
    {
      if sstatus.spp {
        return Halted("usertrap: not from user mode");
      }
      stvec := plat.kernelvec;
      tf := tf.(epc := sepc);
      if scause == ECALL_FROM_U {
        out := UserTrapSyscall(syscallKills, afterYield);
        return;
      }
      out := UserTrapDevice(irq, afterYield);
    }

    /** usertrap from its `scause == 8` test on: a system call. */
    method UserTrapSyscall(syscallKills: bool, afterYield: YieldEffect) returns (out: Outcome)
      requires plat.WellFormed()
      modifies `tf, `sstatus, `trace, `killed, `sepc, `stvec, `tp
      ensures tp == old(tp)
      ensures old(killed) ==>
        out == Exited(-1) && trace == old(trace) + [Exit(-1)] && killed &&
        tf == old(tf) && stvec == old(stvec) && sstatus == old(sstatus) && sepc == old(sepc)
      ensures !old(killed) ==> tf.epc == Add64(old(tf.epc), 4) && killed == syscallKills
      ensures !old(killed) && syscallKills ==>
        out == Exited(-1) && trace == old(trace) + [Syscall(true), Exit(-1)] &&
        tf == old(tf).(epc := Add64(old(tf.epc), 4)) && stvec == old(stvec) &&
        sstatus == old(sstatus).(sie := true) && sepc == old(sepc)
      ensures !old(killed) && !syscallKills ==>
        out == ReturnedToUser && trace == old(trace) + [Syscall(true)] + [ReturnToUser(pagetable)] &&
        tf == ReturnFrame(old(tf).(epc := Add64(old(tf.epc), 4))) && stvec == plat.uservec &&
        sstatus == ReturnStatus(old(sstatus)) && sepc == Add64(old(tf.epc), 4)
    {
      if killed {
        trace := trace + [Exit(-1)];
        return Exited(-1);
      }
      UserSyscall(syscallKills);
      ghost var called := trace;
      out := UserTrapTail(0, afterYield);
      assert !syscallKills ==> trace == called + [ReturnToUser(pagetable)];
    }

    /** usertrap's other branch: a device interrupt, or an unexpected cause that kills the process. */
    method UserTrapDevice(irq: int, afterYield: YieldEffect) returns (out: Outcome)
      requires plat.WellFormed() && ticks < TWO32 && scause != ECALL_FROM_U
      modifies `trace, `ticks, `sip, `killed, `sepc, `sstatus, `stvec, `tf, `tp
      ensures ticks == if DevClass(scause) == 2 && old(tp) == 0 then NextTick(old(ticks)) else old(ticks)
      ensures sip == if DevClass(scause) == 2 then AckSoftware(old(sip)) else old(sip)
      ensures DevClass(scause) == 0 ==>
        out == Exited(-1) && killed &&
        trace == old(trace) + [UnexpectedScause(scause, pid, old(sepc), stval), Exit(-1)]
      ensures DevClass(scause) != 0 ==>
        killed == old(killed) &&
        trace == old(trace) + (if DevClass(scause) == 1 then ClaimEvents(irq, plat) else []) +
          (if killed then [Exit(-1)] else if DevClass(scause) == 2 then [Yield, ReturnToUser(pagetable)] else [ReturnToUser(pagetable)])
      ensures killed ==>
        out == Exited(-1) && tf == old(tf) && stvec == old(stvec) && sepc == old(sepc) && sstatus == old(sstatus) &&
        tp == old(tp)
      ensures !killed ==>
        out == ReturnedToUser && tf == ReturnFrame(old(tf)) && stvec == plat.uservec && sepc == old(tf.epc) &&
        sstatus == ReturnStatus(if DevClass(scause) == 2 then afterYield.sstatus else old(sstatus)) &&
        tp == (if DevClass(scause) == 2 then afterYield.tp else old(tp))
    {
      var whichDev := DevIntr(irq);
      if whichDev == 0 {
        trace := trace + [UnexpectedScause(scause, pid, sepc, stval)];
        killed := true;
      }
      out := UserTrapTail(whichDev, afterYield);
    }

    /**
     * usertrap's system-call branch for a live process: return past the
     * 4-byte ecall, enable interrupts, then call syscall, which
     * `syscallKills` says whether it left the process killed.
     */
    method UserSyscall(syscallKills: bool)
      modifies `tf, `sstatus, `trace, `killed
      ensures tf == old(tf).(epc := Add64(old(tf.epc), 4))
      ensures sstatus == old(sstatus).(sie := true)
      ensures trace == old(trace) + [Syscall(true)]
      ensures killed == (old(killed) || syscallKills)
    {
      tf := tf.(epc := Add64(tf.epc, 4));
      sstatus := sstatus.(sie := true);
      trace := trace + [Syscall(sstatus.sie)];
      killed := killed || syscallKills;
    }

    /**
     * The end of usertrap, once the cause is handled: a killed process
     * exits, a timer interrupt yields, and the hart returns to user space.
     */
    method UserTrapTail(whichDev: int, afterYield: YieldEffect) returns (out: Outcome)
      requires plat.WellFormed()
      modifies `trace, `sepc, `sstatus, `stvec, `tf, `tp
      ensures killed ==>
        out == Exited(-1) && trace == old(trace) + [Exit(-1)] &&
        sepc == old(sepc) && sstatus == old(sstatus) && stvec == old(stvec) && tf == old(tf) && tp == old(tp)
      ensures !killed ==>
        out == ReturnedToUser && sepc == tf.epc == old(tf.epc) && stvec == plat.uservec &&
        trace == old(trace) + (if whichDev == 2 then [Yield, ReturnToUser(pagetable)] else [ReturnToUser(pagetable)]) &&
        sstatus == ReturnStatus(if whichDev == 2 then afterYield.sstatus else old(sstatus)) &&
        tp == (if whichDev == 2 then afterYield.tp else old(tp)) &&
        tf == ReturnFrame(old(tf))
    {
      if killed {
        trace := trace + [Exit(-1)];
        return Exited(-1);
      }
      if whichDev == 2 {
        DoYield(afterYield);
      }
      UserTrapRet();
      out := ReturnedToUser;
    }

    /**
     * kerneltrap, for a trap taken in supervisor mode: it must come from
     * supervisor mode with interrupts off and be a device interrupt, else
     * the kernel panics; a timer interrupt yields a running process; `sepc`
     * and `sstatus` are put back as they were on entry.
     */
    method KernelTrap(irq: int, afterYield: YieldEffect) returns (st: Status)
      requires plat.WellFormed() && ticks < TWO32
      modifies `trace, `ticks, `sip, `sepc, `sstatus, `tp
      ensures !old(sstatus).spp ==>
        st == Panicked("kerneltrap: not from supervisor mode") && unchanged(this)
      ensures old(sstatus).spp && old(sstatus).sie ==>
        st == Panicked("kerneltrap: interrupts enabled") && unchanged(this)
      ensures old(sstatus).spp && !old(sstatus).sie && DevClass(old(scause)) == 0 ==>
        st == Panicked("kerneltrap") &&
        trace == old(trace) + [KernelTrapReport(old(scause), old(sepc), old(stval))] &&
        ticks == old(ticks) && sip == old(sip) && sepc == old(sepc) && sstatus == old(sstatus) && tp == old(tp)
      ensures st == Ok <==> old(sstatus).spp && !old(sstatus).sie && DevClass(old(scause)) != 0
      ensures st == Ok ==>
        sepc == old(sepc) && sstatus == old(sstatus) &&
        trace == old(trace) + (if DevClass(old(scause)) == 1 then ClaimEvents(irq, plat) else []) +
                 (if DevClass(old(scause)) == 2 && hasProc && running then [Yield] else []) &&
        ticks == (if DevClass(old(scause)) == 2 && old(tp) == 0 then NextTick(old(ticks)) else old(ticks)) &&
        sip == (if DevClass(old(scause)) == 2 then AckSoftware(old(sip)) else old(sip)) &&
        tp == (if DevClass(old(scause)) == 2 && hasProc && running then afterYield.tp else old(tp))
    {
      var sepc0 := sepc;
      var sstatus0 := sstatus;
      var scause0 := scause;
      if !sstatus0.spp {
        return Panicked("kerneltrap: not from supervisor mode");
      }
      if sstatus.sie {
        return Panicked("kerneltrap: interrupts enabled");
      }
      var whichDev := DevIntr(irq);
      if whichDev == 0 {
        trace := trace + [KernelTrapReport(scause0, sepc, stval)];
        return Panicked("kerneltrap");
      }
      if whichDev == 2 && hasProc && running {
        DoYield(afterYield);
      }
      sepc := sepc0;
      sstatus := sstatus0;
      st := Ok;
    }
  }
}
