# xv6 (RISC-V) kernel core in Dafny: page allocator, trap handling, console printf

This project models three sequential pieces of the xv6 teaching kernel and
proves properties of the models.

- **Physical page allocator** (`kalloc.dfy`, module `Kalloc`).
  - The class `Allocator` holds physical memory as an array of bytes indexed by physical address.
  - It holds `kmem.freelist` as a sequence of page addresses, head first.
  - `Kinit`, `Freerange`, `Kfree`, `Kalloc` and `Freemem` are methods.
  - Each method is proved against a function on a `Pool` value, which is the free list plus the memory contents.
  - Lemmas about those functions cover:
    - the range `freerange` frees;
    - `kfree`'s rejection of bad pages;
    - the junk fills;
    - LIFO order;
    - the free-then-allocate round trip;
    - the alignment and range invariant;
    - exhaustion.
- **Trap handling** (`trap.dfy`, module `Trap`).
  - `devintr`'s classification of `scause` is a pure function, `DevClass`.
  - The class `Hart` holds:
    - the supervisor CSRs;
    - the current process's trapframe, `killed` flag and kernel stack;
    - the global `ticks` counter.
  - Calls out of the trap code become events appended to `trace`. These are syscall, yield, exit, the device handlers, the PLIC completion, the diagnostic lines printed, and the final jump to the trampoline.
  - What those calls return or change is given as parameters:
    - the claimed IRQ;
    - whether the system call left the process killed;
    - what `yield` leaves in `sepc` and `sstatus`, and the hart the process resumes on.
  - `panic` becomes an outcome value: `Halted` for `usertrap`, `Panicked` for `kerneltrap`.
- **Console output** (`printf.dfy`, module `Printf`).
  - A `Console` object's `out` sequence is everything `consputc` has written.
  - `PrintInt`, `PrintPtr`, `Printf` and `Panic` are methods.
  - Each is proved against a function that gives the text it writes: `IntText`, `PtrText` and `Render`.
  - Lemmas say what that text means: digits decode back to the value, the field widths, and the directive rules.
  - Variadic arguments are an explicit list of `Arg` values.
  - A null format string is `fmt == None`; it panics.

`common.dfy` holds `PGSIZE`, the powers 2^32 and 2^64, `Option`, `Status` and the sequence reversal `Rev` that both the free list and the digit buffer use.

## Model

| member | source | states |
|---|---|---|
| Kalloc.PgRoundUpMeaning | kernel/kalloc.c:41 | PGROUNDUP(a) is page aligned, at least `a`, less than a page above `a`, and no greater than any aligned address at or above `a` |
| Kalloc.PagesFromMembership | kernel/kalloc.c:42-43 | from an aligned start, the loop visits exactly the aligned addresses at or above the start whose whole page lies below the end |
| Kalloc.PagesFromAscending | kernel/kalloc.c:42-43 | the k-th page the loop visits is start + k*4096 |
| Kalloc.RangePagesMeaning | kernel/kalloc.c:37-44 | `freerange(s, e)` visits a page iff it is aligned, at least `s` and `page + 4096 <= e`; the k-th visited page is PGROUNDUP(s) + k*4096; no page is visited twice |
| Kalloc.KfreeMeaning | kernel/kalloc.c:50-67 | `kfree(pa)` panics iff `pa` is misaligned, below `end` or at/above PHYSTOP, and then changes nothing; otherwise every byte of the page is 1, all other bytes are kept, and `pa` is pushed on the unchanged old list |
| Kalloc.KallocMeaning | kernel/kalloc.c:72-86 | on an empty list `kalloc` returns 0 and changes nothing; otherwise it returns the old head, the list becomes its tail, every byte of the page is 5 and all other bytes are kept |
| Kalloc.FreeThenAlloc | kernel/kalloc.c:63-80 | `kfree(p)` then `kalloc()` returns `p` and restores the free list |
| Kalloc.StepsKeepPoolOk | kernel/kalloc.c:55-80 | `kfree` and `kalloc` keep every listed page aligned and in [end, PHYSTOP) |
| Kalloc.AllocatedZero | kernel/kalloc.c:78-85 | when no listed page is 0, `kalloc` returns 0 iff the list is empty, and otherwise returns an acceptable page |
| Kalloc.FreedKeepsDistinct | kernel/kalloc.c:63-65 | pushing a page not already on the list keeps the list free of duplicates |
| Kalloc.AllocatedKeepsDistinct | kernel/kalloc.c:78-80 | on a list without duplicates, the page `kalloc` hands out is no longer on the list, and the list stays without duplicates: a page is either free or allocated, not both |
| Kalloc.DrainAll | kernel/kalloc.c:72-86 | exhaustion: one `kalloc` per listed page hands out the pages in list order (last freed first), empties the list, and the next call returns 0 |
| Kalloc.FreeEachPushes | kernel/kalloc.c:41-43 | freeing a run of acceptable pages succeeds, and the new list is the run reversed on top of the old list |
| Kalloc.FreeEachPanics | kernel/kalloc.c:41-43 | a run containing a page `kfree` rejects ends in the "kfree" panic |
| Kalloc.KinitRange | kernel/kalloc.c:30-35 | with PHYSTOP page aligned, `kinit`'s range is exactly the aligned pages in [end, PHYSTOP) |
| Kalloc.KinitFrees | kernel/kalloc.c:30-35 | `kinit` frees without a panic; afterwards the list holds exactly the aligned pages in [end, PHYSTOP), highest address first |
| Kalloc.Allocator.Kinit | kernel/kalloc.c:30-35 | the new allocator's state is the result of freeing RangePages(end, PHYSTOP) into an empty list, and it satisfies the invariant |
| Kalloc.Allocator.Freerange | kernel/kalloc.c:37-44 | the new state and the status are those of freeing RangePages(s, e) one by one, lowest address first |
| Kalloc.Allocator.Kfree | kernel/kalloc.c:50-67 | the new state and the status are KfreeStep of the old state: a panic and no change for a bad page, otherwise fill with 1 and push |
| Kalloc.Allocator.Kalloc | kernel/kalloc.c:72-86 | the result and the new state are Allocated of the old state; the result is 0 iff the list was empty |
| Kalloc.Allocator.Memset | kernel/kalloc.c:59 | memset of one page: the page holds the value, every other byte is unchanged |
| Kalloc.Allocator.Freemem | kernel/kalloc.c:88-107 | returns 4096 times the length of the free list and changes nothing |
| Trap.DevClass | kernel/trap.c:210-250 | 1 iff bit 63 of `scause` is set and its low byte is 9; 2 iff `scause` is 0x8000000000000001; 0 otherwise; exactly one case holds |
| Trap.ClaimEvents | kernel/trap.c:216-233 | `plic_complete(irq)` happens exactly once, last, iff irq != 0; the UART handler runs iff irq is UART0_IRQ; the disk handler runs iff irq is VIRTIO0_IRQ; any other nonzero irq is only reported; nothing yields |
| Trap.AckSoftware | kernel/trap.c:246 | the SSIP bit of `sip` is cleared and every other bit is kept |
| Trap.NextTick | kernel/trap.c:193 | `ticks++` on a 32-bit unsigned counter: one more, wrapping to 0 |
| Trap.Hart.TrapInitHart | kernel/trap.c:43-47 | kernel traps go to `kernelvec` |
| Trap.Hart.ClockIntr | kernel/trap.c:189-196 | `ticks` becomes NextTick of its old value |
| Trap.Hart.DoYield | kernel/trap.c:100-102 | a Yield event is recorded; `sepc`/`sstatus` take the values left by traps taken meanwhile, and `tp` becomes the id of the hart the process resumes on |
| Trap.Hart.DevIntr | kernel/trap.c:203-252 | returns DevClass(scause); records the PLIC claim events only for an external interrupt; bumps `ticks` only for a timer interrupt on hart 0; clears SSIP only for a timer interrupt |
| Trap.Hart.UserTrapRet | kernel/trap.c:110-154 | `stvec` is the trampoline's `uservec`; the trapframe gets the kernel satp, `kstack + PGSIZE`, `usertrap` and the hart id, and keeps `epc`; `sstatus` is the old one with SPP clear, SPIE set and SIE clear, and nothing else changed; `sepc` is `trapframe.epc`; the return to user space is recorded |
| Trap.Hart.UserTrap | kernel/trap.c:54-105 | it panics and changes nothing if SPP is set. Otherwise: `ticks` advances (hart 0) and SSIP is cleared only for a timer interrupt; every exit is `Exited(-1)` with the process killed, `stvec` = `kernelvec`, `sepc` unchanged and `epc` holding the saved pc (plus 4 after a system call); every return to user space has `stvec` = `uservec`, `sepc` = `epc` and the trapframe's kernel fields set. A system call from a killed process exits before the call; otherwise `epc` is `sepc + 4`, the call runs with interrupts on, and `killed` is what it left. An unrecognised cause is reported, kills the process and exits. A device interrupt leaves `killed` alone, yields iff it was a timer interrupt, and returns with the SPP/SPIE update; after a yield the trapframe's hart id is that of the hart the process resumed on |
| Trap.Hart.UserTrapSyscall | kernel/trap.c:73-104 | the system-call branch: exit before the call when killed, with nothing else changed; else `epc + 4`, interrupts on, the call, then exit (registers kept) or return to user space at `epc + 4` with `stvec` = `uservec`, the trapframe's kernel fields and the SPP/SPIE update |
| Trap.Hart.UserTrapDevice | kernel/trap.c:88-104 | the device branch: `ticks`/`sip` change only for a timer interrupt; an unrecognised cause is reported and kills the process; otherwise the device events are recorded and `killed` is kept. A killed process exits with the trap registers and trapframe unchanged; a live one yields iff the interrupt was the timer's and returns to user space with the full `usertrapret` state |
| Trap.Hart.UserSyscall | kernel/trap.c:79-87 | `epc` advances past the 4-byte ecall, interrupts are enabled, the call is recorded with interrupts on, and `killed` becomes what the call left |
| Trap.Hart.UserTrapTail | kernel/trap.c:97-104 | a killed process exits with -1 and nothing else changes; otherwise the hart yields iff `which_dev == 2`, possibly resuming on another hart, then makes the `usertrapret` updates with the current hart's id |
| Trap.Hart.KernelTrap | kernel/trap.c:158-187 | it changes only `trace`, `ticks`, `sip`, `sepc`, `sstatus` and, through a yield, the current hart `tp`. It panics, changing nothing, if SPP is clear or interrupts are enabled; if `devintr` returns 0 it panics after the report, which is its only change. Otherwise it succeeds: the tick (hart 0) and SSIP clear happen only for a timer interrupt, it yields only for a timer interrupt with a running process, and it restores `sepc` and `sstatus` to their entry values |
| Printf.Magnitude | kernel/printf.c:35-38 | the unsigned value `printint` prints: -xx for a signed negative `xx`, else `xx` modulo 2^32; always below 2^32 |
| Printf.DigitsOfRoundTrip | kernel/printf.c:40-43 | decoding the numeral `printint`'s loop produces gives back the value |
| Printf.DigitsOfCanonical | kernel/printf.c:40-43 | the numeral has at least one digit; every digit is one of the first `base` characters of the digit table; there is no leading zero; 0 prints as "0" |
| Printf.DigitsOfLength | kernel/printf.c:40-43 | a value below base^k has at most k digits |
| Printf.DigitsFitBuffer | kernel/printf.c:31-43 | a 32-bit value has at most 10 decimal or 8 hex digits, so the 16-slot buffer suffices |
| Printf.IntTextSign | kernel/printf.c:45-49 | `printint` writes '-' first iff `sign` is set and `xx < 0`; it writes 1 to 11 characters |
| Printf.IntTextDigits | kernel/printf.c:35-49 | the characters after any sign decode to the printed magnitude, which is the absolute value of `xx` for a signed call; 0 prints "0" |
| Printf.PrintInt | kernel/printf.c:28-50 | the console gains exactly IntText(xx, base, sign) |
| Printf.FillDigits | kernel/printf.c:40-43 | the loop stores the numeral of `x` least significant digit first: the stored prefix reversed is the numeral, and it fits the buffer |
| Printf.DigitLoopStep | kernel/printf.c:41-43 | one turn of the digit loop moves the last remaining digit to the front of the stored ones, and the value shrinks |
| Printf.EmitReversed | kernel/printf.c:48-49 | the console gains the buffer's first `n` characters, last one first |
| Printf.HexFromDigits | kernel/printf.c:58-59 | n turns of `printptr`'s loop write n characters of the digit table |
| Printf.HexFromValue | kernel/printf.c:58-59 | the n nibbles written decode to the top n nibbles of the 64-bit value |
| Printf.PtrTextMeaning | kernel/printf.c:52-60 | `printptr` writes exactly 18 characters: "0x" then 16 hex digits, most significant first, which decode to `x` |
| Printf.PrintNibbles | kernel/printf.c:58-59 | the console gains HexFrom(x, n) |
| Printf.PrintPtr | kernel/printf.c:52-60 | the console gains exactly PtrText(x) |
| Printf.UntilNulNoNul | kernel/printf.c:97-100 | a string without NUL, such as "(null)", is written whole by the `%s` loop |
| Printf.PlainTextCopied | kernel/printf.c:78-81 | format text without '%' or NUL is copied unchanged, in order |
| Printf.PercentDirectives | kernel/printf.c:83-108 | a '%' ending the format writes nothing and stops; `%%` writes one '%'; an unknown `%c` writes '%' and `c` |
| Printf.NullString | kernel/printf.c:96-101 | `%s` with a null argument writes "(null)" |
| Printf.NegativeHex | kernel/printf.c:90-91 | `%x` is signed: a negative argument writes '-' then the hex digits of its magnitude |
| Printf.RenderPercent | kernel/printf.c:86-110 | one directive writes its text and consumes one argument iff it is `%d`, `%x`, `%p` or `%s` |
| Printf.PrintDirective | kernel/printf.c:86-101 | the console gains the text of one argument-consuming directive |
| Printf.PrintStr | kernel/printf.c:99-100 | the console gains the string up to its NUL |
| Printf.PrintPercent | kernel/printf.c:83-110 | the console gains one directive's text, and the remaining arguments are those it leaves |
| Printf.Printf | kernel/printf.c:63-115 | with a format, the console gains exactly Render(fmt, 0, args) and the status is Ok; a null format writes "panic: null fmt\n" and panics |
| Printf.Panic | kernel/printf.c:117-127 | the console gains "panic: ", the message and a newline |

## Left out

- Spinlocks (`kmem.lock`, `tickslock`, `pr.lock`, `pr.locking`): each operation is one atomic sequential step.
- `wakeup(&ticks)` in `clockintr`: it belongs to the scheduler, which is not part of this model.
- Raw CSR reads and writes, `intr_on`/`intr_off`/`intr_get`, `r_satp`, `r_tp`, `MAKE_SATP`: they are the fields of `Hart`. Interrupt enable is the SIE bit of `sstatus`. The page table is recorded as is in the return-to-user event, without conversion to a satp value.
- `sstatus` is modelled as three bits plus the rest of the register:
  - SIE, SPIE and SPP, named after the bits of section 4.1.1 of the RISC-V privileged architecture; their bit positions are not modelled;
  - `rest`, which the code only carries through.
- Trap.Hart.UserTrapRet: states the final register values only. The order "interrupts off before `stvec` is switched" is not observable in a sequential model, so it is not a postcondition.
- The trampoline jump and the assembly in `kernelvec`, `uservec` and `userret`: recorded as one `ReturnToUser(pagetable)` event.
- `syscall`, `yield`, `exit`, `uartintr`, `virtio_disk_intr`, `plic_claim`, `plic_complete`, `myproc`, `cpuid`: these are calls out of the file.
  - They are events, or inputs: `irq`, `syscallKills`, `afterYield`, `hasProc`, `running`, and `tp` for the hart id.
  - `exit` and `panic` do not return, so they end the modelled path.
- Trap.Hart.UserTrapSyscall: the only effect of `syscall` modelled is whether it leaves the process killed. Its return value in the trapframe is not modelled. A system call that rewrites `trapframe->epc` (as `exec` does) is outside the model; the stated return pc `sepc + 4` holds only because `syscall` is reduced to its effect on `killed`.
- Trap.Hart.DoYield: `yield` changes only the trace, `sepc`, `sstatus` and `tp`, the hart the process resumes on, which `usertrapret` stores as the trapframe's hart id. Other harts keep running meanwhile: hart 0's timer interrupts advance `ticks`, `kill` may set `killed`, and `sip` may change. That is not modelled, so the `ticks`/`sip`/`killed` stated after a yield in `UserTrap` and `KernelTrap` are the values just before it. The code after a yield reads none of those three.
- `printf` output in `trap.c`: recorded as report events (`UnexpectedScause`, `KernelTrapReport`, `UnexpectedIrq`), not rendered as text.
- The board constants (PHYSTOP, `end`, UART0_IRQ, VIRTIO0_IRQ, TRAMPOLINE, the vector addresses) are parameters, with only the facts the code relies on: distinct nonzero IRQs, and PHYSTOP page aligned.
- Kalloc.Allocator.Kfree: a double free differs from the source. Freeing a page already on the list pushes it a second time, so two `kalloc` calls hand it out twice and `Freemem` counts it twice. In the source, the second `memset` overwrites the page's link, and the push makes the page point to itself. The rest of the list becomes unreachable, `freemem` loops forever, and `kalloc` later follows the junk link. The source does not guard against this (it is a caller error), and `Allocator.Valid` does not require a list without duplicates. `FreedKeepsDistinct` and `AllocatedKeepsDistinct` show that both operations keep the list free of duplicates when callers never free a free page.
- `kalloc.c`'s `struct run` link word in the first bytes of each free page: the free list is a sequence. The page bytes stay as `memset` left them, so a free page's first 8 bytes are not overwritten by the link.
- Kalloc.PgRoundUp: uses unbounded integers, with no 64-bit wrap of PGROUNDUP or of `p + PGSIZE`. No address within physical memory comes near 2^64.
- Kalloc.Allocator.Freemem: returns 4096 * count exactly. The source computes this in a 32-bit `int`, which would overflow only beyond 2^19 free pages (2 GiB), far above PHYSTOP.
- `panic`'s infinite loop and the `panicked` flag: panic is a result value (`Status.Panicked`, `Outcome.Halted`) that ends the operation.
- `backtrace`: it follows raw frame pointers through stack memory.
- `consputc` and the UART: the console is a sequence that `Putc` appends to.
- `va_list`/`va_arg`: the arguments are an explicit list. `printf` requires one argument of the right type for every consuming directive, as the C calling convention demands.
- Printf.Printf: the `& 0xff` on format characters is not modelled, because characters are `char` values. `%s` text is modelled as a string that may hold a NUL; the loop writes the part before the NUL.
