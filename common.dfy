/** Definitions shared by the allocator, the trap dispatcher and the console printer. */
module Common {
  /** Bytes per physical page (PGSIZE of the kernel's RISC-V header). */
  const PGSIZE: nat := 4096

  /** 2^32 and 2^64: the moduli of the kernel's `uint` and `uint64` arithmetic. */
  const TWO32: nat := 0x1_0000_0000
  const TWO64: nat := 0x1_0000_0000_0000_0000

  /** A value that may be absent: a C pointer that may be null. */
  datatype Option<T> = None | Some(value: T)

  /** How an operation that may call `panic` ends: normally, or halted with a message. */
  datatype Status = Ok | Panicked(msg: string)

  /** A sequence reversed: pages pushed in one order come off in the other, digits stored last first print first. */
  function Rev<T>(s: seq<T>): seq<T>
  {
    if s == [] then [] else Rev(s[1..]) + [s[0]]
  }

  lemma {:induction false} RevSnoc<T>(s: seq<T>, x: T)
    ensures Rev(s + [x]) == [x] + Rev(s)
  {
    if s != [] {
      assert (s + [x])[1..] == s[1..] + [x];
      RevSnoc(s[1..], x);
    } else {
      assert (s + [x])[1..] == [];
    }
  }

  /** Reversal keeps the elements and mirrors the positions. */
  lemma {:induction false} RevMeaning<T>(s: seq<T>)
    ensures |Rev(s)| == |s|
    ensures forall k :: 0 <= k < |s| ==> Rev(s)[k] == s[|s| - 1 - k]
    ensures forall x :: x in Rev(s) <==> x in s
    decreases |s|
  {
    if s != [] {
      RevMeaning(s[1..]);
      forall x
        ensures x in Rev(s) <==> x in s
      {
        assert x in s <==> x == s[0] || x in s[1..];
      }
    }
  }
}
