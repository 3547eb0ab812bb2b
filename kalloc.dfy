/**
 * The physical page allocator: a LIFO list of free 4096-byte pages between
 * the end of the kernel image and PHYSTOP.  Physical memory is an array of
 * bytes indexed by physical address; the free list is a sequence of page
 * addresses, head first.
 */
module Kalloc {
  import opened Common

  // ---------------------------------------------------------------------------
  // Pages and page ranges
  // ---------------------------------------------------------------------------

  /** PGROUNDUP: the first page boundary at or above `a`. */
  function PgRoundUp(a: nat): nat
  {
    ((a + PGSIZE - 1) / PGSIZE) * PGSIZE
  }

  /** The address of a page `kfree` accepts: aligned and in [lo, hi). */
  predicate PageOk(pa: nat, lo: nat, hi: nat)
  {
    pa % PGSIZE == 0 && lo <= pa && pa < hi
  }

  /** Every page of `list` is one `kfree` accepts. */
  predicate PagesOk(list: seq<nat>, lo: nat, hi: nat)
  {
    forall k :: 0 <= k < |list| ==> PageOk(list[k], lo, hi)
  }

  /** No page appears twice in `list`. */
  predicate Distinct(list: seq<nat>)
  {
    forall j, k :: 0 <= j < k < |list| ==> list[j] != list[k]
  }

  /** The pages `freerange`'s loop visits from `p`: one per step while a whole page fits below `e`. */
  function PagesFrom(p: nat, e: nat): seq<nat>
    decreases e - p
  {
    if p + PGSIZE <= e then [p] + PagesFrom(p + PGSIZE, e) else []
  }

  /** The pages `freerange(s, e)` frees, lowest first. */
  function RangePages(s: nat, e: nat): seq<nat>
  {
    PagesFrom(PgRoundUp(s), e)
  }

  /** The first page boundary at or above `a` is aligned, at least `a`, and less than a page above it. */
  lemma PgRoundUpMeaning(a: nat)
    ensures PgRoundUp(a) % PGSIZE == 0
    ensures a <= PgRoundUp(a) < a + PGSIZE
    ensures forall pa: nat :: pa % PGSIZE == 0 && a <= pa ==> PgRoundUp(a) <= pa
  {
    var q := (a + PGSIZE - 1) / PGSIZE;
    assert a + PGSIZE - 1 == q * PGSIZE + (a + PGSIZE - 1) % PGSIZE;
    forall pa: nat | pa % PGSIZE == 0 && a <= pa
      ensures PgRoundUp(a) <= pa
    {
      var r := pa / PGSIZE;
      assert pa == r * PGSIZE;
    }
  }

  /** The pages visited from an aligned `p` are exactly the aligned pages at or above `p` that fit below `e`. */
  lemma {:induction false} PagesFromMembership(p: nat, e: nat, pa: nat)
    requires p % PGSIZE == 0
    ensures pa in PagesFrom(p, e) <==> pa % PGSIZE == 0 && p <= pa && pa + PGSIZE <= e
    decreases e - p
  {
    if p + PGSIZE <= e {
      PagesFromMembership(p + PGSIZE, e, pa);
      if pa % PGSIZE == 0 && p < pa {
        assert (pa - p) % PGSIZE == 0;
        assert p + PGSIZE <= pa;
      }
    } else if pa % PGSIZE == 0 && p <= pa {
      assert pa + PGSIZE > e;
    }
  }

  /** The pages visited from `p` rise strictly, one page apart, from `p` on. */
  lemma {:induction false} PagesFromAscending(p: nat, e: nat)
    ensures forall k :: 0 <= k < |PagesFrom(p, e)| ==> PagesFrom(p, e)[k] == p + k * PGSIZE
    decreases e - p
  {
    if p + PGSIZE <= e {
      PagesFromAscending(p + PGSIZE, e);
      var rest := PagesFrom(p + PGSIZE, e);
      forall k | 0 <= k < |PagesFrom(p, e)|
        ensures PagesFrom(p, e)[k] == p + k * PGSIZE
      {
        if k > 0 {
          assert PagesFrom(p, e)[k] == rest[k - 1];
        }
      }
    }
  }

  /**
   * `freerange(s, e)` frees exactly the aligned pages from PGROUNDUP(s) on
   * that lie wholly below `e`, in increasing address order, each once.
   */
  lemma RangePagesMeaning(s: nat, e: nat)
    ensures forall pa :: pa in RangePages(s, e) <==> pa % PGSIZE == 0 && s <= pa && pa + PGSIZE <= e
    ensures forall k :: 0 <= k < |RangePages(s, e)| ==> RangePages(s, e)[k] == PgRoundUp(s) + k * PGSIZE
    ensures Distinct(RangePages(s, e))
  {
    PgRoundUpMeaning(s);
    PagesFromAscending(PgRoundUp(s), e);
    forall pa
      ensures pa in RangePages(s, e) <==> pa % PGSIZE == 0 && s <= pa && pa + PGSIZE <= e
    {
      if pa >= 0 {
        PagesFromMembership(PgRoundUp(s), e, pa);
      }
    }
    var r := RangePages(s, e);
    forall j, k | 0 <= j < k < |r|
      ensures r[j] != r[k]
    {
      assert j * PGSIZE < k * PGSIZE;
    }
  }

  // ---------------------------------------------------------------------------
  // The allocator's abstract state and its steps
  // ---------------------------------------------------------------------------

  /** Memory and free list together: what `kfree` and `kalloc` change. */
  datatype Pool = Pool(freelist: seq<nat>, mem: seq<bv8>)

  /** memset(pa, v, PGSIZE): the page at `pa` holds `v`, every other byte is kept. */
  function Fill(m: seq<bv8>, pa: nat, v: bv8): seq<bv8>
  {
    seq(|m|, k requires 0 <= k < |m| => if pa <= k < pa + PGSIZE then v else m[k])
  }

  /** A successful `kfree(pa)`: the page is filled with 1 and pushed on the list. */
  function Freed(p: Pool, pa: nat): Pool
  {
    Pool([pa] + p.freelist, Fill(p.mem, pa, 1))
  }

  /** `kalloc`: 0 and no change on an empty list; otherwise the head, popped and filled with 5. */
  function Allocated(p: Pool): (nat, Pool)
  {
    if p.freelist == [] then (0, p)
    else (p.freelist[0], Pool(p.freelist[1..], Fill(p.mem, p.freelist[0], 5)))
  }

  /** `kfree(pa)` including its check: a bad page panics and changes nothing. */
  function KfreeStep(p: Pool, pa: nat, lo: nat, hi: nat): (Status, Pool)
  {
    if PageOk(pa, lo, hi) then (Ok, Freed(p, pa)) else (Panicked("kfree"), p)
  }

  /** `kfree` of each page of `pages` in turn, stopping at the first panic. */
  function FreeEach(p: Pool, pages: seq<nat>, lo: nat, hi: nat): (Status, Pool)
    decreases |pages|
  {
    if pages == [] then (Ok, p)
    else if !PageOk(pages[0], lo, hi) then (Panicked("kfree"), p)
    else FreeEach(Freed(p, pages[0]), pages[1..], lo, hi)
  }

  /** `kalloc` called `n` times: the addresses it returns, in order, and the final state. */
  function Drain(p: Pool, n: nat): (seq<nat>, Pool)
    decreases n
  {
    if n == 0 then ([], p)
    else
      var (pa, q) := Allocated(p);
      var (rest, r) := Drain(q, n - 1);
      ([pa] + rest, r)
  }

  /** The state the allocator keeps: every listed page is one `kfree` accepts, and memory is [0, hi). */
  predicate PoolOk(p: Pool, lo: nat, hi: nat)
  {
    |p.mem| == hi && PagesOk(p.freelist, lo, hi)
  }

  /** An accepted page lies wholly below a page-aligned limit. */
  lemma PageBelow(pa: nat, lo: nat, hi: nat)
    requires PageOk(pa, lo, hi) && hi % PGSIZE == 0
    ensures pa + PGSIZE <= hi
  {
    assert (hi - pa) % PGSIZE == 0;
  }

  /**
   * `kfree(pa)`: it panics exactly when `pa` is misaligned or outside
   * [lo, hi), and then changes nothing; otherwise every byte of the page is
   * 1, every other byte is kept, and `pa` is pushed on the unchanged list.
   */
  lemma KfreeMeaning(p: Pool, pa: nat, lo: nat, hi: nat)
    requires |p.mem| == hi && hi % PGSIZE == 0
    ensures KfreeStep(p, pa, lo, hi).0 == Ok <==> PageOk(pa, lo, hi)
    ensures KfreeStep(p, pa, lo, hi).0 != Ok ==> KfreeStep(p, pa, lo, hi) == (Panicked("kfree"), p)
    ensures PageOk(pa, lo, hi) ==>
      var q := KfreeStep(p, pa, lo, hi).1;
      q.freelist == [pa] + p.freelist && |q.mem| == hi && pa + PGSIZE <= hi &&
      (forall k :: pa <= k < pa + PGSIZE ==> q.mem[k] == 1) &&
      (forall k :: 0 <= k < hi && !(pa <= k < pa + PGSIZE) ==> q.mem[k] == p.mem[k])
  {
    if PageOk(pa, lo, hi) {
      PageBelow(pa, lo, hi);
    }
  }

  /**
   * `kalloc()` on a list of accepted pages: 0 and no change when the list is
   * empty; otherwise the old head, the list becomes its tail, every byte of
   * the page is 5 and every other byte is kept.
   */
  lemma KallocMeaning(p: Pool, lo: nat, hi: nat)
    requires PoolOk(p, lo, hi) && hi % PGSIZE == 0
    ensures p.freelist == [] ==> Allocated(p) == (0, p)
    ensures p.freelist != [] ==>
      var (pa, q) := Allocated(p);
      pa == p.freelist[0] && q.freelist == p.freelist[1..] && |q.mem| == hi && pa + PGSIZE <= hi &&
      (forall k :: pa <= k < pa + PGSIZE ==> q.mem[k] == 5) &&
      (forall k :: 0 <= k < hi && !(pa <= k < pa + PGSIZE) ==> q.mem[k] == p.mem[k])
  {
    if p.freelist != [] {
      PageBelow(p.freelist[0], lo, hi);
    }
  }

  /** Filling a page twice leaves only the second value. */
  lemma FillTwice(m: seq<bv8>, pa: nat, v: bv8, w: bv8)
    ensures Fill(Fill(m, pa, v), pa, w) == Fill(m, pa, w)
  {
  }

  /**
   * `kfree(pa)` then `kalloc()` returns `pa` and restores the free list; the
   * page ends up holding 5s, as if only `kalloc`'s fill had happened.
   */
  lemma FreeThenAlloc(p: Pool, pa: nat)
    ensures Allocated(Freed(p, pa)).0 == pa
    ensures Allocated(Freed(p, pa)).1 == Pool(p.freelist, Fill(p.mem, pa, 5))
  {
    assert ([pa] + p.freelist)[1..] == p.freelist;
    FillTwice(p.mem, pa, 1, 5);
  }

  /** `kfree` and `kalloc` keep every listed page aligned and in [lo, hi). */
  lemma StepsKeepPoolOk(p: Pool, pa: nat, lo: nat, hi: nat)
    requires PoolOk(p, lo, hi)
    ensures PoolOk(KfreeStep(p, pa, lo, hi).1, lo, hi)
    ensures PoolOk(Allocated(p).1, lo, hi)
  {
  }

  /** When no listed page is 0, `kalloc` returns 0 exactly when the list is empty. */
  lemma AllocatedZero(p: Pool, lo: nat, hi: nat)
    requires PoolOk(p, lo, hi) && 0 < lo
    ensures Allocated(p).0 == 0 <==> p.freelist == []
    ensures p.freelist != [] ==> PageOk(Allocated(p).0, lo, hi)
  {
  }

  /** A page not on the list keeps the list free of duplicates when pushed. */
  lemma FreedKeepsDistinct(p: Pool, pa: nat)
    requires Distinct(p.freelist) && pa !in p.freelist
    ensures Distinct(Freed(p, pa).freelist)
  {
    var l := Freed(p, pa).freelist;
    forall j, k | 0 <= j < k < |l|
      ensures l[j] != l[k]
    {
      if j == 0 {
        assert l[k] == p.freelist[k - 1];
      } else {
        assert l[j] == p.freelist[j - 1] && l[k] == p.freelist[k - 1];
      }
    }
  }

  /**
   * A page `kalloc` hands out is no longer free: on a list without
   * duplicates, the returned page is not on the new list, which stays
   * without duplicates.
   */
  lemma AllocatedKeepsDistinct(p: Pool)
    requires Distinct(p.freelist) && p.freelist != []
    ensures Allocated(p).0 !in Allocated(p).1.freelist
    ensures Distinct(Allocated(p).1.freelist)
  {
    var l := p.freelist;
    forall k | 0 <= k < |l[1..]|
      ensures l[1..][k] != l[0]
    {
      assert l[1..][k] == l[k + 1];
    }
    forall j, k | 0 <= j < k < |l[1..]|
      ensures l[1..][j] != l[1..][k]
    {
      assert l[1..][j] == l[j + 1] && l[1..][k] == l[k + 1];
    }
  }

  /**
   * Exhaustion: `kalloc` called once per listed page hands out the pages in
   * list order (last freed first) and empties the list; a further call returns 0.
   */
  lemma {:induction false} DrainAll(p: Pool)
    ensures Drain(p, |p.freelist|).0 == p.freelist
    ensures Drain(p, |p.freelist|).1.freelist == []
    ensures Allocated(Drain(p, |p.freelist|).1).0 == 0
    decreases |p.freelist|
  {
    if p.freelist != [] {
      var q := Allocated(p).1;
      DrainAll(q);
      assert [p.freelist[0]] + q.freelist == p.freelist;
    }
  }

  /**
   * Freeing a run of acceptable pages pushes them one by one, so the list
   * becomes the run reversed (last page at the head) on top of the old list.
   */
  lemma {:induction false} FreeEachPushes(p: Pool, pages: seq<nat>, lo: nat, hi: nat)
    requires PagesOk(pages, lo, hi)
    ensures FreeEach(p, pages, lo, hi).0 == Ok
    ensures FreeEach(p, pages, lo, hi).1.freelist == Rev(pages) + p.freelist
    decreases |pages|
  {
    if pages != [] {
      var q := Freed(p, pages[0]);
      FreeEachPushes(q, pages[1..], lo, hi);
      RevSnoc(pages[1..], pages[0]);
      assert pages == [pages[0]] + pages[1..];
      assert Rev(pages) == Rev(pages[1..]) + [pages[0]];
    }
  }

  /** A run containing a page `kfree` rejects makes the whole run panic. */
  lemma {:induction false} FreeEachPanics(p: Pool, pages: seq<nat>, lo: nat, hi: nat)
    requires !PagesOk(pages, lo, hi)
    ensures FreeEach(p, pages, lo, hi).0 == Panicked("kfree")
    decreases |pages|
  {
    if PageOk(pages[0], lo, hi) {
      assert !PagesOk(pages[1..], lo, hi) by {
        var k :| 0 <= k < |pages| && !PageOk(pages[k], lo, hi);
        assert pages[1..][k - 1] == pages[k];
      }
      FreeEachPanics(Freed(p, pages[0]), pages[1..], lo, hi);
    }
  }

  /** With PHYSTOP page-aligned, `kinit`'s range is every aligned page in [end, PHYSTOP). */
  lemma KinitRange(lo: nat, hi: nat)
    requires hi % PGSIZE == 0
    ensures forall pa: nat :: pa in RangePages(lo, hi) <==> PageOk(pa, lo, hi)
    ensures PagesOk(RangePages(lo, hi), lo, hi)
  {
    var r := RangePages(lo, hi);
    RangePagesMeaning(lo, hi);
    forall pa: nat
      ensures pa in r <==> PageOk(pa, lo, hi)
    {
      if pa % PGSIZE == 0 && pa < hi {
        assert (hi - pa) % PGSIZE == 0;
        assert pa + PGSIZE <= hi;
      }
    }
    forall k | 0 <= k < |r|
      ensures PageOk(r[k], lo, hi)
    {
      assert r[k] in r;
    }
  }

  /**
   * `kinit` frees every whole page from PGROUNDUP(end) to PHYSTOP without a
   * panic; afterwards the list holds each such page once, highest first.
   */
  lemma KinitFrees(p: Pool, lo: nat, hi: nat)
    requires p.freelist == [] && hi % PGSIZE == 0
    ensures FreeEach(p, RangePages(lo, hi), lo, hi).0 == Ok
    ensures var l := FreeEach(p, RangePages(lo, hi), lo, hi).1.freelist;
      (forall pa: nat :: pa in l <==> PageOk(pa, lo, hi)) &&
      (forall k :: 0 <= k < |l| ==> l[k] == PgRoundUp(lo) + (|l| - 1 - k) * PGSIZE)
  {
    var r := RangePages(lo, hi);
    KinitRange(lo, hi);
    RangePagesMeaning(lo, hi);
    FreeEachPushes(p, r, lo, hi);
    RevMeaning(r);
    assert FreeEach(p, r, lo, hi).1.freelist == Rev(r);
  }

  // ---------------------------------------------------------------------------
  // The allocator
  // ---------------------------------------------------------------------------

  /** `kmem` together with the physical memory it hands out. */
  class Allocator {
    /** `end`: the first address after the kernel image. */
    const kernelEnd: nat
    /** PHYSTOP: the first address above usable physical memory. */
    const phystop: nat
    /** Physical memory, byte by byte. */
    const mem: array<bv8>
    /** `kmem.freelist`, head first. */
    var freelist: seq<nat>

    ghost predicate Valid()
      reads this
    {
      mem.Length == phystop && phystop % PGSIZE == 0 && 0 < kernelEnd &&
      PagesOk(freelist, kernelEnd, phystop)
    }

    ghost function Contents(): Pool
      reads this, mem
    {
      Pool(freelist, mem[..])
    }

    /**
     * kinit: frees every page between the end of the kernel and PHYSTOP.
     * `ram` is what physical memory holds at boot.
     */
    constructor Kinit(kernelEnd: nat, phystop: nat, ram: seq<bv8>)
      requires 0 < kernelEnd && phystop % PGSIZE == 0 && |ram| == phystop
      ensures Valid() && this.kernelEnd == kernelEnd && this.phystop == phystop
      ensures (Ok, Contents()) == FreeEach(Pool([], ram), RangePages(kernelEnd, phystop), kernelEnd, phystop)
    {
      this.kernelEnd := kernelEnd;
      this.phystop := phystop;
      mem := new bv8[phystop](k => if 0 <= k < |ram| then ram[k] else 0);
      freelist := [];
      new;
      assert mem[..] == ram;
      ghost var start := Contents();
      var st := Freerange(kernelEnd, phystop);
      KinitFrees(start, kernelEnd, phystop);
    }

    /** freerange: frees each whole page from PGROUNDUP(s) up to `e`, lowest address first. */
    method Freerange(s: nat, e: nat) returns (st: Status)
      requires Valid()
      modifies `freelist, mem
      ensures Valid()
      ensures (st, Contents()) == FreeEach(old(Contents()), RangePages(s, e), kernelEnd, phystop)
    {
      var p := PgRoundUp(s);
      ghost var pushed := Contents();
      assert FreeEach(old(Contents()), RangePages(s, e), kernelEnd, phystop)
          == FreeEach(pushed, PagesFrom(p, e), kernelEnd, phystop);
      while p + PGSIZE <= e
        invariant Valid()
        invariant FreeEach(old(Contents()), RangePages(s, e), kernelEnd, phystop)
               == FreeEach(Contents(), PagesFrom(p, e), kernelEnd, phystop)
        decreases e - p
      {
        st := Kfree(p);
        if st != Ok {
          return;
        }
        p := p + PGSIZE;
      }
      st := Ok;
    }

    /** kfree: a misaligned or out-of-range page panics; otherwise it is filled with 1 and pushed. */
    method Kfree(pa: nat) returns (st: Status)
      requires Valid()
      modifies `freelist, mem
      ensures Valid()
      ensures (st, Contents()) == KfreeStep(old(Contents()), pa, kernelEnd, phystop)
    {
      if pa % PGSIZE != 0 || pa < kernelEnd || pa >= phystop {
        return Panicked("kfree");
      }
      Memset(pa, 1);
      freelist := [pa] + freelist;
      st := Ok;
    }

    /** kalloc: pops the head page and fills it with 5; 0 when no page is free. */
    method Kalloc() returns (pa: nat)
      requires Valid()
      modifies `freelist, mem
      ensures Valid()
      ensures (pa, Contents()) == Allocated(old(Contents()))
      ensures pa == 0 <==> old(freelist) == []
    {
      if freelist == [] {
        return 0;
      }
      pa := freelist[0];
      freelist := freelist[1..];
      Memset(pa, 5);
    }

    /** memset(pa, v, PGSIZE) on physical memory. */
    method Memset(pa: nat, v: bv8)
      requires pa + PGSIZE <= mem.Length
      modifies mem
      ensures mem[..] == Fill(old(mem[..]), pa, v)
    {
      var i := pa;
      while i < pa + PGSIZE
        invariant pa <= i <= pa + PGSIZE
        invariant forall k :: 0 <= k < mem.Length ==> mem[k] == if pa <= k < i then v else old(mem[k])
      {
        mem[i] := v;
        i := i + 1;
      }
    }

    /** freemem: walks the list counting pages; the free byte count. */
    method Freemem() returns (n: nat)
      ensures n == PGSIZE * |freelist|
    {
      var r := freelist;
      var cnt := 0;
      while r != []
        invariant cnt <= |freelist| && r == freelist[cnt..]
      {
        cnt := cnt + 1;
        r := r[1..];
      }
      n := cnt * PGSIZE;
    }
  }
}
