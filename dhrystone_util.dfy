/**
 * The support routines of the Dhrystone port (sw/ex/dhrystone/util.c): a
 * bump allocator over a static heap, strcpy, and time() in whole seconds
 * of simulated clock.
 */
module DhrystoneUtil {
  import opened Bits
  import opened CString
  import opened FwConsole

  /** HEAP_SIZE, the size of heap_memory. */
  const HeapSize: nat := 2048
  /** The bound malloc checks after each allocation. */
  const HeapLimit: nat := 1024
  /** EXIT_FAILURE, the status malloc exits with. */
  const ExitFailure: int := 1

  const OutOfMemoryMessage: string := "malloc: out of memory\n"

  /** What a malloc call ends with: a block at an offset into heap_memory,
      or the program exiting with a status after the message. */
  datatype Alloc = Block(offset: int) | Exit(status: int)

  /** The allocations of a run: the offsets of successive blocks are the
      running sums of the sizes requested before them. */
  function Sum(sizes: seq<int>): int
  {
    if sizes == [] then 0 else Sum(sizes[..|sizes| - 1]) + sizes[|sizes| - 1]
  }

  class Heap {
    /** heap_memory_used: bytes handed out so far, as an offset. */
    var used: int32

    constructor ()
      ensures used == 0
    {
      used := 0;
    }

    /** malloc: hand out the block at the current offset and advance it by
        size; past 1024 bytes, print the message and exit(1). The offset is
        advanced even then. The int addition must not overflow, as in C. */
    method Malloc(con: Console, size: int32) returns (r: Alloc)
      requires -0x8000_0000 <= used + size < 0x8000_0000
      modifies this, con
      ensures used == old(used) + size
      ensures r == if used > HeapLimit then Exit(ExitFailure) else Block(old(used))
      ensures con.out == old(con.out) + (if used > HeapLimit then OutOfMemoryMessage else [])
    {
      var p := used;
      used := used + size;
      if used > HeapLimit as int {
        con.Puts(OutOfMemoryMessage + [NUL]);
        CStrOf(OutOfMemoryMessage, []);
        return Exit(ExitFailure);
      }
      return Block(p);
    }
  }

  /** The running sum one request further on. */
  lemma SumStep(sizes: seq<int>, i: nat)
    requires i < |sizes|
    ensures Sum(sizes[..i + 1]) == Sum(sizes[..i]) + sizes[i]
  {
    assert sizes[..i + 1][..i] == sizes[..i];
  }

  lemma {:induction false} SumPrefixMonotone(sizes: seq<int>, i: nat, j: nat)
    requires i <= j <= |sizes|
    requires forall k :: 0 <= k < |sizes| ==> sizes[k] >= 0
    ensures Sum(sizes[..i]) <= Sum(sizes[..j])
    decreases j - i
  {
    if i < j {
      SumPrefixMonotone(sizes, i, j - 1);
      SumStep(sizes, j - 1);
    }
  }

  /** Starting from an empty heap, the blocks of successive successful
      mallocs of non-negative sizes do not overlap and lie inside the first
      1024 bytes of heap_memory, well within its 2048. */
  lemma BlocksDisjointInHeap(sizes: seq<int>)
    requires forall k :: 0 <= k < |sizes| ==> sizes[k] >= 0
    requires Sum(sizes) <= HeapLimit
    ensures forall i, j :: 0 <= i < j < |sizes| ==> Sum(sizes[..i]) + sizes[i] <= Sum(sizes[..j])
    ensures forall i :: 0 <= i < |sizes| ==>
              0 <= Sum(sizes[..i]) && Sum(sizes[..i]) + sizes[i] <= HeapLimit < HeapSize
  {
    forall i, j | 0 <= i < j < |sizes|
      ensures Sum(sizes[..i]) + sizes[i] <= Sum(sizes[..j])
    {
      SumStep(sizes, i);
      SumPrefixMonotone(sizes, i + 1, j);
    }
    assert sizes[..0] == [] && sizes[..|sizes|] == sizes;
    forall i | 0 <= i < |sizes|
      ensures 0 <= Sum(sizes[..i]) && Sum(sizes[..i]) + sizes[i] <= HeapLimit
    {
      SumStep(sizes, i);
      SumPrefixMonotone(sizes, 0, i);
      SumPrefixMonotone(sizes, i + 1, |sizes|);
    }
  }

  /** The offset a malloc hands out after earlier requests of the given sizes
      is their sum, and the next one follows it by the new size. */
  lemma OffsetsAreRunningSums(sizes: seq<int>, size: int)
    ensures Sum(sizes + [size]) == Sum(sizes) + size
  {
    assert (sizes + [size])[..|sizes|] == sizes;
  }

  /** strcpy: copy src up to and including its NUL into dest at offset d;
      dest must have room, since nothing is checked. Returns dest. */
  method Strcpy(dest: array<char>, d: nat, src: seq<char>) returns (ret: nat)
    requires NUL in src && d + Strlen(src) < dest.Length
    modifies dest
    ensures ret == d
    ensures dest[d..d + Strlen(src) + 1] == src[..Strlen(src) + 1]
    ensures forall k :: 0 <= k < dest.Length && !(d <= k <= d + Strlen(src)) ==> dest[k] == old(dest[k])
    ensures NUL in dest[d..] && CStr(dest[d..]) == CStr(src)
  {
    ret := d;
    ghost var n := Strlen(src);
    var i := 0;
    dest[d] := src[0];
    while dest[d + i] != NUL
      invariant 0 <= i <= n
      invariant forall k :: 0 <= k <= i ==> dest[d + k] == src[k]
      invariant forall k :: 0 <= k < dest.Length && !(d <= k <= d + i) ==> dest[k] == old(dest[k])
      decreases n - i
    {
      i := i + 1;
      dest[d + i] := src[i];
    }
    assert src[i] == NUL;
    CopiedString(dest[d..], src);
  }

  /** A buffer that starts with src up to and including its NUL holds src's string. */
  lemma CopiedString(buf: seq<char>, src: seq<char>)
    requires NUL in src && Strlen(src) < |buf|
    requires forall k :: 0 <= k <= Strlen(src) ==> buf[k] == src[k]
    ensures buf[..Strlen(src) + 1] == src[..Strlen(src) + 1]
    ensures NUL in buf && CStr(buf) == CStr(src)
  {
    var n := Strlen(src);
    CStrPrefix(buf, src[..n]);
  }

  /** time(): the cycle count (as cycles() returned it) divided by CLK_FREQ,
      or 0 when built with NO_GET_CYCLES. The firmware is built for RV32, where
      long has 32 bits: the unsigned quotient is converted to long modulo 2^32. */
  function Time(cycles: u64, clkFreq: nat, noGetCycles: bool): (r: int32)
    requires clkFreq > 0
    ensures noGetCycles ==> r == 0
    ensures !noGetCycles ==> (r - cycles / clkFreq) % U32 == 0
  {
    if noGetCycles then 0
    else
      var q := (cycles / clkFreq) % U32;
      if q < 0x8000_0000 then q else q - U32
  }

  /** As long as fewer than 2^31 seconds have elapsed, time() is the number of
      whole seconds of simulated time: the largest r with r * CLK_FREQ <= cycles. */
  lemma TimeIsWholeSeconds(cycles: u64, clkFreq: nat)
    requires clkFreq > 0 && cycles / clkFreq < 0x8000_0000
    ensures var r := Time(cycles, clkFreq, false);
      0 <= r && r * clkFreq <= cycles < (r + 1) * clkFreq
  {
    var q := cycles / clkFreq;
    DivModUnique(q, U32, 0, q);
    assert Time(cycles, clkFreq, false) == q;
  }

  /** From 2^31 seconds on, the conversion to a 32-bit long wraps: time()
      returns the quotient minus 2^32, a negative value, up to 2^32 seconds. */
  lemma TimeWrapsNegative(cycles: u64, clkFreq: nat)
    requires clkFreq > 0 && 0x8000_0000 <= cycles / clkFreq < U32
    ensures Time(cycles, clkFreq, false) == cycles / clkFreq - U32 < 0
  {
    var q := cycles / clkFreq;
    DivModUnique(q, U32, 0, q);
  }
}
