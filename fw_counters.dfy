/**
 * The firmware's 64-bit counter reads: cycles() in sw/lib/time.c and
 * instret() in sw/lib/stdlib.c. The counter is visible as two volatile
 * 32-bit registers, so the firmware reads high, low, high and retries
 * until both high reads agree.
 */
module FwCounters {
  import opened Bits
  import opened Vdev

  /** One volatile register access and the value it returned. */
  datatype Access = HiRead(v: u32) | LoRead(v: u32)

  /** The two halves of one hardware counter (CYCLE or INSTRET). Each read of
      a half returns the next value the hardware presents for it; the values
      are an oracle, since the hardware counts on between reads. */
  class SplitCounter {
    var hiValues: seq<u32>
    var loValues: seq<u32>
    /** Every access so far, in program order. */
    var accesses: seq<Access>

    constructor (hi: seq<u32>, lo: seq<u32>)
      ensures hiValues == hi && loValues == lo && accesses == []
    {
      hiValues := hi;
      loValues := lo;
      accesses := [];
    }

    /** One volatile load of the high register. */
    method ReadHi() returns (v: u32)
      requires hiValues != []
      modifies this
      ensures v == old(hiValues)[0] && hiValues == old(hiValues)[1..]
      ensures loValues == old(loValues) && accesses == old(accesses) + [HiRead(v)]
    {
      v := hiValues[0];
      hiValues := hiValues[1..];
      accesses := accesses + [HiRead(v)];
    }

    /** One volatile load of the low register. */
    method ReadLo() returns (v: u32)
      requires loValues != []
      modifies this
      ensures v == old(loValues)[0] && loValues == old(loValues)[1..]
      ensures hiValues == old(hiValues) && accesses == old(accesses) + [LoRead(v)]
    {
      v := loValues[0];
      loValues := loValues[1..];
      accesses := accesses + [LoRead(v)];
    }
  }

  /** In iteration k of the loop (counted from 0) the two high reads agree. */
  predicate Agrees(hi: seq<u32>, k: nat)
  {
    2 * k + 1 < |hi| && hi[2 * k] == hi[2 * k + 1]
  }

  /** The hardware lets the loop finish: from iteration `from` on, some
      iteration that has its values agrees. */
  predicate Settles(hi: seq<u32>, lo: seq<u32>, from: nat)
  {
    exists k :: from <= k < |lo| && Agrees(hi, k)
  }

  /** The iteration in which the loop stops. */
  function FirstAgreement(hi: seq<u32>, lo: seq<u32>, from: nat): (k: nat)
    requires Settles(hi, lo, from)
    ensures from <= k < |lo| && Agrees(hi, k)
    ensures forall j :: from <= j < k ==> !Agrees(hi, j)
    decreases |lo| - from
  {
    if Agrees(hi, from) then from
    else
      assert Settles(hi, lo, from + 1) by {
        var k :| from <= k < |lo| && Agrees(hi, k);
        assert k != from;
      }
      FirstAgreement(hi, lo, from + 1)
  }

  /** The accesses of the first n iterations: high, low, high in each. */
  function ReadLog(hi: seq<u32>, lo: seq<u32>, n: nat): (log: seq<Access>)
    requires 2 * n <= |hi| && n <= |lo|
    ensures |log| == 3 * n
  {
    if n == 0 then []
    else ReadLog(hi, lo, n - 1) + [HiRead(hi[2 * n - 2]), LoRead(lo[n - 1]), HiRead(hi[2 * n - 1])]
  }

  /** One iteration of the do-while body. */
  method ReadTriple(c: SplitCounter) returns (hi1: u32, lo: u32, hi2: u32)
    requires |c.hiValues| >= 2 && c.loValues != []
    modifies c
    ensures hi1 == old(c.hiValues)[0] && hi2 == old(c.hiValues)[1] && lo == old(c.loValues)[0]
    ensures c.hiValues == old(c.hiValues)[2..] && c.loValues == old(c.loValues)[1..]
    ensures c.accesses == old(c.accesses) + [HiRead(hi1), LoRead(lo), HiRead(hi2)]
  {
    hi1 := c.ReadHi();
    lo := c.ReadLo();
    hi2 := c.ReadHi();
  }

  /** cycles() / instret(): retry until both high reads agree, then join the
      agreeing high word with the low word read between them. */
  method ReadCounter(c: SplitCounter) returns (r: u64)
    requires Settles(c.hiValues, c.loValues, 0)
    modifies c
    ensures var k := FirstAgreement(old(c.hiValues), old(c.loValues), 0);
      r == old(c.hiValues)[2 * k] * U32 + old(c.loValues)[k] &&
      c.hiValues == old(c.hiValues)[2 * k + 2..] &&
      c.loValues == old(c.loValues)[k + 1..] &&
      c.accesses == old(c.accesses) + ReadLog(old(c.hiValues), old(c.loValues), k + 1)
  {
    ghost var H, L, A := c.hiValues, c.loValues, c.accesses;
    ghost var k := FirstAgreement(H, L, 0);
    var hi1, lo, hi2 := ReadTriple(c);
    ghost var n: nat := 1;
    while hi1 != hi2
      invariant 1 <= n <= k + 1
      invariant hi1 == H[2 * n - 2] && lo == L[n - 1] && hi2 == H[2 * n - 1]
      invariant c.hiValues == H[2 * n..] && c.loValues == L[n..]
      invariant c.accesses == A + ReadLog(H, L, n)
      decreases k + 1 - n
    {
      assert !Agrees(H, n - 1);
      hi1, lo, hi2 := ReadTriple(c);
      n := n + 1;
    }
    assert Agrees(H, n - 1);
    r := Join64(hi1, lo);
  }

  /** When the high register does not change, the loop runs once. */
  lemma StableHighReadsOnce(hi: seq<u32>, lo: seq<u32>)
    requires |hi| >= 2 && |lo| >= 1 && hi[0] == hi[1]
    ensures Settles(hi, lo, 0) && FirstAgreement(hi, lo, 0) == 0
  {
    assert Agrees(hi, 0);
  }

  /** Why the loop retries: with a non-decreasing counter read as c0 (high),
      c1 (low) and c2 (high), agreeing high words mean the counter did not
      carry into the high word, so the joined value is exactly c1. */
  lemma AgreeingHighIsSnapshot(c0: u64, c1: u64, c2: u64)
    requires c0 <= c1 <= c2
    requires Hi32(c0) == Hi32(c2)
    ensures Join64(Hi32(c1), Lo32(c1)) == c1
    ensures Join64(Hi32(c0), Lo32(c1)) == c1
  {
    HalvesAreDivMod(c0);
    HalvesAreDivMod(c1);
    HalvesAreDivMod(c2);
    JoinSplit(c1);
    DivMonotone(c0, c1, U32);
    DivMonotone(c1, c2, U32);
  }

  lemma DivMonotone(a: nat, b: nat, d: nat)
    requires a <= b && 0 < d
    ensures a / d <= b / d
  {
    if a / d > b / d {
      MulLe(d, b / d + 1, a / d);
      assert false;
    }
  }

  /** A single high/low pair can be torn: the counter at 2^32 - 1 when the
      high word is read and at 2^32 when the low word is read joins to 0,
      neither value. The second high read (1) differs, so the loop retries. */
  lemma TornPairRejected()
    ensures Join64(Hi32(0xFFFF_FFFF), Lo32(0x1_0000_0000)) == 0
    ensures Hi32(0xFFFF_FFFF) != Hi32(0x1_0000_0000)
  {
    HalvesAreDivMod(0xFFFF_FFFF);
    HalvesAreDivMod(0x1_0000_0000);
  }

  /** The hardware answers every read with the matching half of the counter
      value at the moment of that read, counts[3j], counts[3j+1] and
      counts[3j+2] being the moments of iteration j's three reads. */
  predicate Observes(hi: seq<u32>, lo: seq<u32>, counts: seq<u64>)
  {
    |hi| == 2 * |lo| && |counts| == 3 * |lo| &&
    forall j :: 0 <= j < |lo| ==>
      hi[2 * j] == Hi32(counts[3 * j]) &&
      lo[j] == Lo32(counts[3 * j + 1]) &&
      hi[2 * j + 1] == Hi32(counts[3 * j + 2])
  }

  /** End to end: reading a counter that never goes backwards returns the
      counter's exact value at the moment of the accepted low read, which lies
      between its values at the first and the last read. */
  lemma ReadCounterIsSnapshot(hi: seq<u32>, lo: seq<u32>, counts: seq<u64>)
    requires Settles(hi, lo, 0) && Observes(hi, lo, counts)
    requires forall i, j :: 0 <= i <= j < |counts| ==> counts[i] <= counts[j]
    ensures var k := FirstAgreement(hi, lo, 0);
      hi[2 * k] * U32 + lo[k] == counts[3 * k + 1] &&
      counts[0] <= counts[3 * k + 1] <= counts[|counts| - 1]
  {
    var k := FirstAgreement(hi, lo, 0);
    var c0, c1, c2 := counts[3 * k], counts[3 * k + 1], counts[3 * k + 2];
    assert hi[2 * k] == Hi32(c0) && lo[k] == Lo32(c1) && hi[2 * k + 1] == Hi32(c2);
    AgreeingHighIsSnapshot(c0, c1, c2);
  }
}
