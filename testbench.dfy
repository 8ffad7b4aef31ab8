/**
 * The generic clock/reset driver (class Testbench in sim/testbench.h):
 * a 64-bit cycle counter, the clock and reset inputs driven around each
 * eval() of the design, and the timestamps handed to the waveform tracer.
 */
module Testbench {
  import opened Bits
  import opened Dut


  /** The tracer pointer: none yet, an open trace, or a trace that was closed
      (the pointer stays set, so a closed trace still counts as open). */
  datatype Trace = NoTrace | Opened(file: string) | Closed(file: string)

  /** A 64-bit timestamp 10*c + offset, with unsigned wrap-around. */
  function Stamp(c: u64, offset: int): u64
  {
    (10 * c + offset) % U64
  }

  /** Below 2^64 a timestamp does not wrap. */
  lemma StampValue(c: u64, offset: int)
    requires 0 <= 10 * c + offset < U64
    ensures Stamp(c, offset) == 10 * c + offset
  {
    DivModUnique(10 * c + offset, U64, 0, 10 * c + offset);
  }

  /** The three dump timestamps of the tick that brings the counter to c. */
  function TickStamps(c: u64): seq<u64>
  {
    [Stamp(c, -2), Stamp(c, 0), Stamp(c, 5)]
  }

  /** Clock low, high, low again, with the reset line held at r. */
  function TickInputs(r: bool): seq<Inputs>
  {
    [Inputs(false, r), Inputs(true, r), Inputs(false, r)]
  }

  /** The inputs of n consecutive ticks with reset held at r. */
  function RepeatTicks(r: bool, n: nat): (s: seq<Inputs>)
    ensures |s| == 3 * n
    ensures forall i :: 0 <= i < |s| ==> s[i].rst == r
  {
    if n == 0 then [] else RepeatTicks(r, n - 1) + TickInputs(r)
  }

  /** The dump timestamps of the ticks that bring the counter to 1, 2, ..., n. */
  function ResetStamps(n: nat): (s: seq<u64>)
    requires n < U64
    ensures |s| == 3 * n
  {
    if n == 0 then [] else ResetStamps(n - 1) + TickStamps(n)
  }

  predicate StrictlyIncreasing(s: seq<int>)
  {
    forall i, j :: 0 <= i < j < |s| ==> s[i] < s[j]
  }

  /** Within a tick the three timestamps increase, and the last one of a tick
      is below the first one of the next tick, as long as 10*c + 15 does not wrap. */
  lemma TickStampsIncrease(c: u64)
    requires 1 <= c && 10 * c + 15 < U64
    ensures StrictlyIncreasing(TickStamps(c))
    ensures TickStamps(c)[2] < TickStamps(c + 1)[0]
  {
    StampValue(c, -2);
    StampValue(c, 0);
    StampValue(c, 5);
    StampValue(c + 1, -2);
  }

  /** No reset timestamp exceeds the last one, 10*n + 5. */
  lemma {:induction false} ResetStampsBound(n: nat)
    requires 10 * n + 15 < U64
    ensures forall i :: 0 <= i < |ResetStamps(n)| ==> ResetStamps(n)[i] <= 10 * n + 5
  {
    if n > 0 {
      ResetStampsBound(n - 1);
      var p := ResetStamps(n - 1);
      var s := ResetStamps(n);
      StampValue(n, -2);
      StampValue(n, 0);
      StampValue(n, 5);
      forall i | 0 <= i < |s| ensures s[i] <= 10 * n + 5 {
        if i < |p| {
          assert s[i] == p[i];
        }
      }
    }
  }

  /** The timestamps of the reset ticks are strictly increasing. */
  lemma {:induction false} ResetStampsIncrease(n: nat)
    requires 10 * n + 15 < U64
    ensures StrictlyIncreasing(ResetStamps(n))
  {
    if n > 0 {
      ResetStampsIncrease(n - 1);
      ResetStampsBound(n - 1);
      var p := ResetStamps(n - 1);
      var t := TickStamps(n);
      var s := ResetStamps(n);
      assert s == p + t;
      StampValue(n, -2);
      StampValue(n, 0);
      StampValue(n, 5);
      forall i, j | 0 <= i < j < |s| ensures s[i] < s[j] {
        if j < |p| {
          assert s[i] == p[i] && s[j] == p[j];
        } else if i < |p| {
          assert s[i] == p[i] && s[j] == t[j - |p|];
        } else {
          assert s[i] == t[i - |p|] && s[j] == t[j - |p|];
        }
      }
    }
  }

  class Testbench<C> {
    const dut: Dut<C>
    var cycles: u64
    var trace: Trace
    /** The timestamps passed to the tracer's dump(), in order. */
    var dumps: seq<u64>

    predicate Valid()
    {
      dut.Valid()
    }

    predicate IsTraceOpen()
      reads this
    {
      trace != NoTrace
    }

    constructor (dut: Dut<C>)
      requires dut.Valid()
      ensures Valid() && this.dut == dut
      ensures cycles == 0 && trace == NoTrace && dumps == []
    {
      this.dut := dut;
      cycles := 0;
      trace := NoTrace;
      dumps := [];
    }

    function GetCycles(): (c: u64)
      reads this
      ensures c == cycles
    {
      cycles
    }

    function Finished(): (f: bool)
      reads dut
      ensures f == dut.gotFinish
    {
      dut.gotFinish
    }

    /** One third of a tick: drive the clock, let the design settle, then
        dump at 10*cycles + offset if a trace is open. */
    method Phase(clk: bool, offset: int)
      requires Valid()
      modifies this, dut, dut.mem
      ensures Valid()
      ensures dut.clk == clk && dut.rst == old(dut.rst)
      ensures dut.evals == old(dut.evals) + [Inputs(clk, dut.rst)]
      ensures dut.Snapshot() == Step(dut.rtl, old(dut.Snapshot()), Inputs(clk, dut.rst))
      ensures dumps == old(dumps) + (if IsTraceOpen() then [Stamp(cycles, offset)] else [])
      ensures cycles == old(cycles) && trace == old(trace)
    {
      dut.clk := clk;
      dut.Eval();
      if IsTraceOpen() {
        dumps := dumps + [Stamp(cycles, offset)];
      }
    }

    /** One clock cycle: bump the counter, then drive the clock 0, 1, 0 with an
        eval() after each assignment, dumping at 10c-2, 10c and 10c+5. */
    method Tick()
      requires Valid()
      modifies this, dut, dut.mem
      ensures Valid()
      ensures cycles == Inc64(old(cycles))
      ensures !dut.clk && dut.rst == old(dut.rst)
      ensures dut.evals == old(dut.evals) + TickInputs(dut.rst)
      ensures dut.Snapshot() == Steps(dut.rtl, old(dut.Snapshot()), TickInputs(dut.rst))
      ensures dumps == old(dumps) + (if IsTraceOpen() then TickStamps(cycles) else [])
      ensures trace == old(trace)
    {
      ghost var s0 := dut.Snapshot();
      ghost var e0 := dut.evals;
      ghost var d0 := dumps;
      ghost var r := dut.rst;
      cycles := Inc64(cycles);
      Phase(false, -2);
      Phase(true, 0);
      Phase(false, 5);
      StepsThree(dut.rtl, s0, Inputs(false, r), Inputs(true, r), Inputs(false, r));
      assert dut.evals == e0 + [Inputs(false, r)] + [Inputs(true, r)] + [Inputs(false, r)];
      if IsTraceOpen() {
        assert dumps == d0 + [Stamp(cycles, -2)] + [Stamp(cycles, 0)] + [Stamp(cycles, 5)];
      }
    }

    /** What i ticks with reset held high have done, counted from the design
        state s0, the eval() history e0 and the dump history d0. */
    ghost predicate ResetProgress(s0: State<C>, e0: seq<Inputs>, d0: seq<u64>, i: nat)
      requires Valid() && i < U64
      reads this, dut, dut.mem
    {
      dut.evals == e0 + RepeatTicks(true, i) &&
      dut.Snapshot() == Steps(dut.rtl, s0, RepeatTicks(true, i)) &&
      dumps == d0 + (if IsTraceOpen() then ResetStamps(i) else [])
    }

    /** One iteration of reset's loop. */
    method ResetTick(ghost s0: State<C>, ghost e0: seq<Inputs>, ghost d0: seq<u64>, i: nat)
      requires Valid() && i < 0x8000_0000 && cycles == i && dut.rst
      requires ResetProgress(s0, e0, d0, i)
      modifies this, dut, dut.mem
      ensures Valid() && cycles == i + 1 && dut.rst && trace == old(trace)
      ensures ResetProgress(s0, e0, d0, i + 1)
    {
      ghost var rep := RepeatTicks(true, i);
      ghost var stamps := if IsTraceOpen() then ResetStamps(i) else [];
      ghost var before := dut.Snapshot();
      assert before == Steps(dut.rtl, s0, rep);
      Tick();
      assert RepeatTicks(true, i + 1) == rep + TickInputs(true);
      StepsAppend(dut.rtl, s0, rep, TickInputs(true));
      assert dut.Snapshot() == Steps(dut.rtl, before, TickInputs(true));
      assert dut.evals == e0 + rep + TickInputs(true);
      if IsTraceOpen() {
        assert ResetStamps(i + 1) == stamps + TickStamps(i + 1);
        assert dumps == d0 + stamps + TickStamps(i + 1);
      }
    }

    /** Zero the counter and hold reset high for n ticks, then release it. */
    method Reset(n: int32)
      requires Valid()
      modifies this, dut, dut.mem
      ensures Valid()
      ensures cycles == if n < 0 then 0 else n
      ensures !dut.rst
      ensures var k := if n < 0 then 0 else n;
        dut.evals == old(dut.evals) + RepeatTicks(true, k) &&
        dut.Snapshot() == Steps(dut.rtl, old(dut.Snapshot()), RepeatTicks(true, k)) &&
        dumps == old(dumps) + (if IsTraceOpen() then ResetStamps(k) else [])
      ensures trace == old(trace)
    {
      ghost var s0 := dut.Snapshot();
      ghost var e0 := dut.evals;
      ghost var d0 := dumps;
      cycles := 0;
      dut.rst := true;
      var i: int := 0;
      while i < n
        invariant Valid()
        invariant 0 <= i && (i == 0 || i <= n)
        invariant cycles == i && dut.rst && trace == old(trace)
        invariant ResetProgress(s0, e0, d0, i)
      {
        ResetTick(s0, e0, d0, i);
        i := i + 1;
      }
      dut.rst := false;
    }

    /** Open a trace file, unless a trace is already open. */
    method OpenTrace(file: string)
      modifies this`trace
      ensures trace == if old(trace) == NoTrace then Opened(file) else old(trace)
      ensures cycles == old(cycles) && dumps == old(dumps)
    {
      if !IsTraceOpen() {
        trace := Opened(file);
      }
    }

    /** Close the trace; the tracer pointer is kept, so the trace still counts as open. */
    method CloseTrace()
      modifies this`trace
      ensures trace == match old(trace) case Opened(f) => Closed(f) case _ => old(trace)
      ensures IsTraceOpen() == old(IsTraceOpen())
      ensures cycles == old(cycles) && dumps == old(dumps)
    {
      if IsTraceOpen() {
        trace := Closed(trace.file);
      }
    }
  }
}
