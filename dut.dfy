/**
 * The Verilated SoC as the simulator host sees it. The generated RTL model is an
 * oracle `rtl`: one call of its eval() settles the design from its current
 * internal state, the clk_i/rst_i input ports and the memory array, and
 * yields the new internal state, the new memory contents, the write-back
 * debug signals and whether $finish was executed.
 */
module Dut {
  import opened Bits

  /** 64 KiB of RAM as 32-bit words. */
  const MemWords: nat := 16384

  type MemImage = s: seq<u32> | |s| == MemWords witness seq(MemWords, _ => 0)

  /** The write-back stage's debug signals that the simulator host reads after a tick. */
  datatype Probe = Probe(
    valid: bool,
    pc: u32,
    instr: u32,
    rs1: u8,
    rs2: u8,
    rd: u8,
    rs1v: u32,
    rs2v: u32,
    rdv: u32,
    rdWe: bool,
    memAddr: u32,
    rmask: u8,
    wmask: u8,
    rdata: u32,
    wdata: u32)

  /** The values on the clock and reset input ports at an eval(). */
  datatype Inputs = Inputs(clk: bool, rst: bool)

  /** The observable state of the design: internal state, memory, probe and the $finish flag. */
  datatype State<C> = State(core: C, mem: MemImage, probe: Probe, finished: bool)

  /** What one eval() of the generated model computes. */
  datatype Settled<C> = Settled(core: C, mem: MemImage, probe: Probe, finish: bool)

  /** One eval(): the $finish flag, once raised, stays raised. */
  function Step<C>(rtl: (C, Inputs, MemImage) -> Settled<C>, s: State<C>, i: Inputs): (t: State<C>)
    ensures s.finished ==> t.finished
  {
    var r := rtl(s.core, i, s.mem);
    State(r.core, r.mem, r.probe, s.finished || r.finish)
  }

  /** A sequence of eval() calls with the given inputs, in order. */
  function Steps<C>(rtl: (C, Inputs, MemImage) -> Settled<C>, s: State<C>, ins: seq<Inputs>): (t: State<C>)
    ensures s.finished ==> t.finished
    decreases |ins|
  {
    if ins == [] then s else Steps(rtl, Step(rtl, s, ins[0]), ins[1..])
  }

  lemma {:induction false} StepsAppend<C>(rtl: (C, Inputs, MemImage) -> Settled<C>, s: State<C>, a: seq<Inputs>, b: seq<Inputs>)
    ensures Steps(rtl, s, a + b) == Steps(rtl, Steps(rtl, s, a), b)
    decreases |a|
  {
    if a == [] {
      assert a + b == b;
    } else {
      assert (a + b)[1..] == a[1..] + b;
      StepsAppend(rtl, Step(rtl, s, a[0]), a[1..], b);
    }
  }

  /** Three eval() calls in a row. */
  lemma StepsThree<C>(rtl: (C, Inputs, MemImage) -> Settled<C>, s: State<C>, a: Inputs, b: Inputs, c: Inputs)
    ensures Steps(rtl, s, [a, b, c]) == Step(rtl, Step(rtl, Step(rtl, s, a), b), c)
  {
    var s1 := Step(rtl, s, a);
    var s2 := Step(rtl, s1, b);
    var s3 := Step(rtl, s2, c);
    assert [a, b, c][0] == a && [a, b, c][1..] == [b, c];
    assert [b, c][0] == b && [b, c][1..] == [c];
    assert [c][0] == c && [c][1..] == [];
    assert Steps(rtl, s2, [c]) == Steps(rtl, s3, []) == s3;
    assert Steps(rtl, s1, [b, c]) == Steps(rtl, s2, [c]);
    assert Steps(rtl, s, [a, b, c]) == Steps(rtl, s1, [b, c]);
  }

  class Dut<C> {
    var core: C
    const mem: array<u32>
    var probe: Probe
    var gotFinish: bool
    var clk: bool
    var rst: bool
    const rtl: (C, Inputs, MemImage) -> Settled<C>
    /** The input values seen by every eval() so far. */
    ghost var evals: seq<Inputs>

    predicate Valid()
    {
      mem.Length == MemWords
    }

    function Snapshot(): State<C>
      reads this, mem
      requires Valid()
    {
      State(core, mem[..], probe, gotFinish)
    }

    constructor (rtl: (C, Inputs, MemImage) -> Settled<C>, core: C, image: MemImage, probe: Probe)
      ensures Valid() && fresh(mem)
      ensures Snapshot() == State(core, image, probe, false)
      ensures this.rtl == rtl && !clk && !rst && evals == []
    {
      this.rtl := rtl;
      this.core := core;
      this.probe := probe;
      gotFinish := false;
      clk := false;
      rst := false;
      evals := [];
      mem := new u32[MemWords](i requires 0 <= i < MemWords => image[i]);
      new;
      assert mem[..] == image;
    }

    /** eval(): settle the design with the current inputs. */
    method Eval()
      requires Valid()
      modifies this, mem
      ensures Snapshot() == Step(rtl, old(Snapshot()), Inputs(clk, rst))
      ensures clk == old(clk) && rst == old(rst)
      ensures evals == old(evals) + [Inputs(clk, rst)]
    {
      var r := rtl(core, Inputs(clk, rst), mem[..]);
      core := r.core;
      probe := r.probe;
      gotFinish := gotFinish || r.finish;
      forall i | 0 <= i < mem.Length {
        mem[i] := r.mem[i];
      }
      evals := evals + [Inputs(clk, rst)];
    }
  }
}
