/**
 * The simulator object (class OrionSim in sim/orionsim.cc): it owns the
 * testbench, bridges the virtual-device registers between the firmware's
 * memory and the host, runs the clock until a termination cause arises,
 * loads and dumps memory images and writes the simulation log.
 *
 * Host output is kept as data: `stdout` holds the bytes written by
 * putchar and `log` the text written to the log file.
 */
module OrionSim {
  import opened Bits
  import opened Text
  import opened Dut
  import opened Testbench
  import opened Vdev
  import opened TraceLog
  import opened HexImage
  import opened Wrappers

  const MaxSimIterations: nat := 10_000_000
  const ResetCycles: int32 := 2

  datatype TermCause = Unknown | Finish | MaxCycles | TermReq

  /** How load_hex ended: the file could not be opened (nothing is loaded),
      every word was stored (with the byte count), a data line std::stoul
      rejects (its exception ends the program), or exit(1) on a word past the
      end of RAM. */
  datatype LoadStatus = NotOpened | Loaded(bytes: nat) | ParseAbort | ExitOutOfRange

  /** The value run() returns for a termination cause: a byte for every
      known cause when the latched code is a byte. */
  function ExitCode(cause: TermCause, swRetCode: int): (rv: int)
    ensures cause != Unknown && 0 <= swRetCode < 0x100 ==> 0 <= rv < 0x100
  {
    match cause
    case Finish => 1
    case MaxCycles => 1
    case TermReq => swRetCode
    case Unknown => -1
  }

  /** The cycle count at which run() stops for lack of cycles: reset already
      takes the counter to 2. */
  function StopCycle(maxCycles: u64): (r: nat)
    ensures r >= ResetCycles as nat && r >= maxCycles
    ensures r == ResetCycles as nat || r == maxCycles
  {
    if maxCycles <= ResetCycles as nat then ResetCycles as nat else maxCycles
  }

  /** A console store by a retiring instruction: write-strobe bit 0 to the CONSOLE address. */
  predicate ConsoleStore(p: Probe)
  {
    p.valid && And(p.wmask, 1) != 0 && p.memAddr == ConsoleAddr
  }

  /** The five words EvalVdev writes: the two counters and SIMCTRL. */
  predicate IsCounterOrCtrl(i: int)
  {
    i == CycleIndex || i == CycleHiIndex || i == InstretIndex || i == InstretHiIndex || i == SimctrlIndex
  }

  /** The byte eval_vdev echoes to stdout for the probe it examines. */
  function Echo(p: Probe): (out: seq<u8>)
    ensures |out| == if ConsoleStore(p) then 1 else 0
  {
    if ConsoleStore(p) then [And(p.wdata, 0xFF)] else []
  }

  /** eval_vdev's SIMCTRL step on the request latch (term_req, sw_ret_code):
      a word with the request bit sets it with the word's code. */
  function LatchStep(req: bool, code: int, w: u32): (l: (bool, int))
  {
    var latch := DecodeSimctrl(w);
    if latch.Request? then (true, latch.code) else (req, code)
  }

  /** A word with the request bit sets the latch with the word's low byte as
      its code; any other word leaves the latch as it was. */
  lemma LatchStepMeaning(req: bool, code: int, w: u32)
    ensures Bit(w, 8) ==> LatchStep(req, code, w) == (true, w % 0x100)
    ensures !Bit(w, 8) ==> LatchStep(req, code, w) == (req, code)
  {
    DecodeSimctrlMeaning(w);
  }

  /** The memory eval_vdev leaves: the four counter words published and
      SIMCTRL served, in eval_vdev's order. */
  function Bridge(mem: MemImage, cycles: u64, instret: u64): (m: MemImage)
  {
    WindowLayout();
    var m: seq<u32> := mem[CycleIndex := Lo32(cycles)];
    var m: seq<u32> := m[CycleHiIndex := Hi32(cycles)];
    var m: seq<u32> := m[InstretIndex := Lo32(instret)];
    var m: seq<u32> := m[InstretHiIndex := Hi32(instret)];
    var m: seq<u32> := m[SimctrlIndex := Served(mem[SimctrlIndex])];
    assert |m| == MemWords;
    m
  }

  /** What Bridge leaves: the halves of both counters, which join back to
      them, the request bit of SIMCTRL cleared if it was set, and every other
      word kept. */
  lemma BridgeMeaning(mem: MemImage, cycles: u64, instret: u64)
    ensures var m := Bridge(mem, cycles, instret);
      m[CycleIndex] == cycles % U32 && m[CycleHiIndex] == cycles / U32 &&
      m[InstretIndex] == instret % U32 && m[InstretHiIndex] == instret / U32
    ensures var m := Bridge(mem, cycles, instret);
      Join64(m[CycleHiIndex], m[CycleIndex]) == cycles && Join64(m[InstretHiIndex], m[InstretIndex]) == instret
    ensures var m := Bridge(mem, cycles, instret); var w: nat := mem[SimctrlIndex];
      m[SimctrlIndex] == if Bit(w, 8) then w - 0x100 else w
    ensures var m := Bridge(mem, cycles, instret);
      forall i :: 0 <= i < MemWords && !IsCounterOrCtrl(i) ==> m[i] == mem[i]
  {
    WindowLayout();
    CounterHalves(cycles);
    CounterHalves(instret);
  }

  /** The halves eval_vdev publishes for a 64-bit counter. */
  lemma CounterHalves(x: u64)
    ensures Lo32(x) == x % U32 && Hi32(x) == x / U32 && Join64(Hi32(x), Lo32(x)) == x
  {
    JoinSplit(x);
    HalvesAreDivMod(x);
  }

  /** The SIMCTRL word after eval_vdev: the request bit cleared if it was set. */
  function Served(w: u32): (c: u32)
    ensures var v: nat := w; c == if Bit(v, 8) then v - 0x100 else v
  {
    DecodeSimctrlMeaning(w);
    var latch := DecodeSimctrl(w);
    if latch.Request? then latch.cleared else w
  }

  /** One iteration of run()'s loop: the design's state when eval_vdev
      examined it, the instret value eval_vdev published, the cycle count
      after the tick, and the design's state the tick left behind. */
  datatype CycleRecord<C> = CycleRecord(before: State<C>, published: u64, cycle: u64, after: State<C>)
  {
    /** The probe eval_vdev examined. */
    function Bridged(): Probe
    {
      before.probe
    }

    /** The SIMCTRL word eval_vdev examined. */
    function Simctrl(): u32
    {
      WindowLayout();
      before.mem[SimctrlIndex]
    }

    /** The probe the tick left, which sim_log and the instret count read. */
    function Retired(): Probe
    {
      after.probe
    }
  }

  /** The design's state after run()'s reset of n ticks with rst_i held high. */
  ghost function AfterReset<C>(rtl: (C, Inputs, MemImage) -> Settled<C>, s: State<C>, n: nat): State<C>
  {
    Steps(rtl, s, RepeatTicks(true, n))
  }

  /** One cycle of run()'s loop on the design: eval_vdev bridges the memory
      with the counter and instret values, then the clock ticks with rst_i at `rst`. */
  ghost function BridgeAndTick<C>(rtl: (C, Inputs, MemImage) -> Settled<C>, s: State<C>, rst: bool,
                                  cycles: u64, instret: u64): State<C>
  {
    Steps(rtl, s.(mem := Bridge(s.mem, cycles, instret)), TickInputs(rst))
  }

  /** The record's tick: from the state eval_vdev examined, with the counter
      one below the record's cycle and the published instret count. */
  ghost predicate Ticked<C>(rtl: (C, Inputs, MemImage) -> Settled<C>, r: CycleRecord<C>)
  {
    1 <= r.cycle && r.after == BridgeAndTick(rtl, r.before, false, r.cycle - 1, r.published)
  }

  /** The bytes echoed to stdout over the cycles of a history, in order. */
  function EchoOf<C>(h: seq<CycleRecord<C>>): (out: seq<u8>)
    ensures |out| <= |h|
  {
    if h == [] then [] else EchoOf(h[..|h| - 1]) + Echo(h[|h| - 1].Bridged())
  }

  /** The number of cycles of a history whose tick left a valid probe, each of
      which bumps instret. */
  function CountRetired<C>(h: seq<CycleRecord<C>>): (n: nat)
    ensures n <= |h|
  {
    if h == [] then 0 else CountRetired(h[..|h| - 1]) + (if h[|h| - 1].Retired().valid then 1 else 0)
  }

  /** The log text written over the cycles of a history, in the given format. */
  function LogOf<C>(format: string, h: seq<CycleRecord<C>>): (text: string)
    ensures h == [] ==> text == []
  {
    if h == [] then [] else LogOf(format, h[..|h| - 1]) + LogEntry(format, h[|h| - 1].cycle, h[|h| - 1].Retired())
  }

  /** The request latch after the cycles of a history, from (req, code). */
  function Latched<C>(req: bool, code: int, h: seq<CycleRecord<C>>): (l: (bool, int))
    ensures req ==> l.0
  {
    if h == [] then (req, code)
    else
      var l := Latched(req, code, h[..|h| - 1]);
      LatchStep(l.0, l.1, h[|h| - 1].Simctrl())
  }

  /** Some cycle of the history found the request bit set in SIMCTRL. */
  predicate Requested<C>(h: seq<CycleRecord<C>>)
  {
    exists k :: 0 <= k < |h| && Bit(h[k].Simctrl(), 8)
  }

  /** Cycle k found the last request of the history. */
  predicate LastRequest<C>(h: seq<CycleRecord<C>>, k: int)
  {
    0 <= k < |h| && Bit(h[k].Simctrl(), 8) && forall j :: k < j < |h| ==> !Bit(h[j].Simctrl(), 8)
  }

  /** Each summary of a history one cycle further on. */
  lemma EchoSnoc<C>(h: seq<CycleRecord<C>>, r: CycleRecord<C>)
    ensures EchoOf(h + [r]) == EchoOf(h) + Echo(r.Bridged())
  {
    assert (h + [r])[..|h|] == h;
  }

  lemma CountRetiredSnoc<C>(h: seq<CycleRecord<C>>, r: CycleRecord<C>)
    ensures CountRetired(h + [r]) == CountRetired(h) + if r.Retired().valid then 1 else 0
  {
    assert (h + [r])[..|h|] == h;
  }

  lemma LogSnoc<C>(format: string, h: seq<CycleRecord<C>>, r: CycleRecord<C>)
    ensures LogOf(format, h + [r]) == LogOf(format, h) + LogEntry(format, r.cycle, r.Retired())
  {
    var hr := h + [r];
    assert hr[..|hr| - 1] == h && hr[|hr| - 1] == r;
    var e := LogEntry(format, r.cycle, r.Retired());
    assert LogOf(format, hr) == LogOf(format, h) + e;
  }

  lemma LatchedSnoc<C>(req: bool, code: int, h: seq<CycleRecord<C>>, r: CycleRecord<C>)
    ensures var l := Latched(req, code, h); Latched(req, code, h + [r]) == LatchStep(l.0, l.1, r.Simctrl())
  {
    assert (h + [r])[..|h|] == h;
  }

  /** The outputs run() accumulates: stdout, instret, the request latch
      (term_req, sw_ret_code) and the log text. */
  datatype Outputs = Outputs(stdout: seq<u8>, instret: u64, termReq: bool, swRetCode: int, log: string)

  /** Outputs `now` are those of `start` followed by what the cycles of h
      produce, with the log written only while it is open. */
  ghost predicate Accounted<C>(h: seq<CycleRecord<C>>, start: Outputs, now: Outputs, logOpen: bool, format: string)
  {
    now.stdout == start.stdout + EchoOf(h) &&
    now.instret == Inc64Times(start.instret, CountRetired(h)) &&
    (now.termReq, now.swRetCode) == Latched(start.termReq, start.swRetCode, h) &&
    now.log == start.log + (if logOpen then LogOf(format, h) else [])
  }

  /** No cycle of h began where one of run()'s stop checks holds: the design
      had not raised $finish, and term_req, latched from (req, code) over the
      cycles before it, was clear. */
  ghost predicate NoneStopped<C>(h: seq<CycleRecord<C>>, req: bool, code: int)
  {
    h == [] ||
    var p := h[..|h| - 1];
    NoneStopped(p, req, code) && !h[|h| - 1].before.finished && !Latched(req, code, p).0
  }

  lemma NoneStoppedSnoc<C>(h: seq<CycleRecord<C>>, r: CycleRecord<C>, req: bool, code: int)
    requires NoneStopped(h, req, code) && !r.before.finished && !Latched(req, code, h).0
    ensures NoneStopped(h + [r], req, code)
  {
    assert (h + [r])[..|h|] == h;
  }

  /** Cycle k of a history none of whose cycles stopped began with $finish
      not raised and term_req clear. */
  lemma {:induction false} NoneStoppedAt<C>(h: seq<CycleRecord<C>>, req: bool, code: int, k: nat)
    requires NoneStopped(h, req, code) && k < |h|
    ensures !h[k].before.finished && !Latched(req, code, h[..k]).0
  {
    var p := h[..|h| - 1];
    if k < |p| {
      NoneStoppedAt(p, req, code, k);
      assert p[k] == h[k] && p[..k] == h[..k];
    } else {
      assert h[..k] == p;
    }
  }

  /** The cycles of h are numbered from 3 on, and each is a tick of the design. */
  ghost predicate TicksFrom3<C>(rtl: (C, Inputs, MemImage) -> Settled<C>, h: seq<CycleRecord<C>>)
  {
    forall k :: 0 <= k < |h| ==> h[k].cycle == k + 3 && Ticked(rtl, h[k])
  }

  /** Each cycle of h publishes the instret count of the cycles before it. */
  ghost predicate PublishesInstret<C>(h: seq<CycleRecord<C>>, instret0: u64)
  {
    forall k :: 0 <= k < |h| ==> h[k].published == Inc64Times(instret0, CountRetired(h[..k]))
  }

  /** The cycles of h run from `first` to `now`, each from the state its predecessor left. */
  ghost predicate Linked<C>(h: seq<CycleRecord<C>>, first: State<C>, now: State<C>)
  {
    (forall k :: 0 < k < |h| ==> h[k].before == h[k - 1].after) &&
    (if h == [] then now == first else h[0].before == first && h[|h| - 1].after == now)
  }

  /** The cycles of h are the ticks after reset, numbered from 3 up to the
      counter: the first starts from the post-reset state `first`, each
      starts from the state its predecessor left, each publishes the
      instret count of the cycles before it, and the last leaves `now`. */
  ghost predicate Chained<C>(rtl: (C, Inputs, MemImage) -> Settled<C>, h: seq<CycleRecord<C>>,
                             first: State<C>, instret0: u64, cycles: int, now: State<C>)
  {
    |h| == cycles - 2 && TicksFrom3(rtl, h) && PublishesInstret(h, instret0) && Linked(h, first, now)
  }

  /** run()'s loop replayed for n cycles from the post-reset state `first`
      with instret at instret0: the design state and the instret count after
      them. Cycle k (from 1) bridges with the counter at k + 1, then ticks. */
  ghost function Replay<C>(rtl: (C, Inputs, MemImage) -> Settled<C>, first: State<C>, instret0: u64, n: nat): (State<C>, u64)
    requires n + 2 < U64
  {
    if n == 0 then (first, instret0)
    else
      var prev := Replay(rtl, first, instret0, n - 1);
      var t := BridgeAndTick(rtl, prev.0, false, n + 1, prev.1);
      (t, if t.probe.valid then Inc64(prev.1) else prev.1)
  }

  /** A prefix one longer is the shorter prefix and its next element. */
  lemma PrefixSnoc<T>(h: seq<T>, j: nat)
    requires 0 < j <= |h|
    ensures h[..j - 1] + [h[j - 1]] == h[..j]
  {
  }

  /** One more replayed cycle is the record's tick from the replayed state
      and count. */
  lemma ReplayStep<C>(rtl: (C, Inputs, MemImage) -> Settled<C>, first: State<C>, instret0: u64, j: nat, r: CycleRecord<C>)
    requires 1 <= j && j + 2 < U64
    requires Replay(rtl, first, instret0, j - 1) == (r.before, r.published)
    requires Ticked(rtl, r) && r.cycle == j + 2
    ensures Replay(rtl, first, instret0, j) == (r.after, if r.Retired().valid then Inc64(r.published) else r.published)
  {
    var c: u64 := j + 1;
    assert r.cycle - 1 == c;
    assert BridgeAndTick(rtl, r.before, false, c, r.published) == r.after;
  }

  /** One more cycle bumps the instret count exactly when its tick retired an instruction. */
  lemma CountStep<C>(instret0: u64, p: seq<CycleRecord<C>>, r: CycleRecord<C>)
    ensures var n := Inc64Times(instret0, CountRetired(p));
      Inc64Times(instret0, CountRetired(p + [r])) == if r.Retired().valid then Inc64(n) else n
  {
    CountRetiredSnoc(p, r);
    var n := CountRetired(p);
    assert Inc64Times(instret0, n + 1) == Inc64(Inc64Times(instret0, n));
  }

  /** The first j cycles of a chain are the replay of j cycles: cycle j
      starts from the replayed state and publishes the replayed count. */
  lemma {:induction false} ChainedPrefixIsReplay<C>(rtl: (C, Inputs, MemImage) -> Settled<C>, h: seq<CycleRecord<C>>,
                                                   first: State<C>, instret0: u64, now: State<C>, j: nat)
    requires TicksFrom3(rtl, h) && PublishesInstret(h, instret0) && Linked(h, first, now)
    requires |h| + 2 < U64 && j <= |h|
    ensures Replay(rtl, first, instret0, j).0 == if j < |h| then h[j].before else now
    ensures Replay(rtl, first, instret0, j).1 == Inc64Times(instret0, CountRetired(h[..j]))
  {
    if j == 0 {
      assert h[..0] == [];
    } else {
      ChainedPrefixIsReplay(rtl, h, first, instret0, now, j - 1);
      var r := h[j - 1];
      PrefixSnoc(h, j);
      CountStep(instret0, h[..j - 1], r);
      ReplayStep(rtl, first, instret0, j, r);
      if j < |h| {
        assert h[j].before == r.after;
      }
    }
  }

  /** A chain ends in the state, and at the instret count, of replaying its cycles. */
  lemma ChainedIsReplay<C>(rtl: (C, Inputs, MemImage) -> Settled<C>, h: seq<CycleRecord<C>>,
                           first: State<C>, instret0: u64, cycles: int, now: State<C>)
    requires Chained(rtl, h, first, instret0, cycles, now) && cycles < U64
    ensures Replay(rtl, first, instret0, |h|) == (now, Inc64Times(instret0, CountRetired(h)))
  {
    ChainedPrefixIsReplay(rtl, h, first, instret0, now, |h|);
    assert h[..|h|] == h;
  }

  /** None of the first n replayed loop cycles started after $finish. */
  ghost predicate UnfinishedBefore<C>(rtl: (C, Inputs, MemImage) -> Settled<C>, first: State<C>, instret0: u64, n: nat)
    requires n + 1 < U64
  {
    forall k :: 0 <= k < n ==> !Replay(rtl, first, instret0, k).0.finished
  }

  /** Along a chain none of whose cycles began after $finish, no replayed
      state before the chain's end has raised $finish. */
  lemma ChainedUnfinished<C>(rtl: (C, Inputs, MemImage) -> Settled<C>, h: seq<CycleRecord<C>>, first: State<C>,
                             instret0: u64, cycles: int, now: State<C>, req: bool, code: int)
    requires Chained(rtl, h, first, instret0, cycles, now) && cycles < U64 && NoneStopped(h, req, code)
    ensures UnfinishedBefore(rtl, first, instret0, |h|)
  {
    forall n | 0 <= n < |h| ensures !Replay(rtl, first, instret0, n).0.finished {
      ChainedPrefixIsReplay(rtl, h, first, instret0, now, n);
      NoneStoppedAt(h, req, code, n);
    }
  }

  /** Appending to an extended text extends it by both parts, in order. */
  lemma AppendAssoc(start: string, now: string, next: string, l: string, e: string)
    requires next == now + e && now == start + l
    ensures next == start + (l + e)
  {
  }

  /** A cycle that produces its outputs on top of accounted outputs keeps them accounted. */
  lemma AccountedSnoc<C>(h: seq<CycleRecord<C>>, r: CycleRecord<C>, start: Outputs, now: Outputs, next: Outputs,
                      logOpen: bool, format: string)
    requires Accounted(h, start, now, logOpen, format)
    requires next.stdout == now.stdout + Echo(r.Bridged())
    requires next.instret == if r.Retired().valid then Inc64(now.instret) else now.instret
    requires (next.termReq, next.swRetCode) == LatchStep(now.termReq, now.swRetCode, r.Simctrl())
    requires next.log == now.log + (if logOpen then LogEntry(format, r.cycle, r.Retired()) else [])
    ensures Accounted(h + [r], start, next, logOpen, format)
  {
    assert next.stdout == start.stdout + EchoOf(h + [r]) by {
      EchoSnoc(h, r);
    }
    assert next.instret == Inc64Times(start.instret, CountRetired(h + [r])) by {
      CountRetiredSnoc(h, r);
    }
    assert (next.termReq, next.swRetCode) == Latched(start.termReq, start.swRetCode, h + [r]) by {
      LatchedSnoc(start.termReq, start.swRetCode, h, r);
    }
    if logOpen {
      LogSnoc(format, h, r);
      AppendAssoc(start.log, now.log, next.log, LogOf(format, h), LogEntry(format, r.cycle, r.Retired()));
    }
  }

  lemma TicksFrom3Snoc<C>(rtl: (C, Inputs, MemImage) -> Settled<C>, h: seq<CycleRecord<C>>, r: CycleRecord<C>)
    requires TicksFrom3(rtl, h) && r.cycle == |h| + 3 && Ticked(rtl, r)
    ensures TicksFrom3(rtl, h + [r])
  {
    var g := h + [r];
    forall k | 0 <= k < |g| ensures g[k].cycle == k + 3 && Ticked(rtl, g[k]) {
      if k < |h| {
        assert g[k] == h[k];
      }
    }
  }

  lemma PublishesInstretSnoc<C>(h: seq<CycleRecord<C>>, r: CycleRecord<C>, instret0: u64)
    requires PublishesInstret(h, instret0) && r.published == Inc64Times(instret0, CountRetired(h))
    ensures PublishesInstret(h + [r], instret0)
  {
    var g := h + [r];
    forall k | 0 <= k < |g| ensures g[k].published == Inc64Times(instret0, CountRetired(g[..k])) {
      if k < |h| {
        assert g[k] == h[k] && g[..k] == h[..k];
      } else {
        assert g[..k] == h;
      }
    }
  }

  lemma LinkedSnoc<C>(h: seq<CycleRecord<C>>, r: CycleRecord<C>, first: State<C>, now: State<C>)
    requires Linked(h, first, now) && r.before == now
    ensures Linked(h + [r], first, r.after)
  {
    var g := h + [r];
    forall k | 0 < k < |g| ensures g[k].before == g[k - 1].after {
      assert g[k - 1] == h[k - 1];
      if k < |h| {
        assert g[k] == h[k];
      }
    }
    assert g[0].before == first by {
      if h != [] {
        assert g[0] == h[0];
      }
    }
    assert g[|g| - 1] == r;
  }

  /** The next tick, from the current state and publishing the current
      instret count, extends the chain. */
  lemma ChainedSnoc<C>(rtl: (C, Inputs, MemImage) -> Settled<C>, h: seq<CycleRecord<C>>, r: CycleRecord<C>,
                       first: State<C>, instret0: u64, cycles: int, now: State<C>)
    requires Chained(rtl, h, first, instret0, cycles, now)
    requires r.before == now && r.cycle == cycles + 1 && Ticked(rtl, r)
    requires r.published == Inc64Times(instret0, CountRetired(h))
    ensures Chained(rtl, h + [r], first, instret0, cycles + 1, r.after)
  {
    TicksFrom3Snoc(rtl, h, r);
    PublishesInstretSnoc(h, r, instret0);
    LinkedSnoc(h, r, first, now);
  }

  /** A history h0 followed by the chained cycles since `first` that
      account for the outputs `outs` since `start`, none of which began
      where a stop check held. */
  ghost predicate Recorded<C>(rtl: (C, Inputs, MemImage) -> Settled<C>, h0: seq<CycleRecord<C>>, history: seq<CycleRecord<C>>,
                              start: Outputs, first: State<C>, cycles: int, now: State<C>, outs: Outputs,
                              logOpen: bool, format: string)
  {
    |h0| <= |history| && history[..|h0|] == h0 &&
    Chained(rtl, history[|h0|..], first, start.instret, cycles, now) &&
    Accounted(history[|h0|..], start, outs, logOpen, format) &&
    NoneStopped(history[|h0|..], start.termReq, start.swRetCode)
  }

  /** The recorded cycles since `first` end in the replayed state and
      instret count, and none of the replayed cycles before them started
      after $finish. */
  lemma RecordedIsReplay<C>(rtl: (C, Inputs, MemImage) -> Settled<C>, h0: seq<CycleRecord<C>>, history: seq<CycleRecord<C>>,
                            start: Outputs, first: State<C>, cycles: int, now: State<C>, outs: Outputs,
                            logOpen: bool, format: string)
    requires Recorded(rtl, h0, history, start, first, cycles, now, outs, logOpen, format) && 2 <= cycles < U64
    ensures Replay(rtl, first, start.instret, cycles - 2) == (now, outs.instret)
    ensures UnfinishedBefore(rtl, first, start.instret, cycles - 2)
  {
    var h := history[|h0|..];
    ChainedIsReplay(rtl, h, first, start.instret, cycles, now);
    ChainedUnfinished(rtl, h, first, start.instret, cycles, now, start.termReq, start.swRetCode);
  }

  /** The cycles after h0 with one more cycle appended. */
  lemma TailSnoc<C>(h0: seq<CycleRecord<C>>, history: seq<CycleRecord<C>>, r: CycleRecord<C>)
    requires |h0| <= |history| && history[..|h0|] == h0
    ensures (history + [r])[..|h0|] == h0 && (history + [r])[|h0|..] == history[|h0|..] + [r]
  {
  }

  /** One more cycle, from the current state and with the outputs of its
      eval_vdev, tick and sim_log, extends the record. */
  lemma RecordedSnoc<C>(rtl: (C, Inputs, MemImage) -> Settled<C>, h0: seq<CycleRecord<C>>, history: seq<CycleRecord<C>>,
                        r: CycleRecord<C>, start: Outputs, first: State<C>, cycles: int, now: State<C>,
                        outs: Outputs, next: Outputs, logOpen: bool, format: string)
    requires Recorded(rtl, h0, history, start, first, cycles, now, outs, logOpen, format)
    requires r.before == now && r.cycle == cycles + 1 && Ticked(rtl, r) && r.published == outs.instret
    requires !now.finished && !outs.termReq
    requires next.stdout == outs.stdout + Echo(r.Bridged())
    requires next.instret == if r.Retired().valid then Inc64(outs.instret) else outs.instret
    requires (next.termReq, next.swRetCode) == LatchStep(outs.termReq, outs.swRetCode, r.Simctrl())
    requires next.log == outs.log + (if logOpen then LogEntry(format, r.cycle, r.Retired()) else [])
    ensures Recorded(rtl, h0, history + [r], start, first, cycles + 1, r.after, next, logOpen, format)
  {
    var h := history[|h0|..];
    TailSnoc(h0, history, r);
    AccountedSnoc(h, r, start, outs, next, logOpen, format);
    ChainedSnoc(rtl, h, r, first, start.instret, cycles, now);
    NoneStoppedSnoc(h, r, start.termReq, start.swRetCode);
  }

  /** Requested, one cycle shorter: a cycle without the request bit adds no request. */
  lemma RequestedPrefix<C>(h: seq<CycleRecord<C>>)
    requires h != [] && !Bit(h[|h| - 1].Simctrl(), 8)
    ensures Requested(h) <==> Requested(h[..|h| - 1])
  {
    var p := h[..|h| - 1];
    if Requested(h) {
      var k :| 0 <= k < |h| && Bit(h[k].Simctrl(), 8);
      assert p[k] == h[k];
    }
    if Requested(p) {
      var k :| 0 <= k < |p| && Bit(p[k].Simctrl(), 8);
      assert h[k] == p[k];
    }
  }

  /** After a history the latch is set exactly when it was set before or some
      cycle found the request bit in SIMCTRL. */
  lemma {:induction false} LatchedSet<C>(req: bool, code: int, h: seq<CycleRecord<C>>)
    ensures Latched(req, code, h).0 <==> req || Requested(h)
  {
    if h != [] {
      var p := h[..|h| - 1];
      var w := h[|h| - 1].Simctrl();
      var l := Latched(req, code, p);
      LatchedSet(req, code, p);
      LatchStepMeaning(l.0, l.1, w);
      if !Bit(w, 8) {
        RequestedPrefix(h);
      }
    }
  }

  /** The code latched after a history is the low byte of the last SIMCTRL
      word that carried the request bit. */
  lemma {:induction false} LatchedCode<C>(req: bool, code: int, h: seq<CycleRecord<C>>, k: int)
    requires LastRequest(h, k)
    ensures Latched(req, code, h).1 == h[k].Simctrl() % 0x100
  {
    var p := h[..|h| - 1];
    var w := h[|h| - 1].Simctrl();
    var l := Latched(req, code, p);
    LatchStepMeaning(l.0, l.1, w);
    if k < |h| - 1 {
      assert !Bit(w, 8);
      assert LastRequest(p, k) by {
        assert p[k] == h[k];
        forall j | k < j < |p| ensures !Bit(p[j].Simctrl(), 8) {
          assert p[j] == h[j];
        }
      }
      LatchedCode(req, code, p, k);
    }
  }

  /** A history in which no cycle found a request leaves the latch and its code as they were. */
  lemma {:induction false} LatchedNone<C>(req: bool, code: int, h: seq<CycleRecord<C>>)
    requires !Requested(h)
    ensures Latched(req, code, h) == (req, code)
  {
    if h != [] {
      var p := h[..|h| - 1];
      var w := h[|h| - 1].Simctrl();
      assert !Bit(w, 8) by {
        assert !(0 <= |h| - 1 < |h| && Bit(h[|h| - 1].Simctrl(), 8));
      }
      RequestedPrefix(h);
      LatchedNone(req, code, p);
      LatchStepMeaning(req, code, w);
    }
  }

  /** The constructor's loop: zero the words of the VDEV window, one address at a time. */
  method ClearVdev(mem: array<u32>)
    requires mem.Length == MemWords
    modifies mem
    ensures forall i :: 0 <= i < MemWords ==>
              mem[i] == if i >= WordIndex(VdevAddr) then 0 else old(mem[i])
  {
    WindowLayout();
    var addr := VdevAddr;
    while addr < VdevAddr + VdevSize
      invariant VdevAddr <= addr <= VdevAddr + VdevSize && (addr - VdevAddr) % 4 == 0
      invariant forall i :: 0 <= i < MemWords ==>
                  mem[i] == if WordIndex(VdevAddr) <= i < WordIndex(addr) then 0 else old(mem[i])
    {
      mem[WordIndex(addr)] := 0;
      addr := addr + 4;
    }
  }

  /** eval_vdev's counter registers: the low and high words of the cycle
      count and of the retired-instruction count. */
  method PublishCounters(mem: array<u32>, cycles: u64, instret: u64)
    requires mem.Length == MemWords
    modifies mem
    ensures mem[CycleIndex] == cycles % U32 && mem[CycleHiIndex] == cycles / U32
    ensures mem[InstretIndex] == instret % U32 && mem[InstretHiIndex] == instret / U32
    ensures forall i :: 0 <= i < MemWords && !IsCounterOrCtrl(i) ==> mem[i] == old(mem[i])
    ensures mem[SimctrlIndex] == old(mem[SimctrlIndex])
    ensures Join64(mem[CycleHiIndex], mem[CycleIndex]) == cycles
    ensures Join64(mem[InstretHiIndex], mem[InstretIndex]) == instret
  {
    WindowLayout();
    mem[CycleIndex] := Lo32(cycles);
    mem[CycleHiIndex] := Hi32(cycles);
    mem[InstretIndex] := Lo32(instret);
    mem[InstretHiIndex] := Hi32(instret);
    HalvesAreDivMod(cycles);
    HalvesAreDivMod(instret);
    JoinSplit(cycles);
    JoinSplit(instret);
  }

  /** eval_vdev's SIMCTRL register: a finish request is taken and its bit cleared. */
  method ServeSimctrl(mem: array<u32>) returns (latch: Latch)
    requires mem.Length == MemWords
    modifies mem
    ensures var w: nat := old(mem[SimctrlIndex]);
      if Bit(w, 8) then
        latch.Request? && latch.code == w % 0x100 && latch.cleared == w - 0x100 && mem[SimctrlIndex] == w - 0x100
      else latch == NoRequest && mem[SimctrlIndex] == w
    ensures forall i :: 0 <= i < MemWords && i != SimctrlIndex ==> mem[i] == old(mem[i])
  {
    WindowLayout();
    var simctrl := mem[SimctrlIndex];
    DecodeSimctrlMeaning(simctrl);
    latch := DecodeSimctrl(simctrl);
    if latch.Request? {
      mem[SimctrlIndex] := latch.cleared;
    }
  }

  /** A memory that agrees with Bridge word by word is Bridge's memory. */
  lemma BridgeWords(before: MemImage, after: seq<u32>, cycles: u64, instret: u64)
    requires |after| == MemWords
    requires after[CycleIndex] == cycles % U32 && after[CycleHiIndex] == cycles / U32
    requires after[InstretIndex] == instret % U32 && after[InstretHiIndex] == instret / U32
    requires var w: nat := before[SimctrlIndex]; after[SimctrlIndex] == if Bit(w, 8) then w - 0x100 else w
    requires forall i :: 0 <= i < MemWords && !IsCounterOrCtrl(i) ==> after[i] == before[i]
    ensures after == Bridge(before, cycles, instret)
  {
    var b := Bridge(before, cycles, instret);
    BridgeMeaning(before, cycles, instret);
    forall i | 0 <= i < MemWords ensures after[i] == b[i] {
    }
  }

  /** eval_vdev's memory side: publish the counters, then serve SIMCTRL. */
  method BridgeMem(mem: array<u32>, cycles: u64, instret: u64) returns (latch: Latch)
    requires mem.Length == MemWords
    modifies mem
    ensures latch == DecodeSimctrl(old(mem[SimctrlIndex]))
    ensures mem[..] == Bridge(old(mem[..]), cycles, instret)
  {
    ghost var before := mem[..];
    WindowLayout();
    DecodeSimctrlMeaning(mem[SimctrlIndex]);
    PublishCounters(mem, cycles, instret);
    latch := ServeSimctrl(mem);
    BridgeWords(before, mem[..], cycles, instret);
    assert latch == DecodeSimctrl(before[SimctrlIndex]) by {
      DecodeSimctrlMeaning(before[SimctrlIndex]);
    }
  }

  /** What loading the lines of a hex file into memory `before` yields: a file
      whose every data line parses and that fits is stored word by word from
      address 0; a first data line std::stoul rejects aborts; one word more than
      RAM holds exits with every word of RAM written. */
  ghost predicate LoadOutcome(lines: seq<string>, before: seq<u32>, status: LoadStatus, after: seq<u32>)
    requires |before| == MemWords
  {
    (WellFormed(lines) && |DataWords(lines)| <= MemWords ==>
       status == Loaded(4 * |DataWords(lines)|) && after == Overlay(before, DataWords(lines))) &&
    (status.Loaded? ==> WellFormed(lines) && |DataWords(lines)| <= MemWords) &&
    (status == ParseAbort ==>
       exists j :: 0 <= j < |lines| && WellFormed(lines[..j]) &&
         |DataWords(lines[..j])| <= MemWords &&
         IsDataLine(lines[j]) && Stoul16(lines[j]).None?) &&
    (status == ExitOutOfRange ==>
       exists j :: 0 <= j <= |lines| && WellFormed(lines[..j]) &&
         |DataWords(lines[..j])| == MemWords + 1 &&
         after == DataWords(lines[..j])[..MemWords])
  }

  /** load_hex's loop over the lines of an open file: skip empty and '@'
      lines, parse the others with std::stoul and store them at consecutive
      word addresses from 0, stopping at a word past the end of RAM. */
  method LoadLines(mem: array<u32>, lines: seq<string>) returns (status: LoadStatus)
    requires mem.Length == MemWords
    modifies mem
    ensures status != NotOpened
    ensures LoadOutcome(lines, old(mem[..]), status, mem[..])
  {
    var addr: nat := 0;
    var nbytes: nat := 0;
    var j := 0;
    while j < |lines|
      invariant 0 <= j <= |lines| && WellFormed(lines[..j])
      invariant addr == nbytes == 4 * |DataWords(lines[..j])| && addr <= MemSize
      invariant mem[..] == Overlay(old(mem[..]), DataWords(lines[..j]))
    {
      var line := lines[j];
      if line == [] || line[0] == '@' {
        DataWordsSnoc(lines, j);
        j := j + 1;
        continue;
      }
      var parsed := Stoul16(line);
      if parsed.None? {
        assert IsDataLine(lines[j]) && Stoul16(lines[j]).None?;
        assert |DataWords(lines[..j])| <= MemWords;
        status := ParseAbort;
        return;
      }
      var data: u32 := parsed.value % U32;
      DataWordsSnoc(lines, j);
      ghost var before := DataWords(lines[..j]);
      j := j + 1;
      if !(addr < MemSize) {
        assert mem[..] == before == DataWords(lines[..j])[..MemWords];
        if WellFormed(lines) {
          DataWordsPrefix(lines, j);
        }
        status := ExitOutOfRange;
        return;
      }
      mem[addr / 4] := data;
      addr := addr + 4;
      nbytes := nbytes + 4;
    }
    assert lines[..j] == lines;
    status := Loaded(nbytes);
  }

  class OrionSim<C> {
    const tb: Testbench<C>
    var maxCycles: u64
    var instret: u64
    var termReq: bool
    var termPc: u32
    var termCause: TermCause
    var swRetCode: int
    var logOpen: bool
    var log: string
    var logFormat: string
    var stdout: seq<u8>
    /** What every iteration of run()'s loop so far saw. */
    ghost var history: seq<CycleRecord<C>>

    predicate Valid()
      reads this
    {
      tb.Valid() &&
      (logFormat == "spike" || logFormat == "default") &&
      0 <= swRetCode < 0x100
    }

    /** Build the testbench around the design and clear the eight VDEV words. */
    constructor (rtl: (C, Inputs, MemImage) -> Settled<C>, core: C, image: MemImage, probe: Probe)
      ensures Valid() && fresh(tb) && fresh(tb.dut) && fresh(tb.dut.mem)
      ensures forall i :: 0 <= i < MemWords ==>
                tb.dut.mem[i] == if i >= WordIndex(VdevAddr) then 0 else image[i]
      ensures tb.cycles == 0 && tb.trace == NoTrace && !tb.dut.gotFinish
      ensures maxCycles == MaxSimIterations && instret == 0
      ensures !termReq && termPc == 0 && termCause == Unknown && swRetCode == 0
      ensures !logOpen && log == [] && logFormat == "default" && stdout == [] && history == []
    {
      var dut := new Dut(rtl, core, image, probe);
      tb := new Testbench(dut);
      maxCycles := MaxSimIterations;
      instret := 0;
      termReq := false;
      termPc := 0;
      termCause := Unknown;
      swRetCode := 0;
      logOpen := false;
      log := [];
      logFormat := "default";
      stdout := [];
      history := [];
      new;
      ClearVdev(dut.mem);
    }

    /** Bridge the VDEV registers after a cycle: echo a console store to stdout,
        publish the cycle and retired-instruction counters, and latch a finish
        request from SIMCTRL. */
    method EvalVdev()
      requires Valid()
      modifies this`stdout, this`termReq, this`swRetCode, tb.dut.mem
      ensures Valid()
      ensures stdout == old(stdout) + Echo(tb.dut.probe)
      ensures tb.dut.mem[..] == Bridge(old(tb.dut.mem[..]), tb.cycles, instret)
      ensures (termReq, swRetCode) == LatchStep(old(termReq), old(swRetCode), old(tb.dut.mem[SimctrlIndex]))
    {
      stdout := stdout + Echo(tb.dut.probe);
      var latch := BridgeMem(tb.dut.mem, tb.GetCycles(), instret);
      if latch.Request? {
        termReq := true;
        swRetCode := latch.code;
      }
    }

    /** The second half of an iteration of run()'s loop: tick, log, count a
        retired instruction, and record the cycle with what eval_vdev examined. */
    method TickAndLog(ghost before: State<C>, ghost published: u64)
      requires Valid() && tb.cycles < maxCycles
      modifies this, tb, tb.dut, tb.dut.mem
      ensures Valid()
      ensures history == old(history) + [CycleRecord(before, published, tb.cycles, tb.dut.Snapshot())]
      ensures tb.cycles == old(tb.cycles) + 1 && tb.dut.rst == old(tb.dut.rst)
      ensures tb.dut.Snapshot() == Steps(tb.dut.rtl, old(tb.dut.Snapshot()), TickInputs(tb.dut.rst))
      ensures log == old(log) + (if logOpen then LogEntry(logFormat, tb.cycles, tb.dut.probe) else [])
      ensures instret == if tb.dut.probe.valid then Inc64(old(instret)) else old(instret)
      ensures stdout == old(stdout) && termReq == old(termReq) && swRetCode == old(swRetCode)
      ensures maxCycles == old(maxCycles) && logFormat == old(logFormat) && logOpen == old(logOpen)
      ensures termPc == old(termPc) && termCause == old(termCause)
    {
      tb.Tick();
      if logOpen {
        SimLog();
      }
      if tb.dut.probe.valid {
        instret := Inc64(instret);
      }
      history := history + [CycleRecord(before, published, tb.cycles, tb.dut.Snapshot())];
    }

    /** One iteration of run()'s loop after the termination checks: bridge
        the VDEV registers, tick, log, and count a retired instruction. */
    method Cycle()
      requires Valid() && tb.cycles < maxCycles
      modifies this, tb, tb.dut, tb.dut.mem
      ensures Valid()
      ensures history == old(history) + [CycleRecord(old(tb.dut.Snapshot()), old(instret), tb.cycles, tb.dut.Snapshot())]
      ensures tb.cycles == old(tb.cycles) + 1
      ensures tb.dut.rst == old(tb.dut.rst)
      ensures tb.dut.Snapshot() == BridgeAndTick(tb.dut.rtl, old(tb.dut.Snapshot()), tb.dut.rst, old(tb.cycles), old(instret))
      ensures stdout == old(stdout) + Echo(old(tb.dut.probe))
      ensures (termReq, swRetCode) == LatchStep(old(termReq), old(swRetCode), old(tb.dut.mem[SimctrlIndex]))
      ensures log == old(log) + (if logOpen then LogEntry(logFormat, tb.cycles, tb.dut.probe) else [])
      ensures instret == if tb.dut.probe.valid then Inc64(old(instret)) else old(instret)
      ensures maxCycles == old(maxCycles) && logFormat == old(logFormat) && logOpen == old(logOpen)
      ensures termPc == old(termPc) && termCause == old(termCause)
    {
      ghost var before := tb.dut.Snapshot();
      ghost var published := instret;
      EvalVdev();
      TickAndLog(before, published);
    }

    /** The outputs accumulated so far. */
    function Outs(): (o: Outputs)
      reads this`stdout, this`instret, this`termReq, this`swRetCode, this`log
      ensures o.stdout == stdout && o.log == log && o.instret == instret
      ensures o.termReq == termReq && o.swRetCode == swRetCode
    {
      Outputs(stdout, instret, termReq, swRetCode, log)
    }

    /** Since run()'s loop started, with history h0, outputs `start` and the
        design in the post-reset state `first`: rst_i is low, the cycles
        recorded after h0 are the chained ticks from `first` to the current
        state, and they account for every output. */
    ghost predicate Progress(h0: seq<CycleRecord<C>>, start: Outputs, first: State<C>)
      reads this`history, this`stdout, this`instret, this`termReq, this`swRetCode, this`log
      reads this`logOpen, this`logFormat, tb`cycles, tb.dut, tb.dut.mem
    {
      tb.dut.Valid() && !tb.dut.rst &&
      Recorded(tb.dut.rtl, h0, history, start, first, tb.cycles, tb.dut.Snapshot(), Outs(), logOpen, logFormat)
    }

    /** One iteration of run()'s loop, entered when no stop check holds, keeps Progress. */
    method RunCycle(ghost h0: seq<CycleRecord<C>>, ghost start: Outputs, ghost first: State<C>)
      requires Valid() && tb.cycles < maxCycles && !tb.dut.gotFinish && !termReq
      requires Progress(h0, start, first)
      modifies this, tb, tb.dut, tb.dut.mem
      ensures Valid() && tb.cycles == old(tb.cycles) + 1
      ensures Progress(h0, start, first)
      ensures maxCycles == old(maxCycles) && logOpen == old(logOpen) && logFormat == old(logFormat)
      ensures termPc == old(termPc) && termCause == old(termCause)
    {
      ghost var hist := history;
      ghost var outs := Outs();
      ghost var s := tb.dut.Snapshot();
      ghost var c := tb.cycles;
      Cycle();
      ghost var r := CycleRecord(s, outs.instret, tb.cycles, tb.dut.Snapshot());
      assert Ticked(tb.dut.rtl, r);
      RecordedSnoc(tb.dut.rtl, h0, hist, r, start, first, c, s, outs, Outs(), logOpen, logFormat);
    }

    /** run()'s loop: check $finish, the cycle limit and a software request,
        in that order, before every cycle, and return the cause that ends it. */
    method Loop(ghost h0: seq<CycleRecord<C>>, ghost start: Outputs, ghost first: State<C>) returns (cause: TermCause)
      requires Valid() && tb.cycles == 2 && Progress(h0, start, first)
      modifies this, tb, tb.dut, tb.dut.mem
      ensures Valid()
      ensures cause != Unknown
      ensures cause == Finish <==> tb.dut.gotFinish
      ensures cause == MaxCycles <==> !tb.dut.gotFinish && tb.cycles >= maxCycles
      ensures cause == TermReq ==> termReq && tb.cycles < maxCycles
      ensures 2 <= tb.cycles <= StopCycle(maxCycles)
      ensures cause == MaxCycles ==> tb.cycles == StopCycle(maxCycles)
      ensures Progress(h0, start, first)
      ensures maxCycles == old(maxCycles) && logOpen == old(logOpen) && logFormat == old(logFormat)
    {
      cause := Unknown;
      while cause == Unknown
        invariant Valid()
        invariant maxCycles == old(maxCycles) && logOpen == old(logOpen) && logFormat == old(logFormat)
        invariant 2 <= tb.cycles <= StopCycle(maxCycles)
        invariant Progress(h0, start, first)
        invariant cause == Finish ==> tb.dut.gotFinish
        invariant cause == MaxCycles ==> !tb.dut.gotFinish && tb.cycles >= maxCycles
        invariant cause == TermReq ==> !tb.dut.gotFinish && tb.cycles < maxCycles && termReq
        decreases if cause == Unknown then 1 else 0, maxCycles - tb.cycles
      {
        cause := Check();
        if cause == Unknown {
          RunCycle(h0, start, first);
        }
      }
    }

    /** The checks before a cycle, in run()'s order: $finish, then the cycle
        limit, then a software request; Unknown when none stops the loop. */
    method Check() returns (cause: TermCause)
      requires Valid()
      ensures cause == Finish <==> tb.dut.gotFinish
      ensures cause == MaxCycles <==> !tb.dut.gotFinish && tb.cycles >= maxCycles
      ensures cause == TermReq <==> !tb.dut.gotFinish && tb.cycles < maxCycles && termReq
    {
      if tb.Finished() {
        cause := Finish;
      } else if tb.GetCycles() >= maxCycles {
        cause := MaxCycles;
      } else if termReq {
        cause := TermReq;
      } else {
        cause := Unknown;
      }
    }

    /** Record the termination cause and the pc it was found at. */
    method Stop(cause: TermCause, ghost h0: seq<CycleRecord<C>>, ghost start: Outputs, ghost first: State<C>)
      requires Valid() && Progress(h0, start, first)
      modifies this`termPc, this`termCause
      ensures termPc == tb.dut.probe.pc && termCause == cause
      ensures Valid() && Progress(h0, start, first) == old(Progress(h0, start, first))
    {
      termPc := tb.dut.probe.pc;
      termCause := cause;
    }

    /** run()'s reset: RESET_CYCLES ticks with rst_i high, after which the
        counter is 2, the design is in the state `first` those ticks reach,
        and no cycle of the loop is recorded yet. */
    method ResetForRun() returns (ghost first: State<C>)
      requires Valid()
      modifies tb, tb.dut, tb.dut.mem
      ensures Valid() && tb.cycles == 2
      ensures first == AfterReset(tb.dut.rtl, old(tb.dut.Snapshot()), ResetCycles as nat)
      ensures Progress(history, Outs(), first)
    {
      tb.Reset(ResetCycles);
      first := tb.dut.Snapshot();
      assert history[|history|..] == [];
    }

    /** run() after the reset: the loop, the recorded cause and pc, and the
        exit code. The design's final state and instret are those of
        replaying the recorded cycles, none of which started after $finish. */
    method Simulate(ghost h0: seq<CycleRecord<C>>, ghost start: Outputs, ghost first: State<C>) returns (rv: int)
      requires Valid() && tb.cycles == 2 && Progress(h0, start, first)
      modifies this, tb, tb.dut, tb.dut.mem
      ensures Valid()
      ensures termCause != Unknown
      ensures termCause == Finish <==> tb.dut.gotFinish
      ensures termCause == MaxCycles <==> !tb.dut.gotFinish && tb.cycles >= maxCycles
      ensures termCause == TermReq ==> termReq && tb.cycles < maxCycles
      ensures termPc == tb.dut.probe.pc
      ensures 2 <= tb.cycles <= StopCycle(maxCycles)
      ensures termCause == MaxCycles ==> tb.cycles == StopCycle(maxCycles)
      ensures Progress(h0, start, first)
      ensures (tb.dut.Snapshot(), instret) == Replay(tb.dut.rtl, first, start.instret, tb.cycles - 2)
      ensures UnfinishedBefore(tb.dut.rtl, first, start.instret, tb.cycles - 2)
      ensures rv == ExitCode(termCause, swRetCode)
      ensures maxCycles == old(maxCycles) && logOpen == old(logOpen) && logFormat == old(logFormat)
    {
      var cause := Loop(h0, start, first);
      Stop(cause, h0, start, first);
      RecordedIsReplay(tb.dut.rtl, h0, history, start, first, tb.cycles, tb.dut.Snapshot(), Outs(), logOpen, logFormat);
      rv := ExitCode(termCause, swRetCode);
    }

    /** Reset, then tick until $finish, the cycle limit or a software request,
        checked in that order before every cycle; return the exit code. Every
        output of the run is that of the cycles it recorded in `history`. */
    method Run() returns (rv: int)
      requires Valid()
      modifies this, tb, tb.dut, tb.dut.mem
      ensures Valid()
      ensures termCause != Unknown
      ensures termCause == Finish <==> tb.dut.gotFinish
      ensures termCause == MaxCycles <==> !tb.dut.gotFinish && tb.cycles >= maxCycles
      ensures termCause == TermReq ==> termReq && tb.cycles < maxCycles
      ensures termPc == tb.dut.probe.pc
      ensures 2 <= tb.cycles <= StopCycle(maxCycles)
      ensures termCause == MaxCycles ==> tb.cycles == StopCycle(maxCycles)
      ensures maxCycles <= 2 ==> tb.cycles == 2
      ensures Progress(old(history), old(Outs()), AfterReset(tb.dut.rtl, old(tb.dut.Snapshot()), ResetCycles as nat))
      ensures (tb.dut.Snapshot(), instret) ==
                Replay(tb.dut.rtl, AfterReset(tb.dut.rtl, old(tb.dut.Snapshot()), ResetCycles as nat), old(instret), tb.cycles - 2)
      ensures UnfinishedBefore(tb.dut.rtl, AfterReset(tb.dut.rtl, old(tb.dut.Snapshot()), ResetCycles as nat), old(instret), tb.cycles - 2)
      ensures rv == ExitCode(termCause, swRetCode)
      ensures 0 <= rv < 0x100
      ensures maxCycles == old(maxCycles) && logOpen == old(logOpen) && logFormat == old(logFormat)
    {
      ghost var h0, start := history, Outs();
      ghost var first := ResetForRun();
      rv := Simulate(h0, start, first);
    }

    /** load_hex: a file that cannot be opened loads nothing; otherwise its
        lines are stored as LoadLines describes. */
    method LoadHex(file: Option<seq<string>>) returns (status: LoadStatus)
      requires Valid()
      modifies tb.dut.mem
      ensures Valid()
      ensures file.None? ==> status == NotOpened && tb.dut.mem[..] == old(tb.dut.mem[..])
      ensures file.Some? ==> status != NotOpened && LoadOutcome(file.value, old(tb.dut.mem[..]), status, tb.dut.mem[..])
    {
      if file.None? {
        status := NotOpened;
        return;
      }
      status := LoadLines(tb.dut.mem, file.value);
    }

    /** The dump file: every RAM word as eight lowercase hex digits, one per line. */
    method DumpMem() returns (lines: seq<string>)
      requires Valid()
      ensures lines == DumpImage(tb.dut.mem[..])
    {
      var mem := tb.dut.mem;
      lines := [];
      var i := 0;
      while i < MemSize / 4
        invariant 0 <= i <= MemWords
        invariant lines == DumpImage(mem[..i])
      {
        lines := lines + [Hex8(mem[i])];
        i := i + 1;
      }
      assert mem[..i] == mem[..];
    }

    /** Set the cycle limit; no other field changes. */
    method SetMaxCycles(cycles: u64)
      requires Valid()
      modifies this`maxCycles
      ensures Valid() && maxCycles == cycles
    {
      maxCycles := cycles;
    }

    /** Append this cycle's record to the log, in the selected format. */
    method SimLog()
      requires Valid()
      modifies this
      ensures Valid()
      ensures log == old(log) + LogEntry(logFormat, tb.cycles, tb.dut.probe)
      ensures maxCycles == old(maxCycles) && instret == old(instret) && termReq == old(termReq)
      ensures termPc == old(termPc) && termCause == old(termCause) && swRetCode == old(swRetCode)
      ensures logOpen == old(logOpen) && logFormat == old(logFormat) && stdout == old(stdout)
      ensures history == old(history)
    {
      var p := tb.dut.probe;
      if logFormat == "spike" {
        if !p.valid {
          return;
        }
        log := log + SpikeLine(p);
      } else {
        log := log + DefaultLine(tb.GetCycles(), p);
      }
      log := log + "\n";
    }

    /** Open the log file; `success` is whether fopen succeeded. A new file
        starts empty; a failed open leaves no log open and the text as it
        was. No other field changes. */
    method OpenLog(file: string, success: bool)
      requires Valid()
      modifies this`logOpen, this`log
      ensures Valid() && logOpen == success
      ensures log == if success then [] else old(log)
    {
      logOpen := success;
      if success {
        log := [];
      }
    }

    /** Select "spike" or "default"; any other name leaves the format as it
        was. No other field changes. */
    method SetLogFormat(format: string)
      requires Valid()
      modifies this`logFormat
      ensures Valid()
      ensures logFormat == if format == "spike" || format == "default" then format else old(logFormat)
    {
      if format == "spike" {
        logFormat := "spike";
      } else if format == "default" {
        logFormat := "default";
      } else {
        return;
      }
    }

    /** Open a trace through the testbench; only its trace changes. */
    method OpenTrace(file: string)
      requires Valid()
      modifies tb`trace
      ensures Valid()
      ensures tb.trace == if old(tb.trace) == NoTrace then Opened(file) else old(tb.trace)
      ensures tb.cycles == old(tb.cycles) && tb.dumps == old(tb.dumps)
    {
      tb.OpenTrace(file);
    }
  }
}
