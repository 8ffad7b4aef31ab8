/**
 * The simulation log: get_masked_hexstr (the written byte lanes of a store,
 * most significant lane first) and the two line formats of sim_log, the
 * Spike-compatible commit log and the default column layout.
 */
module TraceLog {
  import opened Bits
  import opened Text
  import opened CString
  import opened Dut

  // ---------------------------------------------------------------------
  // Byte lanes

  /** Byte lane i of a word: (data >> (8*i)) & 0xFF. */
  function Lane(data: u32, i: nat): (b: u8)
    requires i < 4
    ensures b == Shr(data, 8 * i) % 0x100
  {
    Pow2Values();
    AndLowMask(Shr(data, 8 * i), 8);
    And(Shr(data, 8 * i), 0xFF)
  }

  /** The number of set bits of x below position n. */
  function CountBits(x: nat, n: nat): (c: nat)
    ensures c <= n
  {
    if n == 0 then 0 else CountBits(x, n - 1) + (if Bit(x, n - 1) then 1 else 0)
  }

  /** Population count. */
  function Popcount(x: nat): nat
  {
    if x == 0 then 0 else x % 2 + Popcount(x / 2)
  }

  /** The lanes k..3 selected by mask, lane 3 first, two hex digits each. */
  function TopLanes(data: u32, mask: u8, k: nat): (s: string)
    requires k <= 4
    ensures |s| == 2 * (CountBits(mask, 4) - CountBits(mask, k))
    ensures forall j :: 0 <= j < |s| ==> IsLowerHex(s[j])
    decreases 4 - k
  {
    if k == 4 then ""
    else TopLanes(data, mask, k + 1) + (if Bit(mask, k) then Hex(Lane(data, k), 2) else "")
  }

  /** The hex digits of the byte lanes of data that mask selects (mask bits 3..0). */
  function MaskedHex(data: u32, mask: u8): string
  {
    TopLanes(data, mask, 0)
  }

  /** sprintf(buf + offset, "%02x", b): two digits and a terminating NUL. */
  method PrintHex2(buf: array<char>, offset: nat, b: u8)
    requires offset + 2 < buf.Length
    modifies buf
    ensures buf[..offset + 2] == old(buf[..offset]) + Hex(b, 2)
    ensures buf[offset + 2] == NUL
    ensures forall j :: offset + 2 < j < buf.Length ==> buf[j] == old(buf[j])
  {
    var hx := Hex(b, 2);
    buf[offset] := hx[0];
    buf[offset + 1] := hx[1];
    buf[offset + 2] := NUL;
    assert buf[..offset + 2] == buf[..offset] + [hx[0], hx[1]];
  }

  /** One iteration of get_masked_hexstr: print lane i if mask selects it. */
  method PrintLane(buf: array<char>, offset: nat, data: u32, mask: u8, i: nat) returns (next: nat)
    requires i < 4 && buf.Length == 9
    requires offset == |TopLanes(data, mask, i + 1)| && offset <= 2 * (3 - i)
    requires buf[..offset] == TopLanes(data, mask, i + 1)
    requires forall j :: offset <= j < 9 ==> buf[j] == NUL
    modifies buf
    ensures next == |TopLanes(data, mask, i)| && next <= 2 * (4 - i)
    ensures buf[..next] == TopLanes(data, mask, i)
    ensures forall j :: next <= j < 9 ==> buf[j] == NUL
  {
    next := offset;
    ghost var t := TopLanes(data, mask, i + 1);
    AndPow2(mask, i);
    if And(mask, Shl(1, i)) != 0 {
      assert TopLanes(data, mask, i) == t + Hex(Lane(data, i), 2);
      ghost var before := buf[..];
      PrintHex2(buf, offset, Lane(data, i));
      next := offset + 2;
      forall j | next <= j < 9
        ensures buf[j] == NUL
      {
        if j > next {
          assert buf[j] == before[j];
        }
      }
    } else {
      assert TopLanes(data, mask, i) == t;
    }
  }

  /** A buffer holding the selected lanes followed by NULs holds them as a C string. */
  lemma BufferHoldsMaskedHex(full: seq<char>, offset: nat, data: u32, mask: u8)
    requires |full| == 9 && offset <= 8
    requires full[..offset] == TopLanes(data, mask, 0)
    requires forall j :: offset <= j < 9 ==> full[j] == NUL
    ensures NUL in full && CStr(full) == MaskedHex(data, mask)
  {
    var hex := TopLanes(data, mask, 0);
    assert NUL !in hex by {
      assert !IsLowerHex(NUL);
    }
    CStrPrefix(full, hex);
  }

  /** get_masked_hexstr: the selected lanes, lane 3 first, printed into a
      9-byte buffer, then the C string in it. */
  method GetMaskedHexStr(data: u32, mask: u8) returns (s: string)
    ensures s == MaskedHex(data, mask)
  {
    var buf := new char[9](_ => NUL);
    var offset := 0;
    var i := 3;
    while i >= 0
      invariant -1 <= i <= 3
      invariant offset == |TopLanes(data, mask, i + 1)| && offset <= 2 * (3 - i)
      invariant buf[..offset] == TopLanes(data, mask, i + 1)
      invariant forall j :: offset <= j < 9 ==> buf[j] == NUL
    {
      offset := PrintLane(buf, offset, data, mask, i);
      i := i - 1;
    }
    BufferHoldsMaskedHex(buf[..], offset, data, mask);
    s := CStr(buf[..]);
  }

  /** Popcount counts the bits below any n with x < 2^n. */
  lemma {:induction false} PopcountBits(x: nat, n: nat)
    requires x < Pow2(n)
    ensures Popcount(x) == CountBits(x, n)
  {
    if n > 0 {
      PopcountBits(x / 2, n - 1);
      CountBitsHalf(x, n);
    } else {
      assert x == 0;
    }
  }

  lemma {:induction false} CountBitsHalf(x: nat, n: nat)
    requires n > 0
    ensures CountBits(x, n) == x % 2 + CountBits(x / 2, n - 1)
  {
    if n > 1 {
      CountBitsHalf(x, n - 1);
    }
  }

  lemma {:induction false} CountBitsSame(x: nat, y: nat, n: nat)
    requires forall k :: 0 <= k < n ==> (Bit(x, k) <==> Bit(y, k))
    ensures CountBits(x, n) == CountBits(y, n)
  {
    if n > 0 {
      CountBitsSame(x, y, n - 1);
    }
  }

  /** Two hex digits per selected lane: the length is 2 * popcount(mask & 0xF). */
  lemma MaskedHexLength(data: u32, mask: u8)
    ensures |MaskedHex(data, mask)| == 2 * Popcount(And(mask, 0xF))
    ensures And(mask, 0xF) == 0 ==> MaskedHex(data, mask) == ""
  {
    Pow2Values();
    assert Pow2(4) == 16;
    forall k | 0 <= k < 4 ensures Bit(And(mask, 0xF), k) <==> Bit(mask, k) {
      BitAnd(mask, Pow2(4) - 1, k);
      LowMaskBit(4, k);
    }
    CountBitsSame(And(mask, 0xF), mask, 4);
    PopcountBits(And(mask, 0xF), 4);
  }

  /** The eight-digit rendering of a word is its four lanes, lane 3 first. */
  lemma Hex8Lanes(data: u32)
    ensures Hex8(data) == Hex(Lane(data, 3), 2) + Hex(Lane(data, 2), 2) + Hex(Lane(data, 1), 2) + Hex(Lane(data, 0), 2)
  {
    var d8 := Shr(data, 8);
    var d16 := Shr(data, 16);
    var d24 := Shr(data, 24);
    ShrAdd(data, 8, 8);
    ShrAdd(data, 16, 8);
    assert Shr(data, 0) == data;
    HexSplit(data, 6, 2);
    HexByte(data);
    HexSplit(d8, 4, 2);
    HexByte(d8);
    HexSplit(d16, 2, 2);
    HexByte(d16);
    HexTwoDigits(d24);
  }

  /** With all four lanes selected the result is the word's "%08x" rendering. */
  lemma MaskedHexFull(data: u32, mask: u8)
    requires Bit(mask, 0) && Bit(mask, 1) && Bit(mask, 2) && Bit(mask, 3)
    ensures MaskedHex(data, mask) == Hex8(data)
    ensures HexValue(MaskedHex(data, mask)) == data
  {
    var l3, l2, l1, l0 := Hex(Lane(data, 3), 2), Hex(Lane(data, 2), 2), Hex(Lane(data, 1), 2), Hex(Lane(data, 0), 2);
    assert TopLanes(data, mask, 3) == l3;
    assert TopLanes(data, mask, 2) == l3 + l2;
    assert TopLanes(data, mask, 1) == l3 + l2 + l1;
    assert TopLanes(data, mask, 0) == l3 + l2 + l1 + l0;
    Hex8Lanes(data);
    Hex8RoundTrip(data);
  }

  // ---------------------------------------------------------------------
  // Line formats

  /** "x%-2d" of a register index masked to five bits. */
  function RegName(r: u8): (s: string)
    ensures |s| == 2
  {
    var n := And(r, 0x1f);
    DecLength(n, 2);
    PadRight(Dec(n), 2)
  }

  /** The suffix the Spike format appends, at most one, chosen in priority order:
      a load, a store, a register write. */
  function SpikeSuffix(p: Probe): string
  {
    if And(p.rmask, 0xf) != 0 then
      " x" + RegName(p.rd) + " 0x" + Hex8(p.rdata) + " mem 0x" + Hex8(p.memAddr)
    else if And(p.wmask, 0xf) != 0 then
      " mem 0x" + Hex8(p.memAddr) + " 0x" + MaskedHex(p.wdata, p.wmask)
    else if p.rdWe && And(p.rd, 0x1f) != 0 then
      " x" + RegName(p.rd) + " 0x" + Hex8(p.rdv)
    else ""
  }

  /** A committed instruction in the Spike log format. */
  function SpikeLine(p: Probe): string
  {
    "core   0: 3 0x" + Hex8(p.pc) + " (0x" + Hex8(p.instr) + ")" + SpikeSuffix(p)
  }

  /** A cycle in the default format: cycle count, validity, then the registers. */
  function DefaultLine(cycles: u64, p: Probe): string
  {
    DefaultHead(cycles, p) + Hex8(p.pc) + DefaultTail(p)
  }

  /** The columns of a default line before the pc. */
  function DefaultHead(cycles: u64, p: Probe): string
  {
    "[" + PadLeft(Dec(cycles), 8) + "] " + (if p.valid then "       " else "INVALID") + " " + "PC: 0x"
  }

  /** The columns of a default line after the pc. */
  function DefaultTail(p: Probe): string
  {
    ", Instr: 0x" + Hex8(p.instr) + ", "
    + "rd: (x" + RegName(p.rd) + ": 0x" + Hex8(p.rdv) + ", we: " + (if p.rdWe then "1" else "0") + "), "
    + "rs1: (x" + RegName(p.rs1) + ": 0x" + Hex8(p.rs1v) + "), "
    + "rs2: (x" + RegName(p.rs2) + ": 0x" + Hex8(p.rs2v) + ") "
  }

  /** What sim_log writes for one probe: nothing for a bubble in Spike format. */
  function LogEntry(format: string, cycles: u64, p: Probe): string
  {
    if format == "spike" then (if !p.valid then "" else SpikeLine(p) + "\n")
    else DefaultLine(cycles, p) + "\n"
  }

  datatype SpikeKind = Load | Store | RegWrite | Plain

  /** Which record the commit log holds for a probe, in the priority of sim_log. */
  function KindOf(p: Probe): SpikeKind
  {
    if And(p.rmask, 0xf) != 0 then Load
    else if And(p.wmask, 0xf) != 0 then Store
    else if p.rdWe && And(p.rd, 0x1f) != 0 then RegWrite
    else Plain
  }

  /** The two parts of a concatenation, sliced back out of it. */
  lemma SliceParts(x: string, y: string)
    ensures (x + y)[..|x|] == x && (x + y)[|x|..] == y
  {
  }

  /** At most one suffix is written, the one of the highest-priority kind, and
      its fields read back: a load names the destination register, the loaded
      data and the address; a store the address and then the written lanes; a
      register write the register and its new value; otherwise it is empty. */
  lemma SpikeSuffixKind(p: Probe)
    ensures KindOf(p) == Load ==>
              var s := SpikeSuffix(p);
              |s| == 30 && s[..2] == " x" && s[2..4] == RegName(p.rd) &&
              s[4..7] == " 0x" && HexValue(s[7..15]) == p.rdata &&
              s[15..22] == " mem 0x" && HexValue(s[22..]) == p.memAddr
    ensures KindOf(p) == Store ==>
              var s := SpikeSuffix(p);
              s[..7] == " mem 0x" && HexValue(s[7..15]) == p.memAddr &&
              s[15..18] == " 0x" && s[18..] == MaskedHex(p.wdata, p.wmask)
    ensures KindOf(p) == RegWrite ==>
              var s := SpikeSuffix(p);
              |s| == 15 && s[..2] == " x" && s[2..4] == RegName(p.rd) &&
              s[4..7] == " 0x" && HexValue(s[7..]) == p.rdv
    ensures KindOf(p) == Plain <==> SpikeSuffix(p) == ""
  {
    var s := SpikeSuffix(p);
    match KindOf(p)
    case Load =>
      var a := " x" + RegName(p.rd);
      var b := a + " 0x";
      var c := b + Hex8(p.rdata);
      var d := c + " mem 0x";
      assert s == d + Hex8(p.memAddr);
      SliceParts(d, Hex8(p.memAddr));
      SliceParts(c, " mem 0x");
      SliceParts(b, Hex8(p.rdata));
      SliceParts(a, " 0x");
      SliceParts(" x", RegName(p.rd));
      assert s[..22] == d;
      assert s[15..22] == d[15..];
      assert s[7..15] == c[7..] == Hex8(p.rdata);
      assert s[4..7] == b[4..];
      assert s[..2] == a[..2] && s[2..4] == a[2..];
      Hex8RoundTrip(p.rdata);
      Hex8RoundTrip(p.memAddr);
    case Store =>
      var a := " mem 0x" + Hex8(p.memAddr);
      var b := a + " 0x";
      assert s == b + MaskedHex(p.wdata, p.wmask);
      SliceParts(b, MaskedHex(p.wdata, p.wmask));
      SliceParts(a, " 0x");
      SliceParts(" mem 0x", Hex8(p.memAddr));
      assert s[..15] == a;
      assert s[15..18] == b[15..];
      Hex8RoundTrip(p.memAddr);
    case RegWrite =>
      var a := " x" + RegName(p.rd);
      var b := a + " 0x";
      assert s == b + Hex8(p.rdv);
      SliceParts(b, Hex8(p.rdv));
      SliceParts(a, " 0x");
      SliceParts(" x", RegName(p.rd));
      assert s[..2] == a[..2] && s[2..4] == a[2..];
      assert s[4..7] == b[4..];
      Hex8RoundTrip(p.rdv);
    case Plain =>
  }

  /** A slice that lies within the left operand of a concatenation. */
  lemma SliceOfLeft(x: string, y: string, i: nat, j: nat)
    requires i <= j <= |x|
    ensures (x + y)[i..j] == x[i..j]
  {
    assert forall k :: i <= k < j ==> (x + y)[k] == x[k];
  }

  /** Columns 14 to 21 of a Spike line hold the pc. */
  lemma SpikeLinePc(p: Probe)
    ensures SpikeLine(p)[..14] == "core   0: 3 0x"
    ensures SpikeLine(p)[14..22] == Hex8(p.pc)
  {
    var x1 := "core   0: 3 0x" + Hex8(p.pc);
    var x2 := x1 + " (0x";
    var x3 := x2 + Hex8(p.instr);
    var x4 := x3 + ")";
    assert SpikeLine(p) == x4 + SpikeSuffix(p);
    SliceOfLeft(x4, SpikeSuffix(p), 0, 22);
    SliceOfLeft(x3, ")", 0, 22);
    SliceOfLeft(x2, Hex8(p.instr), 0, 22);
    SliceOfLeft(x1, " (0x", 0, 22);
    assert x1[..14] == "core   0: 3 0x";
    assert x1[14..22] == Hex8(p.pc);
    assert SpikeLine(p)[..22] == x1;
  }

  /** Columns 26 to 33 of a Spike line hold the instruction word. */
  lemma SpikeLineInstr(p: Probe)
    ensures SpikeLine(p)[26..34] == Hex8(p.instr)
  {
    var x2 := "core   0: 3 0x" + Hex8(p.pc) + " (0x";
    var x3 := x2 + Hex8(p.instr);
    var x4 := x3 + ")";
    assert SpikeLine(p) == x4 + SpikeSuffix(p);
    assert |x2| == 26;
    SliceOfLeft(x4, SpikeSuffix(p), 26, 34);
    SliceOfLeft(x3, ")", 26, 34);
    assert x3[26..34] == Hex8(p.instr);
  }

  /** The pc and the instruction word can be read back from a Spike line. */
  lemma SpikeLineFields(p: Probe)
    ensures SpikeLine(p)[..14] == "core   0: 3 0x"
    ensures AllHex(SpikeLine(p)[14..22]) && HexValue(SpikeLine(p)[14..22]) == p.pc
    ensures AllHex(SpikeLine(p)[26..34]) && HexValue(SpikeLine(p)[26..34]) == p.instr
  {
    SpikeLinePc(p);
    SpikeLineInstr(p);
    Hex8RoundTrip(p.pc);
    Hex8RoundTrip(p.instr);
  }

  /** For cycle counts below 10^8 every default line has the same width, so the
      columns line up, and the pc sits at a fixed column. */
  lemma DefaultLineColumns(cycles: u64, p: Probe)
    requires cycles < 100_000_000
    ensures |DefaultLine(cycles, p)| == 131
    ensures AllHex(DefaultLine(cycles, p)[25..33]) && HexValue(DefaultLine(cycles, p)[25..33]) == p.pc
  {
    DecLength(cycles, 8);
    var head := DefaultHead(cycles, p);
    assert |PadLeft(Dec(cycles), 8)| == 8;
    assert |head| == 25;
    SliceOfLeft(head + Hex8(p.pc), DefaultTail(p), 25, 33);
    assert (head + Hex8(p.pc))[25..33] == Hex8(p.pc);
    Hex8RoundTrip(p.pc);
  }
}
