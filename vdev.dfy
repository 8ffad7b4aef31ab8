/**
 * The virtual-device register window shared by the simulator and the
 * firmware: the top 0x20 bytes of the 64 KiB RAM hold CONSOLE, the 64-bit
 * CYCLE and INSTRET counters as low/high word pairs, and SIMCTRL
 * (bits 7:0 return code, bit 8 finish request).
 */
module Vdev {
  import opened Bits

  const MemAddr: nat := 0x1_0000
  const MemSize: nat := 64 * 1024
  const VdevSize: nat := 0x20
  const VdevAddr: nat := MemAddr + MemSize - VdevSize

  const ConsoleOffset: nat := 0x00
  const CycleOffset: nat := 0x08
  const CycleHiOffset: nat := 0x0C
  const InstretOffset: nat := 0x10
  const InstretHiOffset: nat := 0x14
  const SimctrlOffset: nat := 0x1C

  const ConsoleAddr: nat := VdevAddr + ConsoleOffset

  /** The RAM word a byte address falls in. */
  function WordIndex(addr: nat): nat
    requires MemAddr <= addr
  {
    (addr - MemAddr) / 4
  }

  const ConsoleIndex: nat := WordIndex(VdevAddr + ConsoleOffset)
  const CycleIndex: nat := WordIndex(VdevAddr + CycleOffset)
  const CycleHiIndex: nat := WordIndex(VdevAddr + CycleHiOffset)
  const InstretIndex: nat := WordIndex(VdevAddr + InstretOffset)
  const InstretHiIndex: nat := WordIndex(VdevAddr + InstretHiOffset)
  const SimctrlIndex: nat := WordIndex(VdevAddr + SimctrlOffset)

  /** The window is the last eight words of RAM and the registers are distinct words in it. */
  lemma WindowLayout()
    ensures ConsoleAddr == 0x1FFE0
    ensures WordIndex(VdevAddr) == MemSize / 4 - 8 == 16376
    ensures ConsoleIndex == 16376 && CycleIndex == 16378 && CycleHiIndex == 16379
    ensures InstretIndex == 16380 && InstretHiIndex == 16381 && SimctrlIndex == 16383
  {
  }

  // ---------------------------------------------------------------------
  // 64-bit counters as two 32-bit halves


  /** (uint32_t)x */
  function Lo32(x: u64): u32
  {
    x % U32
  }

  /** (uint32_t)(x >> 32) */
  function Hi32(x: u64): u32
  {
    Shr(x, 32) % U32
  }

  /** ((uint64_t)hi << 32) | lo */
  function Join64(hi: u32, lo: u32): (r: u64)
    ensures r == hi * U32 + lo
  {
    Pow2Values();
    OrShiftedHigh(hi, lo, 32);
    MulLe(U32, hi, U32 - 1);
    Or(Shl(hi, 32), lo)
  }

  /** Joining the two halves of a 64-bit value gives the value back. */
  lemma JoinSplit(x: u64)
    ensures Join64(Hi32(x), Lo32(x)) == x
  {
    Pow2Values();
    ShrIsDiv(x, 32);
    var q := x / U32;
    if q >= U32 {
      MulLe(U32, U32, q);
      assert false;
    }
    assert Hi32(x) == q;
  }

  /** The halves are the quotient and remainder by 2^32. */
  lemma HalvesAreDivMod(x: u64)
    ensures Lo32(x) == x % U32 && Hi32(x) == x / U32
  {
    Pow2Values();
    ShrIsDiv(x, 32);
    JoinSplit(x);
  }

  /** Splitting a joined value gives the two halves back. */
  lemma SplitJoin(hi: u32, lo: u32)
    ensures Hi32(Join64(hi, lo)) == hi && Lo32(Join64(hi, lo)) == lo
  {
    Pow2Values();
    var x := Join64(hi, lo);
    ShrIsDiv(x, 32);
    DivModUnique(x, U32, hi, lo);
  }

  // ---------------------------------------------------------------------
  // SIMCTRL as the simulator reads it

  /** What eval_vdev finds in SIMCTRL: a finish request with its return code
      and the word with the request bit cleared, or no request. */
  datatype Latch = NoRequest | Request(code: u8, cleared: u32)

  /** BIT_GET(w, 8), then BITS_GET(w, 7, 0) and BIT_SET(w, 8, 0). */
  function DecodeSimctrl(w: u32): Latch
  {
    if BitGet(w, 8) != 0 then
      BitsGetIsField(w, 7, 0);
      Pow2Values();
      Request(BitsGet(w, 7, 0), BitSet(w, 8, false))
    else NoRequest
  }

  /** A request is latched exactly when bit 8 is set; the code is the low byte,
      unsigned, and only bit 8 is cleared. */
  lemma DecodeSimctrlMeaning(w: u32)
    ensures DecodeSimctrl(w).Request? <==> Bit(w, 8)
    ensures DecodeSimctrl(w).Request? ==> DecodeSimctrl(w).code == w % 0x100
    ensures DecodeSimctrl(w).Request? ==> DecodeSimctrl(w).cleared == w - 0x100
    ensures DecodeSimctrl(w).Request? ==> !Bit(DecodeSimctrl(w).cleared, 8)
    ensures DecodeSimctrl(w).Request? ==>
              forall k :: 0 <= k < 32 && k != 8 ==> (Bit(DecodeSimctrl(w).cleared, k) <==> Bit(w, k))
  {
    Pow2Values();
    if Bit(w, 8) {
      BitsGetIsField(w, 7, 0);
      BitClearOnlyBitN(w, 8);
    }
  }
}
