/**
 * The firmware side of the virtual devices (sw/lib/vdev.c and exit() in
 * sw/lib/stdlib.c): the register addresses the firmware uses, the word
 * vdev_putchar stores into the console register and the word vdev_exit
 * stores into SIMCTRL, and what the simulator makes of those words.
 */
module FwVdev {
  import opened Bits
  import opened Vdev
  import OrionSim

  /** The register addresses of vdev.c, relative to the linker symbol
      __vdev_base_addr, which the linker script places at the simulator's
      VDEV window. */
  function RegisterAddr(base: nat, offset: nat): nat
  {
    base + offset
  }

  /** With the base at the simulator's window, every register the firmware
      reads or writes is the memory word the simulator serves for it. */
  lemma RegistersMatchSimulator()
    ensures WordIndex(RegisterAddr(VdevAddr, 0x00)) == ConsoleIndex
    ensures WordIndex(RegisterAddr(VdevAddr, 0x08)) == CycleIndex
    ensures WordIndex(RegisterAddr(VdevAddr, 0x0C)) == CycleHiIndex
    ensures WordIndex(RegisterAddr(VdevAddr, 0x10)) == InstretIndex
    ensures WordIndex(RegisterAddr(VdevAddr, 0x14)) == InstretHiIndex
    ensures WordIndex(RegisterAddr(VdevAddr, 0x1C)) == SimctrlIndex
    ensures RegisterAddr(VdevAddr, 0x00) == ConsoleAddr
  {
  }

  /** The mask 0xFFFFFF00 keeps bits 8 to 31. */
  lemma HighMaskBit(k: nat)
    ensures Bit(0xFFFF_FF00, k) <==> 8 <= k < 32
  {
    Pow2Values();
    assert 0xFFFF_FF00 == Not32(Pow2(8) - 1);
    if k < 32 {
      BitNot32(Pow2(8) - 1, k);
      LowMaskBit(8, k);
    } else {
      BitBound(0xFFFF_FF00, 32, k);
    }
  }

  /** (val & 0xFFFFFF00) | low | (1 << n), the shape of both register writes,
      for a low part that fits in 32 bits. */
  function SetLowAndFlag(val: u32, low: u32, n: nat): (w: u32)
    requires n < 32
  {
    Pow2Values();
    Pow2Lt32(n);
    ShlOne(n);
    var masked := And(val, 0xFFFF_FF00);
    OrBelow(masked, low, 32);
    OrBelow(Or(masked, low), Shl(1, n), 32);
    Or(Or(masked, low), Shl(1, n))
  }

  /** Bit k of such a word: the flag, or the low part, or a kept bit of val. */
  lemma SetLowAndFlagBit(val: u32, low: u32, n: nat, k: nat)
    requires n < 32
    ensures Bit(SetLowAndFlag(val, low, n), k) <==>
              k == n || Bit(low, k) || (8 <= k < 32 && Bit(val, k))
  {
    var masked := And(val, 0xFFFF_FF00);
    ShlOne(n);
    BitOr(Or(masked, low), Shl(1, n), k);
    BitOr(masked, low, k);
    BitAnd(val, 0xFFFF_FF00, k);
    HighMaskBit(k);
    BitPow2(n, k);
  }

  /** vdev_putchar's word: the character in bits 0-7, the tx valid bit 16
      set, everything else as read. A plain char is unsigned on RISC-V, so
      the character is a byte value and does not spill into bits 8-31. */
  function PutcharWord(val: u32, c: u8): u32
  {
    SetLowAndFlag(val, c, 16)
  }

  /** A word whose bits 0-7 are those of a byte holds that byte in its low byte. */
  lemma LowByteFromBits(w: nat, b: u8)
    requires forall k :: 0 <= k < 8 ==> (Bit(w, k) <==> Bit(b, k))
    ensures w % 0x100 == b
  {
    ModFromBits(w, b, 8);
    Pow2Values();
  }

  /** Bit k of the console word: bits 0-7 are the character's, bit 16 is
      set, the other bits are val's up to bit 31 and clear above. */
  lemma PutcharBit(val: u32, c: u8, k: nat)
    ensures k < 8 ==> (Bit(PutcharWord(val, c), k) <==> Bit(c, k))
    ensures 8 <= k ==> (Bit(PutcharWord(val, c), k) <==> k == 16 || (k < 32 && Bit(val, k)))
  {
    Pow2Values();
    SetLowAndFlagBit(val, c, 16, k);
    if 8 <= k {
      BitBound(c, 8, k);
    }
  }

  /** The console word holds the character in its low byte, sets bit 16, and
      keeps bits 8-15 and 17-31 of the word read before. */
  lemma PutcharFields(val: u32, c: u8)
    ensures PutcharWord(val, c) % 0x100 == c
    ensures Bit(PutcharWord(val, c), 16)
    ensures forall k :: 8 <= k < 32 && k != 16 ==> (Bit(PutcharWord(val, c), k) <==> Bit(val, k))
    ensures forall k :: 32 <= k ==> !Bit(PutcharWord(val, c), k)
  {
    var w := PutcharWord(val, c);
    forall k | 0 <= k < 8 ensures Bit(w, k) <==> Bit(c, k) {
      PutcharBit(val, c, k);
    }
    LowByteFromBits(w, c);
    PutcharBit(val, c, 16);
    forall k | 8 <= k < 32 && k != 16 ensures Bit(w, k) <==> Bit(val, k) {
      PutcharBit(val, c, k);
    }
    forall k | 32 <= k ensures !Bit(w, k) {
      PutcharBit(val, c, k);
    }
  }

  /** The simulator echoes `wdata & 0xFF` of a console store: a word written
      by vdev_putchar(c) prints exactly c, whatever the register held. */
  lemma PutcharEcho(val: u32, c: u8)
    ensures And(PutcharWord(val, c), 0xFF) == c
  {
    Pow2Values();
    AndLowMask(PutcharWord(val, c), 8);
    PutcharFields(val, c);
  }

  /** `(uint32_t)retcode` as the operand of `|`: an int8_t is sign-extended,
      so a negative code becomes 2^32 + retcode. */
  function Word32(r: int8): u32
  {
    if r < 0 then r + U32 else r
  }

  /** The bits of a sign-extended negative byte: bits 8 to 31 are all set. */
  lemma NegativeWordBits(r: int8, k: nat)
    requires r < 0 && 8 <= k < 32
    ensures Bit(Word32(r), k)
  {
    Pow2Values();
    Pow2Add(24, 8);
    assert Word32(r) == (Pow2(24) - 1) * Pow2(8) + (r + 0x100);
    OrShiftedHigh(Pow2(24) - 1, r + 0x100, 8);
    BitOr(Shl(Pow2(24) - 1, 8), r + 0x100, k);
    BitShl(Pow2(24) - 1, 8, k);
    LowMaskBit(24, k - 8);
  }

  /** A word that agrees with the sign-extended code modulo 2^8 holds the
      code's two's complement byte. */
  lemma ExitLowByte(w: nat, r: int8)
    requires w % Pow2(8) == Word32(r) % Pow2(8)
    ensures w % 0x100 == r % 0x100
  {
    Pow2Values();
    if r < 0 {
      DivModUnique(Word32(r), 0x100, r / 0x100 + 0x100_0000, r % 0x100);
    }
  }

  /** vdev_exit's SIMCTRL word: the code in bits 0-7 and the finish request
      bit 8 set. */
  function ExitWord(val: u32, r: int8): u32
  {
    SetLowAndFlag(val, Word32(r), 8)
  }

  /** The SIMCTRL word holds the code's two's complement byte and the request
      bit; a non-negative code keeps bits 9-31 of the word read before, a
      negative one sets all of bits 8-31. */
  lemma ExitFields(val: u32, r: int8)
    ensures ExitWord(val, r) % 0x100 == r % 0x100
    ensures Bit(ExitWord(val, r), 8)
    ensures r >= 0 ==> forall k :: 9 <= k < 32 ==> (Bit(ExitWord(val, r), k) <==> Bit(val, k))
    ensures r < 0 ==> forall k :: 8 <= k < 32 ==> Bit(ExitWord(val, r), k)
  {
    var w := ExitWord(val, r);
    Pow2Values();
    forall k: nat | k < 8 ensures Bit(w, k) <==> Bit(Word32(r), k) {
      SetLowAndFlagBit(val, Word32(r), 8, k);
    }
    ModFromBits(w, Word32(r), 8);
    ExitLowByte(w, r);
    SetLowAndFlagBit(val, Word32(r), 8, 8);
    if r >= 0 {
      forall k | 9 <= k < 32 ensures Bit(w, k) <==> Bit(val, k) {
        SetLowAndFlagBit(val, Word32(r), 8, k);
        BitBound(Word32(r), 8, k);
      }
    } else {
      forall k | 8 <= k < 32 ensures Bit(w, k) {
        SetLowAndFlagBit(val, Word32(r), 8, k);
        NegativeWordBits(r, k);
      }
    }
  }

  /** The simulator latches the request vdev_exit(r) writes, with the return
      code r modulo 256. */
  lemma ExitLatched(val: u32, r: int8)
    ensures DecodeSimctrl(ExitWord(val, r)).Request?
    ensures DecodeSimctrl(ExitWord(val, r)).code == r % 0x100
  {
    ExitFields(val, r);
    DecodeSimctrlMeaning(ExitWord(val, r));
  }

  /** When the last request the cycles of a run found is the word vdev_exit(r)
      wrote, the run's latch is set with code r modulo 256, and run() stopped
      by that request returns r modulo 256. */
  lemma ExitReturnCode<C>(val: u32, r: int8, req: bool, code: int, h: seq<OrionSim.CycleRecord<C>>, k: int)
    requires 0 <= k < |h| && h[k].Simctrl() == ExitWord(val, r)
    requires forall j :: k < j < |h| ==> !Bit(h[j].Simctrl(), 8)
    ensures OrionSim.Latched(req, code, h) == (true, r % 0x100)
    ensures OrionSim.ExitCode(OrionSim.TermReq, OrionSim.Latched(req, code, h).1) == r % 0x100
  {
    ExitLatched(val, r);
    DecodeSimctrlMeaning(ExitWord(val, r));
    assert OrionSim.LastRequest(h, k);
    OrionSim.LatchedCode(req, code, h, k);
    OrionSim.LatchedSet(req, code, h);
  }

  /** The implicit conversion of exit's int argument to int8_t: modulo 2^8,
      into the range -128..127. */
  function ToInt8(status: int32): (r: int8)
    ensures r % 0x100 == status % 0x100
  {
    var m := status % 0x100;
    var r := if m >= 0x80 then m - 0x100 else m;
    DivModUnique(r, 0x100, if m >= 0x80 then -1 else 0, m);
    r
  }

  /** exit(status): the SIMCTRL word written for a status. */
  function ExitStatusWord(val: u32, status: int32): u32
  {
    ExitWord(val, ToInt8(status))
  }

  /** After exit(status) the simulator's return code is status modulo 256:
      exit(1) gives 1, exit(-1) gives 255, exit(256) gives 0. */
  lemma ExitStatusLatched(val: u32, status: int32)
    ensures DecodeSimctrl(ExitStatusWord(val, status)).Request?
    ensures DecodeSimctrl(ExitStatusWord(val, status)).code == status % 0x100
    ensures DecodeSimctrl(ExitStatusWord(val, status)).cleared == ExitStatusWord(val, status) - 0x100
  {
    ExitLatched(val, ToInt8(status));
    DecodeSimctrlMeaning(ExitStatusWord(val, status));
  }
}
