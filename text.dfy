/**
 * Text rendering and parsing used by the simulator and the firmware:
 * fixed-width lowercase hexadecimal (printf "%08x", "%02x" and
 * `std::hex << setw(8) << setfill('0')`), hexadecimal parsing (std::stoul
 * with base 16), unsigned decimal (the firmware digit printers, "%lu",
 * "%d") and the field padding of "%8lu" and "%-2d".
 */
module Text {
  import opened Bits

  function Pow16(n: nat): (r: nat)
    ensures r >= 1
  {
    if n == 0 then 1 else 16 * Pow16(n - 1)
  }

  function Pow10(n: nat): (r: nat)
    ensures r >= 1
  {
    if n == 0 then 1 else 10 * Pow10(n - 1)
  }

  lemma {:induction false} Pow10Add(a: nat, b: nat)
    ensures Pow10(a + b) == Pow10(a) * Pow10(b)
  {
    if a > 0 {
      Pow10Add(a - 1, b);
    }
  }

  lemma Pow10Values()
    ensures Pow10(10) == 100_0000_0000 && Pow10(20) == 1_0000_0000_0000_0000_0000
  {
    assert Pow10(5) == 10_0000;
    Pow10Add(5, 5);
    Pow10Add(10, 10);
  }

  // ---------------------------------------------------------------------
  // Hexadecimal

  predicate IsLowerHex(c: char)
  {
    '0' <= c <= '9' || 'a' <= c <= 'f'
  }

  /** The characters std::stoul accepts as base-16 digits. */
  predicate IsHexDigit(c: char)
  {
    '0' <= c <= '9' || 'a' <= c <= 'f' || 'A' <= c <= 'F'
  }

  predicate AllHex(s: string)
  {
    forall i :: 0 <= i < |s| ==> IsHexDigit(s[i])
  }

  /** The lowercase digit for d, as printf's %x writes it. */
  function HexChar(d: nat): (c: char)
    requires d < 16
    ensures IsLowerHex(c)
  {
    if d < 10 then ('0' as int + d) as char else ('a' as int + d - 10) as char
  }

  function HexDigitValue(c: char): (v: nat)
    requires IsHexDigit(c)
    ensures v < 16
    ensures forall d :: 0 <= d < 16 && c == HexChar(d) ==> v == d
  {
    if c <= '9' then (c as int - '0' as int)
    else if c >= 'a' then (c as int - 'a' as int + 10)
    else (c as int - 'A' as int + 10)
  }

  /** The w lowest hex digits of n, zero-padded, most significant first. */
  function Hex(n: nat, w: nat): (s: string)
    ensures |s| == w
    ensures forall i :: 0 <= i < |s| ==> IsLowerHex(s[i])
  {
    if w == 0 then "" else Hex(n / 16, w - 1) + [HexChar(n % 16)]
  }

  /** "%08x" of a 32-bit word. */
  function Hex8(x: u32): (s: string)
    ensures |s| == 8
  {
    Hex(x, 8)
  }

  /** The value of a string of hex digits (either case). */
  function HexValue(s: string): nat
    requires AllHex(s)
  {
    if s == [] then 0 else 16 * HexValue(s[..|s| - 1]) + HexDigitValue(s[|s| - 1])
  }

  /** Parsing the w-digit rendering of n gives back n modulo 16^w. */
  lemma {:induction false} HexRoundTrip(n: nat, w: nat)
    ensures AllHex(Hex(n, w))
    ensures HexValue(Hex(n, w)) == n % Pow16(w)
  {
    var s := Hex(n, w);
    if w > 0 {
      var init := Hex(n / 16, w - 1);
      assert s[..|s| - 1] == init;
      HexRoundTrip(n / 16, w - 1);
      DivModNest(n, 16, Pow16(w - 1));
    }
  }

  lemma Pow16Eight()
    ensures Pow16(8) == 0x1_0000_0000
  {
  }

  /** The eight digits of a word read back as the word. */
  lemma Hex8RoundTrip(x: u32)
    ensures AllHex(Hex8(x))
    ensures HexValue(Hex8(x)) == x
  {
    HexRoundTrip(x, 8);
    Pow16Eight();
    DivModUnique(x, Pow16(8), 0, x);
  }

  /** n with its b lowest hex digits dropped (n / 16^b). */
  function HexHigh(n: nat, b: nat): nat
  {
    if b == 0 then n else HexHigh(n / 16, b - 1)
  }

  /** The b lowest hex digits of n as a number (n % 16^b). */
  function HexLow(n: nat, b: nat): nat
  {
    if b == 0 then 0 else 16 * HexLow(n / 16, b - 1) + n % 16
  }

  /** An (a+b)-digit rendering is the a high digits followed by the b low digits. */
  lemma {:induction false} HexSplit(n: nat, a: nat, b: nat)
    ensures Hex(n, a + b) == Hex(HexHigh(n, b), a) + Hex(HexLow(n, b), b)
  {
    if b > 0 {
      var lo := HexLow(n, b);
      HexSplit(n / 16, a, b - 1);
      assert lo / 16 == HexLow(n / 16, b - 1) && lo % 16 == n % 16;
      calc {
        Hex(n, a + b);
        Hex(n / 16, a + b - 1) + [HexChar(n % 16)];
        Hex(HexHigh(n, b), a) + Hex(HexLow(n / 16, b - 1), b - 1) + [HexChar(n % 16)];
        Hex(HexHigh(n, b), a) + (Hex(lo / 16, b - 1) + [HexChar(lo % 16)]);
        Hex(HexHigh(n, b), a) + Hex(lo, b);
      }
    }
  }

  /** Dropping two hex digits is shifting right by 8; the two low digits are the low byte. */
  lemma HexByte(n: nat)
    ensures HexHigh(n, 2) == Shr(n, 8)
    ensures HexLow(n, 2) == n % 0x100
  {
    ShrIsDiv(n, 8);
    assert Pow2(8) == 0x100;
    DivModNest(n, 16, 16);
    assert HexHigh(n, 2) == HexHigh(n / 16, 1) == n / 16 / 16;
    assert HexLow(n, 2) == 16 * HexLow(n / 16, 1) + n % 16;
    assert HexLow(n / 16, 1) == (n / 16) % 16;
  }

  /** The two-digit rendering of n is that of its low byte. */
  lemma HexTwoDigits(n: nat)
    ensures Hex(n, 2) == Hex(n % 0x100, 2)
  {
    HexSplit(n, 0, 2);
    HexByte(n);
  }

  // ---------------------------------------------------------------------
  // Decimal

  predicate IsDecDigit(c: char)
  {
    '0' <= c <= '9'
  }

  predicate AllDec(s: string)
  {
    forall i :: 0 <= i < |s| ==> IsDecDigit(s[i])
  }

  /** '0' + d, as the firmware printers compute a digit. */
  function DecChar(d: nat): (c: char)
    requires d < 10
    ensures IsDecDigit(c)
  {
    ('0' as int + d) as char
  }

  /** The decimal representation of n, most significant digit first. */
  function Dec(n: nat): (s: string)
    ensures 1 <= |s|
    ensures AllDec(s)
  {
    if n < 10 then [DecChar(n)] else Dec(n / 10) + [DecChar(n % 10)]
  }

  function DecValue(s: string): nat
    requires AllDec(s)
  {
    if s == [] then 0 else 10 * DecValue(s[..|s| - 1]) + (s[|s| - 1] as int - '0' as int)
  }

  /** Reading the printed digits back as a decimal number gives n. */
  lemma {:induction false} DecRoundTrip(n: nat)
    ensures DecValue(Dec(n)) == n
  {
    if n >= 10 {
      var s := Dec(n);
      assert s[..|s| - 1] == Dec(n / 10);
      DecRoundTrip(n / 10);
    }
  }

  /** The representation has a leading zero only for the number zero, which is "0". */
  lemma {:induction false} DecNoLeadingZero(n: nat)
    ensures Dec(n)[0] == '0' <==> n == 0
    ensures n == 0 ==> Dec(n) == "0"
  {
    if n >= 10 {
      DecNoLeadingZero(n / 10);
    }
  }

  /** A number below 10^k has at most k digits. */
  lemma {:induction false} DecLength(n: nat, k: nat)
    requires 1 <= k && n < Pow10(k)
    ensures |Dec(n)| <= k
  {
    if n >= 10 {
      DecLength(n / 10, k - 1);
    }
  }

  /** The digits a firmware printer's "while (n > 0)" loop produces for n,
      most significant first: none when n is not positive. */
  function Digits(n: int): string
  {
    if n <= 0 then [] else Dec(n)
  }

  /** One step of those loops: the last digit of n is n % 10, the others are
      the digits of n / 10. */
  lemma DigitsPeel(n: int)
    requires n > 0
    ensures Digits(n) == Digits(n / 10) + [DecChar(n % 10)]
  {
  }

  // ---------------------------------------------------------------------
  // Padding

  /** Right-justified in a field of w spaces ("%8lu"). */
  function PadLeft(s: string, w: nat): (r: string)
    ensures |r| == if |s| < w then w else |s|
    ensures r[|r| - |s|..] == s
    ensures forall i :: 0 <= i < |r| - |s| ==> r[i] == ' '
  {
    if |s| < w then seq(w - |s|, _ => ' ') + s else s
  }

  /** Left-justified in a field of w spaces ("%-2d"). */
  function PadRight(s: string, w: nat): (r: string)
    ensures |r| == if |s| < w then w else |s|
    ensures r[..|s|] == s
    ensures forall i :: |s| <= i < |r| ==> r[i] == ' '
  {
    if |s| < w then s + seq(w - |s|, _ => ' ') else s
  }
}
