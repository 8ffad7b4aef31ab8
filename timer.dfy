/**
 * The decimal printer of the timer example program (sw/ex/timer/timer.c),
 * which prints 64-bit cycle counts.
 */
module Timer {
  import opened Bits
  import opened Text
  import opened FwConsole

  /** A 64-bit value has at most 20 decimal digits, so print_dec64's buffer
      of 21 characters is never overrun. */
  lemma Dec64Length(x: u64)
    ensures |Dec(x)| <= 20
  {
    Pow10Values();
    DecLength(x, 20);
  }

  /** The first loop of print_dec64: the digits of x, least significant
      first, into buf[pos++]. */
  method ExtractDigits(x: u64) returns (buf: array<char>, pos: nat)
    ensures fresh(buf) && buf.Length == 21
    ensures pos == |Digits(x)| <= 20
    ensures forall j :: 0 <= j < pos ==> buf[j] == Digits(x)[pos - 1 - j]
  {
    ghost var d := Digits(x);
    if x > 0 {
      Dec64Length(x);
    }
    buf := new char[21];
    pos := 0;
    var m := x;
    while m > 0
      invariant 0 <= pos <= |d| <= 20
      invariant Digits(m) == d[..|d| - pos]
      invariant forall j :: 0 <= j < pos ==> buf[j] == d[|d| - 1 - j]
    {
      DigitsPeel(m);
      buf[pos] := DecChar(m % 10);
      pos := pos + 1;
      m := m / 10;
    }
    assert |Digits(m)| == 0 == |d| - pos;
  }

  /** print_dec64: "0" for zero; otherwise the extracted digits printed from
      buf[pos - 1] down to buf[0]. */
  method PrintDec64(con: Console, x: u64)
    modifies con
    ensures con.out == old(con.out) + Dec(x)
  {
    if x == 0 {
      con.Putchar('0');
      return;
    }
    ghost var d := Digits(x);
    var buf, pos := ExtractDigits(x);
    for i := pos downto 0
      invariant forall j :: 0 <= j < pos ==> buf[j] == d[pos - 1 - j]
      invariant con.out == old(con.out) + d[..|d| - i]
    {
      con.Putchar(buf[i]);
      assert d[..|d| - i] == d[..|d| - i - 1] + [d[|d| - 1 - i]];
    }
    assert d[..|d|] == d;
  }

  /** The printed digits read back as the value, with no leading zero except
      for zero itself. */
  lemma PrintDec64ReadsBack(x: u64)
    ensures DecValue(Dec(x)) == x
    ensures Dec(x)[0] == '0' <==> x == 0
  {
    DecRoundTrip(x);
    DecNoLeadingZero(x);
  }
}
