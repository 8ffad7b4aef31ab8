/**
 * The Fibonacci example program (sw/ex/fibonacci/fibonacci.c): the
 * recursive and the iterative definition, which the program prints side by
 * side, and its decimal printer.
 */
module Fibonacci {
  import opened Bits
  import opened Text
  import opened FwConsole

  /** fib_recursive on unbounded integers: n itself below 2. */
  function FibRecursive(n: int): (r: int)
    ensures n >= 0 ==> r >= 0
    ensures n >= 1 ==> r >= 1
    decreases if n < 2 then 0 else n
  {
    if n < 2 then n else FibRecursive(n - 1) + FibRecursive(n - 2)
  }

  /** The largest values below the 32-bit overflow. */
  lemma FibValues()
    ensures FibRecursive(45) == 1134903170 && FibRecursive(46) == 1836311903
  {
    assert FibRecursive(2) == 1;
    assert FibRecursive(3) == 2;
    assert FibRecursive(4) == 3;
    assert FibRecursive(5) == 5;
    assert FibRecursive(6) == 8;
    assert FibRecursive(7) == 13;
    assert FibRecursive(8) == 21;
    assert FibRecursive(9) == 34;
    assert FibRecursive(10) == 55;
    assert FibRecursive(11) == 89;
    assert FibRecursive(12) == 144;
    assert FibRecursive(13) == 233;
    assert FibRecursive(14) == 377;
    assert FibRecursive(15) == 610;
    assert FibRecursive(16) == 987;
    assert FibRecursive(17) == 1597;
    assert FibRecursive(18) == 2584;
    assert FibRecursive(19) == 4181;
    assert FibRecursive(20) == 6765;
    assert FibRecursive(21) == 10946;
    assert FibRecursive(22) == 17711;
    assert FibRecursive(23) == 28657;
    assert FibRecursive(24) == 46368;
    assert FibRecursive(25) == 75025;
    assert FibRecursive(26) == 121393;
    assert FibRecursive(27) == 196418;
    assert FibRecursive(28) == 317811;
    assert FibRecursive(29) == 514229;
    assert FibRecursive(30) == 832040;
    assert FibRecursive(31) == 1346269;
    assert FibRecursive(32) == 2178309;
    assert FibRecursive(33) == 3524578;
    assert FibRecursive(34) == 5702887;
    assert FibRecursive(35) == 9227465;
    assert FibRecursive(36) == 14930352;
    assert FibRecursive(37) == 24157817;
    assert FibRecursive(38) == 39088169;
    assert FibRecursive(39) == 63245986;
    assert FibRecursive(40) == 102334155;
    assert FibRecursive(41) == 165580141;
    assert FibRecursive(42) == 267914296;
    assert FibRecursive(43) == 433494437;
    assert FibRecursive(44) == 701408733;
  }

  /** The sequence never decreases from index 0 on. */
  lemma {:induction false} FibMonotone(i: nat, j: nat)
    requires i <= j
    ensures 0 <= FibRecursive(i) <= FibRecursive(j)
    decreases j
  {
    if j >= 2 && i < j {
      FibMonotone(i, j - 1);
      FibMonotone(0, j - 2);
    } else if i == j && j >= 2 {
      FibMonotone(0, j - 1);
      FibMonotone(0, j - 2);
    }
  }

  /** Up to n = 46 every value, and so every sum the two versions compute,
      fits in a 32-bit int. */
  lemma FibFitsInt32(n: int32)
    requires n <= 46
    ensures -0x8000_0000 <= FibRecursive(n) <= 1836311903
  {
    FibValues();
    if n >= 0 {
      FibMonotone(n, 46);
    }
  }

  /** fib(47) does not fit in a 32-bit int, so the C code overflows there. */
  lemma FibOverflows()
    ensures FibRecursive(47) >= 0x8000_0000
  {
    FibValues();
  }

  /** fib_iterative: a = fib(i - 2) and b = fib(i - 1) walk up to n. The C
      int arithmetic overflows beyond n = 46, which the callers must avoid. */
  method FibIterative(n: int32) returns (r: int32)
    requires n <= 46
    ensures r == FibRecursive(n)
  {
    if n < 2 {
      return n;
    }
    var a: int32, b: int32 := 0, 1;
    for i := 2 to n + 1
      invariant a == FibRecursive(i - 2) && b == FibRecursive(i - 1)
    {
      FibFitsInt32(i);
      var next: int32 := a + b;
      a := b;
      b := next;
    }
    r := b;
  }

  /** The two versions agree, the check main prints for each of its
      indices 0 to 19; their common values start 0, 1, 1, 2, 3, 5. */
  lemma FibStart()
    ensures FibRecursive(0) == 0 && FibRecursive(1) == 1 && FibRecursive(2) == 1
    ensures FibRecursive(3) == 2 && FibRecursive(4) == 3 && FibRecursive(5) == 5
    ensures FibRecursive(19) == 4181
  {
    FibValues();
  }

  /** An int has at most 10 digits, so print_num's 12-character buffer is
      never overrun. */
  lemma IntDigitsBound(n: int32)
    ensures |Digits(n)| <= 10
  {
    if n > 0 {
      Pow10Values();
      DecLength(n, 10);
    }
  }

  /** The first loop of print_num: while n > 0, buf[i++] = '0' + n % 10 and
      n /= 10, so the buffer holds the digits least significant first. */
  method ExtractDigits(n: int32) returns (buf: array<char>, i: nat)
    ensures fresh(buf) && buf.Length == 12
    ensures i == |Digits(n)| <= 10
    ensures forall j :: 0 <= j < i ==> buf[j] == Digits(n)[i - 1 - j]
  {
    ghost var d := Digits(n);
    IntDigitsBound(n);
    buf := new char[12];
    i := 0;
    var m := n;
    while m > 0
      invariant 0 <= i <= |d| <= 10
      invariant Digits(m) == d[..|d| - i]
      invariant forall j :: 0 <= j < i ==> buf[j] == d[|d| - 1 - j]
      decreases m
    {
      DigitsPeel(m);
      buf[i] := DecChar(m % 10);
      i := i + 1;
      m := m / 10;
    }
    assert |Digits(m)| == 0 == |d| - i;
  }

  /** print_num: "0" for zero; otherwise the extracted digits printed in
      reverse order of extraction. A negative n prints nothing. */
  method PrintNum(con: Console, n: int32)
    modifies con
    ensures n >= 0 ==> con.out == old(con.out) + Dec(n)
    ensures n < 0 ==> con.out == old(con.out)
  {
    if n == 0 {
      con.Putchar('0');
      return;
    }
    ghost var d := Digits(n);
    var buf, i := ExtractDigits(n);
    while i != 0
      invariant 0 <= i <= |d|
      invariant forall j :: 0 <= j < |d| ==> buf[j] == d[|d| - 1 - j]
      invariant con.out == old(con.out) + d[..|d| - i]
    {
      i := i - 1;
      con.Putchar(buf[i]);
      assert d[..|d| - i] == d[..|d| - i - 1] + [d[|d| - 1 - i]];
    }
    assert d[..|d|] == d;
  }

  /** What print_num prints reads back as the number. */
  lemma PrintNumReadsBack(n: nat)
    ensures DecValue(Dec(n)) == n
    ensures n > 0 ==> Dec(n)[0] != '0'
  {
    DecRoundTrip(n);
    DecNoLeadingZero(n);
  }
}
