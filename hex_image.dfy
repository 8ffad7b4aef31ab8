/**
 * The memory image file format of load_hex and dump_mem: one word per line
 * in hexadecimal. The file is given as its lines (what std::getline yields).
 */
module HexImage {
  import opened Bits
  import opened Text
  import opened Dut
  import opened Wrappers


  /** A line load_hex stores: not empty and not an '@' address line. */
  predicate IsDataLine(l: string)
  {
    l != [] && l[0] != '@'
  }


  /** The length of the run of hex digits that starts the line. */
  function HexRun(l: string): (k: nat)
    ensures k <= |l| && AllHex(l[..k])
    ensures k < |l| ==> !IsHexDigit(l[k])
  {
    if l == [] || !IsHexDigit(l[0]) then 0
    else
      var k := 1 + HexRun(l[1..]);
      assert forall i :: 1 <= i < k ==> l[..k][i] == l[1..][..k - 1][i - 1];
      k
  }

  /** std::stoul(line, nullptr, 16): the value of the leading hex digits;
      None where it throws (no digit at all, or a value beyond 64 bits). */
  function Stoul16(l: string): (r: Option<nat>)
    ensures r.Some? ==> r.value < U64
  {
    var k := HexRun(l);
    if k == 0 then None
    else if HexValue(l[..k]) >= U64 then None
    else Some(HexValue(l[..k]))
  }

  /** Every data line parses. */
  predicate WellFormed(lines: seq<string>)
  {
    forall i :: 0 <= i < |lines| && IsDataLine(lines[i]) ==> Stoul16(lines[i]).Some?
  }

  /** std::stoul in base 16, then the conversion to uint32_t, which keeps the low 32 bits. */
  function ParseWord(l: string): u32
    requires Stoul16(l).Some?
  {
    Stoul16(l).value % U32
  }

  /** A line of hex digits only is read in full. */
  lemma {:induction false} AllHexRun(l: string)
    requires AllHex(l)
    ensures HexRun(l) == |l|
  {
    if l != [] {
      AllHexRun(l[1..]);
    }
  }

  /** The words the data lines hold, in file order. */
  function DataWords(lines: seq<string>): seq<u32>
    requires WellFormed(lines)
  {
    if lines == [] then []
    else
      var last := lines[|lines| - 1];
      assert WellFormed(lines[..|lines| - 1]) by {
        forall i | 0 <= i < |lines| - 1 ensures lines[..|lines| - 1][i] == lines[i] { }
      }
      DataWords(lines[..|lines| - 1]) + (if IsDataLine(last) then [ParseWord(last)] else [])
  }

  /** A memory whose first |words| words are replaced by words. */
  function Overlay(mem: seq<u32>, words: seq<u32>): (r: seq<u32>)
    requires |words| <= |mem|
    ensures |r| == |mem|
    ensures forall i :: 0 <= i < |words| ==> r[i] == words[i]
    ensures forall i :: |words| <= i < |mem| ==> r[i] == mem[i]
  {
    words + mem[|words|..]
  }

  /** The lines dump_mem writes: each word as eight zero-padded lowercase hex digits. */
  function DumpImage(mem: seq<u32>): (lines: seq<string>)
    ensures |lines| == |mem|
  {
    seq(|mem|, i requires 0 <= i < |mem| => Hex8(mem[i]))
  }

  /** The data words of a prefix of the file are a prefix of the file's data words. */
  lemma {:induction false} DataWordsPrefix(lines: seq<string>, j: nat)
    requires WellFormed(lines) && j <= |lines|
    ensures WellFormed(lines[..j])
    ensures DataWords(lines[..j]) <= DataWords(lines)
    decreases |lines| - j
  {
    assert WellFormed(lines[..j]) by {
      forall i | 0 <= i < j ensures lines[..j][i] == lines[i] { }
    }
    if j < |lines| {
      DataWordsPrefix(lines, j + 1);
      assert lines[..j + 1][..j] == lines[..j];
    } else {
      assert lines[..j] == lines;
    }
  }

  /** The data words of one more line, when that line parses or is not a data line. */
  lemma DataWordsSnoc(lines: seq<string>, j: nat)
    requires j < |lines| && WellFormed(lines[..j])
    requires IsDataLine(lines[j]) ==> Stoul16(lines[j]).Some?
    ensures WellFormed(lines[..j + 1])
    ensures DataWords(lines[..j + 1]) ==
            DataWords(lines[..j]) + (if IsDataLine(lines[j]) then [ParseWord(lines[j])] else [])
  {
    var next := lines[..j + 1];
    assert next[..j] == lines[..j];
    assert forall i :: 0 <= i < j ==> next[i] == lines[..j][i];
  }

  /** A dumped word's line is a data line that std::stoul reads back in full. */
  lemma DumpLineParses(x: u32)
    ensures IsDataLine(Hex8(x)) && Stoul16(Hex8(x)) == Some(x as nat)
    ensures ParseWord(Hex8(x)) == x
  {
    var l := Hex8(x);
    Hex8RoundTrip(x);
    AllHexRun(l);
    assert l[..|l|] == l;
    assert l[0] != '@' by {
      assert IsLowerHex(l[0]);
    }
  }

  /** Every line of a dump parses. */
  lemma DumpWellFormed(mem: seq<u32>)
    ensures WellFormed(DumpImage(mem))
  {
    var lines := DumpImage(mem);
    forall i | 0 <= i < |lines| && IsDataLine(lines[i]) ensures Stoul16(lines[i]).Some? {
      DumpLineParses(mem[i]);
    }
  }

  /** Loading a dump restores the dumped memory word for word. */
  lemma {:induction false} DumpLoadRoundTrip(mem: seq<u32>)
    ensures WellFormed(DumpImage(mem))
    ensures DataWords(DumpImage(mem)) == mem
  {
    DumpWellFormed(mem);
    if mem != [] {
      var lines := DumpImage(mem);
      var init := mem[..|mem| - 1];
      var x := mem[|mem| - 1];
      DumpLoadRoundTrip(init);
      assert lines[..|lines| - 1] == DumpImage(init);
      DumpLineParses(x);
      assert DataWords(lines) == DataWords(DumpImage(init)) + [ParseWord(Hex8(x))];
      assert mem == init + [x];
    }
  }

  /** Loading a full dump over any memory of the same size yields the dumped memory. */
  lemma LoadDumpRestores(mem: MemImage, before: MemImage)
    ensures WellFormed(DumpImage(mem)) && DataWords(DumpImage(mem)) == mem
    ensures Overlay(before, DataWords(DumpImage(mem))) == mem
  {
    DumpLoadRoundTrip(mem);
  }
}
