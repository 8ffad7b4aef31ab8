/**
 * The firmware console (sw/lib/console.c): every character is one store to
 * the console register, which the simulator echoes to its standard output.
 * The console is modelled by the characters it has received, in order.
 */
module FwConsole {
  import opened CString

  class Console {
    /** The characters stored to the console register so far. */
    var out: seq<char>

    constructor ()
      ensures out == []
    {
      out := [];
    }

    /** console_putchar: a single store of c. */
    method Putchar(c: char)
      modifies this
      ensures out == old(out) + [c]
    {
      out := out + [c];
    }

    /** console_puts: store the characters of the C string at the start of
        str, up to but not including its terminating NUL. */
    method Puts(str: seq<char>)
      requires NUL in str
      modifies this
      ensures out == old(out) + CStr(str)
      ensures |out| == |old(out)| + Strlen(str)
    {
      var i := 0;
      while str[i] != NUL
        invariant 0 <= i <= Strlen(str)
        invariant out == old(out) + str[..i]
        decreases Strlen(str) - i
      {
        Putchar(str[i]);
        i := i + 1;
      }
      assert str[..i] == CStr(str);
    }
  }
}
