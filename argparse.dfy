/**
 * The simulator's command-line parser (namespace ArgParse in sim/argparse.h):
 * arguments registered with aliases, a type and a default, and parse_args,
 * which fills a key -> tagged value map and the list of positional arguments.
 */
module ArgParse {
  import opened Bits
  import opened Text
  import opened CString
  import opened Wrappers

  /** ARGPARSE_MAX_STRLEN: the size of a string value's buffer. */
  const MaxStrlen: nat := 256

  /** LONG_MIN and LONG_MAX of the 64-bit host. */
  const LongMin: int := -0x8000_0000_0000_0000
  const LongMax: int := 0x7FFF_FFFF_FFFF_FFFF

  datatype ArgType = Unk | Bool | Int | Float | Str

  /** The tagged union ArgVal_t. A float is kept as its text; a string value is
      the bytes memccpy wrote into the 256-byte buffer. */
  datatype ArgVal = UnkVal | BoolVal(b: bool) | IntVal(i: int) | FloatVal(text: string) | StrVal(bytes: seq<char>)

  datatype Argument = Argument(aliases: seq<string>, help: string, argType: ArgType,
                               required: bool, key: string, defaultval: ArgVal)

  // ---------------------------------------------------------------------
  // alias2key

  predicate IsAlpha(c: char)
  {
    'A' <= c <= 'Z' || 'a' <= c <= 'z'
  }

  /** A character alias2key accepts once the key has started. */
  predicate IsKeyChar(c: char)
  {
    IsAlpha(c) || IsDecDigit(c) || c == '_' || c == '-'
  }

  /** The character a key character becomes: '-' is written as '_'. */
  function KeyChar(c: char): char
  {
    if c == '-' then '_' else c
  }

  /** The scan of alias2key from the current character on; started tells
      whether the first letter has been seen. An invalid character ends the
      scan with the key built so far. */
  function KeyScan(a: string, started: bool): string
  {
    if a == [] then ""
    else if started then
      if IsAlpha(a[0]) || IsDecDigit(a[0]) || a[0] == '_' then [a[0]] + KeyScan(a[1..], true)
      else if a[0] == '-' then "_" + KeyScan(a[1..], true)
      else ""
    else if a[0] == '-' then KeyScan(a[1..], false)
    else if IsAlpha(a[0]) then [a[0]] + KeyScan(a[1..], true)
    else ""
  }

  /** alias2key: "--opt-flat" becomes "opt_flat". */
  function Alias2Key(alias: string): string
  {
    KeyScan(alias, false)
  }

  /** The number of leading dashes. */
  function DashRun(a: string): (n: nat)
    ensures n <= |a|
    ensures forall i :: 0 <= i < n ==> a[i] == '-'
    ensures n < |a| ==> a[n] != '-'
  {
    if a == [] || a[0] != '-' then 0 else 1 + DashRun(a[1..])
  }

  /** The length of the leading run of key characters. */
  function KeyRun(a: string): (n: nat)
    ensures n <= |a|
    ensures forall i :: 0 <= i < n ==> IsKeyChar(a[i])
    ensures n < |a| ==> !IsKeyChar(a[n])
  {
    if a == [] || !IsKeyChar(a[0]) then 0 else 1 + KeyRun(a[1..])
  }

  /** Every character mapped through KeyChar. */
  function MapKey(s: string): (r: string)
    ensures |r| == |s|
    ensures forall i :: 0 <= i < |s| ==> r[i] == KeyChar(s[i])
  {
    seq(|s|, i requires 0 <= i < |s| => KeyChar(s[i]))
  }

  /** What alias2key means: skip the leading dashes; if a letter follows, the
      key is the run of characters in [A-Za-z0-9_-] from there, with '-'
      written as '_'; otherwise the key is empty. */
  function KeyOf(alias: string): string
  {
    var rest := alias[DashRun(alias)..];
    if rest == [] || !IsAlpha(rest[0]) then "" else MapKey(rest[..KeyRun(rest)])
  }

  lemma {:induction false} StartedScan(a: string)
    ensures KeyScan(a, true) == MapKey(a[..KeyRun(a)])
  {
    if a != [] && IsKeyChar(a[0]) {
      StartedScan(a[1..]);
      assert a[..KeyRun(a)] == [a[0]] + a[1..][..KeyRun(a[1..])];
    }
  }

  /** The character scan computes KeyOf. */
  lemma {:induction false} Alias2KeyIsKeyOf(alias: string)
    ensures Alias2Key(alias) == KeyOf(alias)
  {
    if alias != [] {
      if alias[0] == '-' {
        Alias2KeyIsKeyOf(alias[1..]);
        assert alias[DashRun(alias)..] == alias[1..][DashRun(alias[1..])..];
      } else if IsAlpha(alias[0]) {
        StartedScan(alias[1..]);
        assert alias[..KeyRun(alias)] == [alias[0]] + alias[1..][..KeyRun(alias[1..])];
      }
    }
  }

  /** A key holds only letters, digits and '_', starts with a letter when it
      is not empty, and is no longer than the alias. */
  lemma KeyShape(alias: string)
    ensures |Alias2Key(alias)| <= |alias|
    ensures forall i :: 0 <= i < |Alias2Key(alias)| ==>
              IsAlpha(Alias2Key(alias)[i]) || IsDecDigit(Alias2Key(alias)[i]) || Alias2Key(alias)[i] == '_'
    ensures Alias2Key(alias) != [] ==> IsAlpha(Alias2Key(alias)[0])
  {
    Alias2KeyIsKeyOf(alias);
  }

  /** The tail of the example below: "-flat" after the first letter. */
  lemma KeyScanFlat()
    ensures KeyScan("-flat", true) == "_flat"
  {
    assert KeyScan("t", true) == "t";
    assert KeyScan("at", true) == "at";
    assert KeyScan("lat", true) == "lat";
    assert KeyScan("flat", true) == "flat";
  }

  /** The example of the source's comment: "--opt-flat" becomes "opt_flat". */
  lemma KeyExampleOptFlat()
    ensures Alias2Key("--opt-flat") == "opt_flat"
  {
    KeyScanFlat();
    assert KeyScan("t-flat", true) == "t_flat";
    assert KeyScan("pt-flat", true) == "pt_flat";
    assert KeyScan("opt-flat", false) == "opt_flat";
    assert KeyScan("-opt-flat", false) == "opt_flat";
  }

  /** The help flag's long alias "--help" gives the key "help". */
  lemma KeyExampleHelp()
    ensures Alias2Key("--help") == "help"
  {
    assert KeyScan("p", true) == "p";
    assert KeyScan("lp", true) == "lp";
    assert KeyScan("elp", true) == "elp";
    assert KeyScan("help", false) == "help";
    assert KeyScan("-help", false) == "help";
  }

  // ---------------------------------------------------------------------
  // is_valid_type

  /** The INT scan: every character from i on is a decimal digit. */
  function DigitsFrom(s: string, i: nat): bool
    requires i <= |s|
    decreases |s| - i
  {
    i == |s| || (IsDecDigit(s[i]) && DigitsFrom(s, i + 1))
  }

  /** A character the FLOAT scan lets through: a digit, a '.' that is not the
      last character, or a '-' in front. */
  predicate FloatCharOk(s: string, i: nat)
    requires i < |s|
  {
    IsDecDigit(s[i]) || (s[i] == '.' && i != |s| - 1) || (s[i] == '-' && i == 0)
  }

  /** The FLOAT scan from index i on. */
  function FloatFrom(s: string, i: nat): bool
    requires i <= |s|
    decreases |s| - i
  {
    i == |s| || (FloatCharOk(s, i) && FloatFrom(s, i + 1))
  }

  /** is_valid_type. */
  function IsValidType(s: string, t: ArgType): bool
  {
    match t
    case Bool => s == "true" || s == "1" || s == "false" || s == "0"
    case Int => DigitsFrom(s, 0)
    case Float => FloatFrom(s, 0)
    case Str => true
    case Unk => false
  }

  lemma {:induction false} DigitsFromAll(s: string, i: nat)
    requires i <= |s|
    ensures DigitsFrom(s, i) <==> forall k :: i <= k < |s| ==> IsDecDigit(s[k])
    decreases |s| - i
  {
    if i < |s| {
      DigitsFromAll(s, i + 1);
    }
  }

  lemma {:induction false} FloatFromAll(s: string, i: nat)
    requires i <= |s|
    ensures FloatFrom(s, i) <==> forall k :: i <= k < |s| ==> FloatCharOk(s, k)
    decreases |s| - i
  {
    if i < |s| {
      FloatFromAll(s, i + 1);
    }
  }

  /** An INT value is all digits: the empty string passes and a sign does not.
      A FLOAT value has digits, a leading '-' and dots anywhere but at the end,
      any number of them. */
  lemma ValidTypeMeaning(s: string)
    ensures IsValidType(s, Int) <==> AllDec(s)
    ensures IsValidType(s, Float) <==> forall k :: 0 <= k < |s| ==> FloatCharOk(s, k)
    ensures IsValidType(s, Int) ==> IsValidType(s, Float)
    ensures IsValidType(s, Str) && !IsValidType(s, Unk)
  {
    DigitsFromAll(s, 0);
    FloatFromAll(s, 0);
  }

  /** Concrete cases of the scans: "" and "007" are INTs, "-1" is not; "1.2.3"
      and "-" are FLOATs, "1." and "1-" are not. */
  lemma ValidTypeExamples()
    ensures IsValidType("", Int) && IsValidType("007", Int) && !IsValidType("-1", Int)
    ensures IsValidType("1.2.3", Float) && IsValidType("-", Float)
    ensures !IsValidType("1.", Float) && !IsValidType("1-", Float)
  {
    ValidTypeMeaning("007");
    ValidTypeMeaning("-1");
    ValidTypeMeaning("1.2.3");
    ValidTypeMeaning("-");
    ValidTypeMeaning("1.");
    assert !FloatCharOk("1.", 1);
    ValidTypeMeaning("1-");
    assert !FloatCharOk("1-", 1);
  }

  // ---------------------------------------------------------------------
  // strtol(s, nullptr, 0) and memccpy(buf, s, 0, 256)

  predicate IsSpace(c: char)
  {
    c == ' ' || c == '\t' || c == '\n' || c == '\U{B}' || c == '\U{C}' || c == '\r'
  }

  /** The value of a digit or letter in bases up to 36; 36 for anything else. */
  function DigitValue(c: char): (v: nat)
    ensures v <= 36
  {
    if '0' <= c <= '9' then c as int - '0' as int
    else if 'a' <= c <= 'z' then c as int - 'a' as int + 10
    else if 'A' <= c <= 'Z' then c as int - 'A' as int + 10
    else 36
  }

  function SpaceRun(s: string): (n: nat)
    ensures n <= |s|
  {
    if s == [] || !IsSpace(s[0]) then 0 else 1 + SpaceRun(s[1..])
  }

  /** The length of the leading run of digits of the base. */
  function DigitRun(s: string, base: nat): (n: nat)
    ensures n <= |s|
    ensures forall i :: 0 <= i < n ==> DigitValue(s[i]) < base
  {
    if s == [] || DigitValue(s[0]) >= base then 0 else 1 + DigitRun(s[1..], base)
  }

  /** The value of a string of digits of the base, most significant first. */
  function ValueIn(s: string, base: nat): nat
    requires forall i :: 0 <= i < |s| ==> DigitValue(s[i]) < base
  {
    if s == [] then 0
    else
      var init := s[..|s| - 1];
      assert forall i :: 0 <= i < |init| ==> init[i] == s[i];
      var v := ValueIn(init, base);
      MulLe(base, 0, v);
      base * v + DigitValue(s[|s| - 1])
  }

  /** The base strtol picks for the text after the sign: 16 after "0x" or "0X"
      when a hex digit follows, 8 after a leading 0, 10 otherwise. */
  function StrtolBase(u: string): (base: nat)
    ensures base == 8 || base == 10 || base == 16
  {
    if |u| >= 3 && u[0] == '0' && (u[1] == 'x' || u[1] == 'X') && DigitValue(u[2]) < 16 then 16
    else if u != [] && u[0] == '0' then 8
    else 10
  }

  /** The value of the digits after the sign, up to the first character that is
      not a digit of the base; 0 when there is none. */
  function Magnitude(u: string): nat
  {
    var base := StrtolBase(u);
    var d := if base == 16 then u[2..] else u;
    ValueIn(d[..DigitRun(d, base)], base)
  }

  /** A magnitude with its sign, saturated to the range of long. */
  function Saturate(neg: bool, v: nat): (r: int)
    ensures LongMin <= r <= LongMax
  {
    if neg then (if v > -LongMin then LongMin else -(v as int))
    else (if v > LongMax then LongMax else v)
  }

  /** strtol with base 0: leading white space, an optional sign, then "0x" and
      hex digits, a leading 0 and octal digits, or decimal digits; no digit at
      all gives 0, and a value out of range saturates. */
  function Strtol0(s: string): (r: int)
    ensures LongMin <= r <= LongMax
  {
    var t := s[SpaceRun(s)..];
    if t != [] && t[0] == '-' then Saturate(true, Magnitude(t[1..]))
    else if t != [] && t[0] == '+' then Saturate(false, Magnitude(t[1..]))
    else Saturate(false, Magnitude(t))
  }

  lemma {:induction false} ValueInDec(s: string)
    requires AllDec(s)
    ensures forall i :: 0 <= i < |s| ==> DigitValue(s[i]) < 10
    ensures ValueIn(s, 10) == DecValue(s)
  {
    if s != [] {
      ValueInDec(s[..|s| - 1]);
    }
  }

  lemma {:induction false} DigitRunAll(s: string, base: nat)
    requires forall i :: 0 <= i < |s| ==> DigitValue(s[i]) < base
    ensures DigitRun(s, base) == |s|
  {
    if s != [] {
      DigitRunAll(s[1..], base);
    }
  }

  /** A string starting with a digit has no white space or sign to skip. */
  lemma StrtolUnsigned(s: string)
    requires s != [] && IsDecDigit(s[0])
    ensures Strtol0(s) == Saturate(false, Magnitude(s))
  {
    assert !IsSpace(s[0]);
    assert s[SpaceRun(s)..] == s;
  }

  /** A digit string without a leading zero is read in decimal. */
  lemma StrtolDecimal(s: string)
    requires AllDec(s) && s != [] && s[0] != '0'
    ensures Strtol0(s) == Saturate(false, DecValue(s))
  {
    StrtolUnsigned(s);
    assert StrtolBase(s) == 10;
    ValueInDec(s);
    DigitRunAll(s, 10);
    assert s[..DigitRun(s, 10)] == s;
  }

  /** What strtol makes of a value that passed the INT check (all digits, see
      ValidTypeMeaning): the empty string is 0, a leading zero makes the digits
      octal up to the first 8 or 9, and any other digit string is decimal; the
      value saturates at LONG_MAX. */
  lemma StrtolOfDigits(s: string)
    requires AllDec(s)
    ensures s == [] ==> Strtol0(s) == 0
    ensures s != [] && s[0] != '0' ==> Strtol0(s) == Saturate(false, DecValue(s))
    ensures s != [] && s[0] == '0' ==> Strtol0(s) == Saturate(false, ValueIn(s[..DigitRun(s, 8)], 8))
  {
    if s == [] {
      assert Magnitude(s) == 0;
    } else if s[0] != '0' {
      StrtolDecimal(s);
    } else {
      StrtolUnsigned(s);
      assert StrtolBase(s) == 8;
      assert Magnitude(s) == ValueIn(s[..DigitRun(s, 8)], 8);
    }
  }

  /** memccpy(buf, src.c_str(), 0, 256): the bytes written, up to and including
      the first NUL of the C string, and never more than 256. */
  function Memccpy(src: string): (r: seq<char>)
    ensures 1 <= |r| <= MaxStrlen
  {
    var t := src + [NUL];
    var n := Strlen(t) + 1;
    if n <= MaxStrlen then t[..n] else t[..MaxStrlen]
  }

  /** A string value shorter than the buffer reads back as the same C string. */
  lemma StrValueReadsBack(src: string)
    requires NUL !in src && |src| < MaxStrlen
    ensures NUL in Memccpy(src) && CStr(Memccpy(src)) == src
  {
    var t := src + [NUL];
    CStrOf(src, []);
    assert Strlen(t) == |src|;
    CStrPrefix(Memccpy(src), src);
  }

  /** A string value of 256 characters or more fills the buffer and leaves it
      without a terminating NUL. */
  lemma LongStrValueUnterminated(src: string)
    requires NUL !in src && |src| >= MaxStrlen
    ensures Memccpy(src) == src[..MaxStrlen]
    ensures NUL !in Memccpy(src)
  {
    var t := src + [NUL];
    CStrOf(src, []);
    assert Strlen(t) == |src|;
    assert t[..MaxStrlen] == src[..MaxStrlen];
    assert forall i :: 0 <= i < MaxStrlen ==> src[..MaxStrlen][i] == src[i];
  }

  // ---------------------------------------------------------------------
  // add_argument and parse_args as functions of the parser state

  /** The key of a new argument: the one given, or alias2key of the last alias. */
  function KeyFor(aliases: seq<string>, key: string): string
    requires aliases != []
  {
    if key == "" then Alias2Key(aliases[|aliases| - 1]) else key
  }

  /** The default add_argument stores for a non-empty default text of a known type. */
  function DefaultOf(t: ArgType, dv: string): ArgVal
    requires dv == "" || t != Unk
  {
    if dv == "" then UnkVal
    else match t
      case Bool => BoolVal(dv == "true" || dv == "1")
      case Int => IntVal(Strtol0(dv))
      case Float => FloatVal(dv)
      case Str => StrVal(Memccpy(dv))
  }

  /** One step of the defaults loop of parse_args: a BOOL starts false, any
      other argument with a default starts at its default. */
  function InitOne(parsed: map<string, ArgVal>, a: Argument): map<string, ArgVal>
  {
    if a.argType == Bool then parsed[a.key := BoolVal(false)]
    else if a.defaultval != UnkVal then parsed[a.key := a.defaultval]
    else parsed
  }

  /** The defaults loop over the argument list, in order. */
  function InitDefaults(list: seq<Argument>, parsed: map<string, ArgVal>): map<string, ArgVal>
  {
    if list == [] then parsed else InitOne(InitDefaults(list[..|list| - 1], parsed), list[|list| - 1])
  }

  /** The first argument, in registration order, with tok among its aliases. */
  function FirstMatch(list: seq<Argument>, tok: string, j: nat): (r: Option<nat>)
    requires j <= |list|
    ensures r.Some? ==> j <= r.value < |list| && tok in list[r.value].aliases &&
                        forall k :: j <= k < r.value ==> tok !in list[k].aliases
    ensures r.None? ==> forall k :: j <= k < |list| ==> tok !in list[k].aliases
    decreases |list| - j
  {
    if j == |list| then None
    else if tok in list[j].aliases then Some(j)
    else FirstMatch(list, tok, j + 1)
  }

  /** A token parse_args stores as positional: one that does not start with '-'
      (an empty token reads '\0' at index 0). */
  predicate IsPositional(tok: string)
  {
    tok == [] || tok[0] != '-'
  }

  datatype ParseError = UnknownOption(arg: string) | MissingValue(arg: string)
                      | InvalidValue(arg: string, value: string) | UnknownType(arg: string)

  /** Where the token loop stops: past the last token, or at an error with
      the state reached so far. */
  datatype Progress = Done(parsed: map<string, ArgVal>, pos: seq<string>)
                    | Failed(err: ParseError, parsed: map<string, ArgVal>, pos: seq<string>)

  /** The value stored for an INT, FLOAT or STR option. */
  function StoreValue(t: ArgType, v: string): ArgVal
  {
    match t
    case Int => IntVal(Strtol0(v))
    case Float => FloatVal(v)
    case Str => StrVal(Memccpy(v))
    case _ => UnkVal
  }

  /** The token loop of parse_args from token i on. */
  function ParseFrom(list: seq<Argument>, toks: seq<string>, i: nat,
                     parsed: map<string, ArgVal>, pos: seq<string>): Progress
    decreases |toks| - i
  {
    if i >= |toks| then Done(parsed, pos)
    else
      var arg := toks[i];
      if IsPositional(arg) then ParseFrom(list, toks, i + 1, parsed, pos + [arg])
      else match FirstMatch(list, arg, 0)
        case None => Failed(UnknownOption(arg), parsed, pos)
        case Some(j) =>
          var a := list[j];
          if a.argType == Bool then ParseFrom(list, toks, i + 1, parsed[a.key := BoolVal(true)], pos)
          else if a.argType == Unk then Failed(UnknownType(arg), parsed, pos)
          else if i + 1 >= |toks| then Failed(MissingValue(arg), parsed, pos)
          else if !IsValidType(toks[i + 1], a.argType) then Failed(InvalidValue(arg, toks[i + 1]), parsed, pos)
          else ParseFrom(list, toks, i + 2, parsed[a.key := StoreValue(a.argType, toks[i + 1])], pos)
  }

  /** The value under "help" as the final check reads it. */
  predicate HelpSet(v: ArgVal)
  {
    v == BoolVal(true)
  }

  datatype ParseResult = ParseResult(rc: int, parsed: map<string, ArgVal>, pos: seq<string>)

  /** parse_args on the tokens after the program name, from the maps left by
      earlier calls: the defaults, the token loop, then the help check, which
      inserts an empty "help" entry when there is none. */
  function Parse(list: seq<Argument>, toks: seq<string>,
                 parsed: map<string, ArgVal>, pos: seq<string>): ParseResult
  {
    match ParseFrom(list, toks, 0, InitDefaults(list, parsed), pos)
    case Failed(_, p, q) => ParseResult(-1, p, q)
    case Done(p, q) =>
      var p' := if "help" in p then p else p["help" := UnkVal];
      ParseResult(if HelpSet(p'["help"]) then -1 else 0, p', q)
  }

  // ---------------------------------------------------------------------
  // Properties of parse_args

  /** No argument other than a BOOL one has key k. */
  predicate OnlyBoolKey(list: seq<Argument>, k: string)
  {
    forall j :: 0 <= j < |list| && list[j].key == k ==> list[j].argType == Bool
  }

  /** No later argument than the one at j has its key. */
  predicate LastWithKey(list: seq<Argument>, j: nat)
    requires j < |list|
  {
    forall k :: j < k < |list| ==> list[k].key != list[j].key
  }

  /** After the defaults loop the last argument with a given key decides its
      entry: false for a BOOL whatever its default, the default for any other
      argument that has one. */
  lemma {:induction false} InitLastWriter(list: seq<Argument>, parsed: map<string, ArgVal>, j: nat)
    requires j < |list| && LastWithKey(list, j)
    ensures list[j].argType == Bool ==>
              list[j].key in InitDefaults(list, parsed) && InitDefaults(list, parsed)[list[j].key] == BoolVal(false)
    ensures list[j].argType != Bool && list[j].defaultval != UnkVal ==>
              list[j].key in InitDefaults(list, parsed) && InitDefaults(list, parsed)[list[j].key] == list[j].defaultval
  {
    var init := list[..|list| - 1];
    if j < |list| - 1 {
      assert init[j] == list[j];
      assert LastWithKey(init, j) by {
        forall k | j < k < |init| ensures init[k].key != init[j].key {
          assert init[k] == list[k];
        }
      }
      InitLastWriter(init, parsed, j);
      assert list[|list| - 1].key != list[j].key;
    }
  }

  /** A key that no argument has keeps what the map held before the loop. */
  lemma {:induction false} InitUntouched(list: seq<Argument>, parsed: map<string, ArgVal>, k: string)
    requires forall j :: 0 <= j < |list| ==> list[j].key != k
    ensures k in InitDefaults(list, parsed) <==> k in parsed
    ensures k in parsed ==> InitDefaults(list, parsed)[k] == parsed[k]
  {
    if list != [] {
      var init := list[..|list| - 1];
      assert forall j :: 0 <= j < |init| ==> init[j] == list[j];
      InitUntouched(init, parsed, k);
      assert list[|list| - 1].key != k;
    }
  }

  /** Positional tokens are appended in order and change nothing else. */
  lemma {:induction false} SkipPositionals(list: seq<Argument>, toks: seq<string>, i: nat, j: nat,
                                           parsed: map<string, ArgVal>, pos: seq<string>)
    requires i <= j <= |toks|
    requires forall k :: i <= k < j ==> IsPositional(toks[k])
    ensures ParseFrom(list, toks, i, parsed, pos) == ParseFrom(list, toks, j, parsed, pos + toks[i..j])
    decreases j - i
  {
    if i < j {
      SkipPositionals(list, toks, i + 1, j, parsed, pos + [toks[i]]);
      assert pos + [toks[i]] + toks[i + 1..j] == pos + toks[i..j];
    } else {
      assert pos + toks[i..j] == pos;
    }
  }

  /** With no option at all, parse_args keeps the defaults and lists every token
      as positional, in order. */
  lemma AllPositional(list: seq<Argument>, toks: seq<string>, parsed: map<string, ArgVal>, pos: seq<string>)
    requires forall k :: 0 <= k < |toks| ==> IsPositional(toks[k])
    ensures ParseFrom(list, toks, 0, parsed, pos) == Done(parsed, pos + toks)
  {
    SkipPositionals(list, toks, 0, |toks|, parsed, pos);
    assert toks[0..|toks|] == toks;
  }

  /** Once a key that only BOOL arguments use is true, it stays true. */
  lemma {:induction false} BoolSticky(list: seq<Argument>, toks: seq<string>, i: nat,
                                      parsed: map<string, ArgVal>, pos: seq<string>, k: string)
    requires OnlyBoolKey(list, k) && k in parsed && parsed[k] == BoolVal(true)
    ensures k in ParseFrom(list, toks, i, parsed, pos).parsed
    ensures ParseFrom(list, toks, i, parsed, pos).parsed[k] == BoolVal(true)
    decreases |toks| - i
  {
    if i < |toks| {
      var arg := toks[i];
      if IsPositional(arg) {
        BoolSticky(list, toks, i + 1, parsed, pos + [arg], k);
      } else {
        match FirstMatch(list, arg, 0)
        case None =>
        case Some(j) =>
          var a := list[j];
          if a.argType == Bool {
            BoolSticky(list, toks, i + 1, parsed[a.key := BoolVal(true)], pos, k);
          } else if a.argType != Unk && i + 1 < |toks| && IsValidType(toks[i + 1], a.argType) {
            assert a.key != k;
            BoolSticky(list, toks, i + 2, parsed[a.key := StoreValue(a.argType, toks[i + 1])], pos, k);
          }
      }
    }
  }

  /** A flag reached as an option sets its BOOL to true for good; the first
      registered argument that has the flag among its aliases is the one set. */
  lemma FlagSetsBool(list: seq<Argument>, toks: seq<string>, i: nat,
                     parsed: map<string, ArgVal>, pos: seq<string>, j: nat)
    requires i < |toks| && !IsPositional(toks[i])
    requires FirstMatch(list, toks[i], 0) == Some(j)
    requires list[j].argType == Bool && OnlyBoolKey(list, list[j].key)
    ensures list[j].key in ParseFrom(list, toks, i, parsed, pos).parsed
    ensures ParseFrom(list, toks, i, parsed, pos).parsed[list[j].key] == BoolVal(true)
  {
    var k := list[j].key;
    BoolSticky(list, toks, i + 1, parsed[k := BoolVal(true)], pos, k);
  }

  /** The token loop of parse_args reaches token i with the maps p and q:
      from there it ends as it does from the start, after the defaults. */
  ghost predicate Reaches(list: seq<Argument>, toks: seq<string>, parsed: map<string, ArgVal>, pos: seq<string>,
                          i: nat, p: map<string, ArgVal>, q: seq<string>)
  {
    ParseFrom(list, toks, 0, InitDefaults(list, parsed), pos) == ParseFrom(list, toks, i, p, q)
  }

  /** The option at a token the loop reaches decides the errors: an unknown
      option, a missing value and an invalid value each fail parse_args. */
  lemma OptionErrors(list: seq<Argument>, toks: seq<string>, parsed: map<string, ArgVal>, pos: seq<string>,
                     i: nat, p: map<string, ArgVal>, q: seq<string>)
    requires i < |toks| && !IsPositional(toks[i])
    requires Reaches(list, toks, parsed, pos, i, p, q)
    ensures FirstMatch(list, toks[i], 0).None? ==>
              Parse(list, toks, parsed, pos).rc == -1 &&
              ParseFrom(list, toks, 0, InitDefaults(list, parsed), pos).Failed? &&
              ParseFrom(list, toks, 0, InitDefaults(list, parsed), pos).err == UnknownOption(toks[i])
    ensures FirstMatch(list, toks[i], 0).Some? && list[FirstMatch(list, toks[i], 0).value].argType != Bool &&
            i + 1 == |toks| ==>
              Parse(list, toks, parsed, pos).rc == -1
    ensures FirstMatch(list, toks[i], 0).Some? && list[FirstMatch(list, toks[i], 0).value].argType != Bool &&
            i + 1 < |toks| && !IsValidType(toks[i + 1], list[FirstMatch(list, toks[i], 0).value].argType) ==>
              Parse(list, toks, parsed, pos).rc == -1
  {
  }

  /** Tokens that are all positional up to i bring the loop to token i with
      the defaults and those tokens listed. */
  lemma PositionalPrefixReaches(list: seq<Argument>, toks: seq<string>, parsed: map<string, ArgVal>, pos: seq<string>, i: nat)
    requires i <= |toks|
    requires forall k :: 0 <= k < i ==> IsPositional(toks[k])
    ensures Reaches(list, toks, parsed, pos, i, InitDefaults(list, parsed), pos + toks[..i])
  {
    SkipPositionals(list, toks, 0, i, InitDefaults(list, parsed), pos);
    assert toks[0..i] == toks[..i];
  }

  /** "-h" or "--help" at any token the loop reaches makes parse_args return
      -1, given the help argument the constructor registers first and no
      other argument keyed "help" that is not a BOOL. */
  lemma HelpFails(list: seq<Argument>, toks: seq<string>, parsed: map<string, ArgVal>, pos: seq<string>,
                  i: nat, p: map<string, ArgVal>, q: seq<string>)
    requires list != [] && list[0].aliases == ["-h", "--help"] && list[0].key == "help" && list[0].argType == Bool
    requires OnlyBoolKey(list, "help")
    requires i < |toks| && (toks[i] == "-h" || toks[i] == "--help")
    requires Reaches(list, toks, parsed, pos, i, p, q)
    ensures Parse(list, toks, parsed, pos).rc == -1
  {
    assert FirstMatch(list, toks[i], 0) == Some(0);
    FlagSetsBool(list, toks, i, p, q, 0);
  }

  /** The tokens from i on are ones parse_args accepts: every option is
      registered; one of a BOOL argument stands alone and one of an INT,
      FLOAT or STR argument is followed by a valid value; and no option
      belongs to an argument keyed "help". */
  predicate Accepts(list: seq<Argument>, toks: seq<string>, i: nat)
    decreases |toks| - i
  {
    if i >= |toks| then true
    else if IsPositional(toks[i]) then Accepts(list, toks, i + 1)
    else match FirstMatch(list, toks[i], 0)
      case None => false
      case Some(j) =>
        var a := list[j];
        if a.key == "help" then false
        else if a.argType == Bool then Accepts(list, toks, i + 1)
        else a.argType != Unk && i + 1 < |toks| && IsValidType(toks[i + 1], a.argType) && Accepts(list, toks, i + 2)
  }

  /** From a map whose help entry is not set, the token loop keeps a help
      entry, and ends without an error and with help still not set exactly
      when the tokens are accepted. */
  lemma {:induction false} ParseFromAccepts(list: seq<Argument>, toks: seq<string>, i: nat,
                                            p: map<string, ArgVal>, q: seq<string>)
    requires OnlyBoolKey(list, "help") && "help" in p && !HelpSet(p["help"])
    ensures "help" in ParseFrom(list, toks, i, p, q).parsed
    ensures var o := ParseFrom(list, toks, i, p, q);
              (o.Done? && !HelpSet(o.parsed["help"])) <==> Accepts(list, toks, i)
    decreases |toks| - i
  {
    if i < |toks| {
      var arg := toks[i];
      if IsPositional(arg) {
        ParseFromAccepts(list, toks, i + 1, p, q + [arg]);
      } else {
        match FirstMatch(list, arg, 0)
        case None =>
        case Some(j) =>
          var a := list[j];
          if a.key == "help" {
            BoolSticky(list, toks, i + 1, p[a.key := BoolVal(true)], q, "help");
          } else if a.argType == Bool {
            ParseFromAccepts(list, toks, i + 1, p[a.key := BoolVal(true)], q);
          } else if a.argType != Unk && i + 1 < |toks| && IsValidType(toks[i + 1], a.argType) {
            ParseFromAccepts(list, toks, i + 2, p[a.key := StoreValue(a.argType, toks[i + 1])], q);
          }
      }
    }
  }

  /** Some argument at or after j0 with the key of the one at j0 is the last
      with that key. */
  lemma {:induction false} LastKeyExists(list: seq<Argument>, j0: nat)
    requires j0 < |list|
    ensures exists j :: j0 <= j < |list| && list[j].key == list[j0].key && LastWithKey(list, j)
    decreases |list| - j0
  {
    if !LastWithKey(list, j0) {
      var k :| j0 < k < |list| && list[k].key == list[j0].key;
      LastKeyExists(list, k);
    }
  }

  /** The help entry after the defaults loop is a BOOL false, given the
      help argument the constructor registers first and no other argument
      keyed "help" that is not a BOOL. */
  lemma HelpDefaultFalse(list: seq<Argument>, parsed: map<string, ArgVal>)
    requires list != [] && list[0].key == "help" && list[0].argType == Bool
    requires OnlyBoolKey(list, "help")
    ensures "help" in InitDefaults(list, parsed) && InitDefaults(list, parsed)["help"] == BoolVal(false)
  {
    LastKeyExists(list, 0);
    var j :| 0 <= j < |list| && list[j].key == "help" && LastWithKey(list, j);
    InitLastWriter(list, parsed, j);
  }

  /** parse_args returns 0 when the tokens are accepted and -1 otherwise. */
  lemma ParseAccepts(list: seq<Argument>, toks: seq<string>, parsed: map<string, ArgVal>, pos: seq<string>)
    requires list != [] && list[0].key == "help" && list[0].argType == Bool
    requires OnlyBoolKey(list, "help")
    ensures Parse(list, toks, parsed, pos).rc == if Accepts(list, toks, 0) then 0 else -1
  {
    HelpDefaultFalse(list, parsed);
    ParseFromAccepts(list, toks, 0, InitDefaults(list, parsed), pos);
  }

  /** Tokens that are all positional make parse_args return 0, keep the
      defaults and list the tokens in order. */
  lemma PositionalsSucceed(list: seq<Argument>, toks: seq<string>, parsed: map<string, ArgVal>, pos: seq<string>)
    requires list != [] && list[0].key == "help" && list[0].argType == Bool
    requires OnlyBoolKey(list, "help")
    requires forall k :: 0 <= k < |toks| ==> IsPositional(toks[k])
    ensures Parse(list, toks, parsed, pos).rc == 0
    ensures Parse(list, toks, parsed, pos).parsed == InitDefaults(list, parsed)
    ensures Parse(list, toks, parsed, pos).pos == pos + toks
  {
    AllPositional(list, toks, InitDefaults(list, parsed), pos);
    HelpDefaultFalse(list, parsed);
  }

  // ---------------------------------------------------------------------
  // The parser object

  class ArgumentParser {
    var progName: string
    var description: string
    var epilog: string
    var argList: seq<Argument>
    var args: seq<string>
    var parsed: map<string, ArgVal>
    var posArgs: seq<string>

    /** The constructor registers the help flag "-h"/"--help" under key "help". */
    constructor (progName: string, description: string, epilog: string)
      ensures this.progName == progName && this.description == description && this.epilog == epilog
      ensures argList == [Argument(["-h", "--help"], "Show this help message and exit", Bool, false, "help", UnkVal)]
      ensures args == [] && parsed == map[] && posArgs == []
    {
      this.progName := progName;
      this.description := description;
      this.epilog := epilog;
      argList := [];
      args := [];
      parsed := map[];
      posArgs := [];
      new;
      KeyExampleHelp();
      AddArgument(["-h", "--help"], "Show this help message and exit", Bool, "", false, "");
    }

    /** add_argument: nothing without an alias or with a non-empty default of
        unknown type; otherwise one more argument at the end of the list. */
    method AddArgument(aliases: seq<string>, help: string, argType: ArgType, defaultval: string,
                       required: bool, key: string)
      modifies this
      ensures aliases == [] || (defaultval != "" && argType == Unk) ==> argList == old(argList)
      ensures aliases != [] && (defaultval == "" || argType != Unk) ==>
                argList == old(argList) + [Argument(aliases, help, argType, required,
                                                    KeyFor(aliases, key), DefaultOf(argType, defaultval))]
      ensures progName == old(progName) && description == old(description) && epilog == old(epilog)
      ensures args == old(args) && parsed == old(parsed) && posArgs == old(posArgs)
    {
      if |aliases| == 0 {
        return;
      }
      var k := if key == "" then Alias2Key(aliases[|aliases| - 1]) else key;
      var dv: ArgVal;
      if defaultval != "" {
        if argType == Bool {
          dv := BoolVal(defaultval == "true" || defaultval == "1");
        } else if argType == Int {
          dv := IntVal(Strtol0(defaultval));
        } else if argType == Float {
          dv := FloatVal(defaultval);
        } else if argType == Str {
          dv := StrVal(Memccpy(defaultval));
        } else {
          return;
        }
      } else {
        dv := UnkVal;
      }
      argList := argList + [Argument(aliases, help, argType, required, k, dv)];
    }

    /** The alias search of parse_args: the first argument with a matching alias. */
    method FindArgument(tok: string) returns (r: Option<nat>)
      ensures r == FirstMatch(argList, tok, 0)
    {
      var j := 0;
      while j < |argList|
        invariant 0 <= j <= |argList|
        invariant FirstMatch(argList, tok, 0) == FirstMatch(argList, tok, j)
      {
        var aliases := argList[j].aliases;
        var found := false;
        var m := 0;
        while m < |aliases|
          invariant 0 <= m <= |aliases|
          invariant found <==> tok in aliases[..m]
        {
          if aliases[m] == tok {
            found := true;
            break;
          }
          m := m + 1;
        }
        assert aliases[..|aliases|] == aliases;
        if found {
          return Some(j);
        }
        j := j + 1;
      }
      return None;
    }

    /** The defaults loop of parse_args. */
    method InitParsed()
      modifies this
      ensures parsed == InitDefaults(argList, old(parsed))
      ensures argList == old(argList) && args == old(args) && posArgs == old(posArgs)
      ensures progName == old(progName) && description == old(description) && epilog == old(epilog)
    {
      var j := 0;
      while j < |argList|
        invariant 0 <= j <= |argList|
        invariant parsed == InitDefaults(argList[..j], old(parsed))
        invariant argList == old(argList) && args == old(args) && posArgs == old(posArgs)
        invariant progName == old(progName) && description == old(description) && epilog == old(epilog)
      {
        var a := argList[j];
        if a.argType == Bool {
          parsed := parsed[a.key := BoolVal(false)];
        } else if a.defaultval != UnkVal {
          parsed := parsed[a.key := a.defaultval];
        }
        assert argList[..j + 1][..j] == argList[..j];
        j := j + 1;
      }
      assert argList[..j] == argList;
    }

    /** One pass of the token loop of parse_args at token i: a positional
        token, a flag, or an option and its value. ok is false where
        parse_args returns -1. */
    method ParseToken(i: nat) returns (next: nat, ok: bool)
      requires i < |args|
      modifies this
      ensures argList == old(argList) && args == old(args)
      ensures progName == old(progName) && description == old(description) && epilog == old(epilog)
      ensures ok ==> (i < next <= |args| &&
                ParseFrom(argList, args, i, old(parsed), old(posArgs)) == ParseFrom(argList, args, next, parsed, posArgs))
      ensures !ok ==> (var r := ParseFrom(argList, args, i, old(parsed), old(posArgs));
                r.Failed? && r.parsed == parsed && r.pos == posArgs)
    {
      var arg := args[i];
      next := i + 1;
      ok := true;
      if |arg| == 0 || arg[0] != '-' {
        posArgs := posArgs + [arg];
        return;
      }
      var found := FindArgument(arg);
      if found.None? {
        ok := false;
        return;
      }
      var a := argList[found.value];
      if a.argType == Bool {
        parsed := parsed[a.key := BoolVal(true)];
        return;
      } else if a.argType == Int {
        if next >= |args| || !IsValidType(args[next], Int) {
          ok := false;
          return;
        }
        parsed := parsed[a.key := IntVal(Strtol0(args[next]))];
      } else if a.argType == Float {
        if next >= |args| || !IsValidType(args[next], Float) {
          ok := false;
          return;
        }
        parsed := parsed[a.key := FloatVal(args[next])];
      } else if a.argType == Str {
        if next >= |args| || !IsValidType(args[next], Str) {
          ok := false;
          return;
        }
        parsed := parsed[a.key := StrVal(Memccpy(args[next]))];
      } else {
        ok := false;
        return;
      }
      next := next + 1;
    }

    /** parse_args: argv holds the program name first; the result is 0, or -1
        on an error or a help request. */
    method ParseArgs(argv: seq<string>) returns (rc: int)
      requires |argv| >= 1
      modifies this
      ensures args == argv[1..] && argList == old(argList)
      ensures progName == (if old(progName) == "" then argv[0] else old(progName))
      ensures description == old(description) && epilog == old(epilog)
      ensures ParseResult(rc, parsed, posArgs) == Parse(argList, argv[1..], old(parsed), old(posArgs))
    {
      args := [];
      var n := 0;
      while n < |argv|
        invariant 0 <= n <= |argv| && args == argv[..n]
        invariant argList == old(argList) && parsed == old(parsed) && posArgs == old(posArgs)
        invariant progName == old(progName) && description == old(description) && epilog == old(epilog)
      {
        args := args + [argv[n]];
        n := n + 1;
      }
      assert argv[..n] == argv;
      if |progName| == 0 {
        progName := args[0];
      }
      InitParsed();
      args := args[1..];
      ghost var start := ParseFrom(argList, args, 0, parsed, posArgs);
      var i := 0;
      while i < |args|
        invariant 0 <= i <= |args| && args == argv[1..] && argList == old(argList)
        invariant progName == (if old(progName) == "" then argv[0] else old(progName))
        invariant description == old(description) && epilog == old(epilog)
        invariant start == ParseFrom(argList, args, 0, InitDefaults(argList, old(parsed)), old(posArgs))
        invariant ParseFrom(argList, args, i, parsed, posArgs) == start
        decreases |args| - i
      {
        var ok;
        i, ok := ParseToken(i);
        if !ok {
          rc := -1;
          return;
        }
      }
      if "help" !in parsed {
        parsed := parsed["help" := UnkVal];
      }
      if HelpSet(parsed["help"]) {
        rc := -1;
        return;
      }
      rc := 0;
    }
  }
}
