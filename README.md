# Orion simulator host and firmware library, modelled in Dafny

Orion is a small RISC-V system on chip simulated with Verilator. This project
models the two sides of the protocol between the simulated firmware and the host.

**The simulator host:**
- `OrionSim` drives the generated design through a `Testbench`. It clears
  the virtual-device (VDEV) register window at the top of the 64 KiB RAM.
- After every cycle it echoes console stores and publishes the 64-bit cycle
  and retired-instruction counters as low/high word pairs.
- It latches a finish request, with a return code, from the SIMCTRL register.
- `run` stops on `$finish`, on the cycle limit or on a software request, in
  that priority, and maps the cause to an exit code.
- It loads and dumps memory images as one hexadecimal word per line.
- It writes a per-cycle log in a Spike-compatible or a column format.
- An argument parser (`ArgParse`) turns the command line into a key-to-value
  map and a list of positional arguments.

**The firmware library:**
- The VDEV register encoders (`vdev_putchar`, `vdev_exit`) and `exit`.
- The high/low/high retry read of the 64-bit counters (`cycles`, `instret`).
- The console (`console_putchar`, `console_puts`).
- The decimal printers and the Fibonacci routines of the example programs.
- The Dhrystone port's bump allocator, `strcpy` and `time`.

**How the model is built:**
- The generated RTL model is an oracle: a function from the design state,
  the clock/reset inputs and the memory to the next state. It also gives the
  write-back probe record and the `$finish` flag (module `Dut`).
- Host output is data: console bytes go to a `stdout` sequence, log text to
  a `log` string, and files are sequences of lines.
- Words are bounded integers (`u8`, `u32`, `u64`, `int8`, `int32`).
- The C operators `&`, `|`, `~`, `<<` and `>>` are defined on naturals, with a
  bit view `Bit(x, k)` in module `Bits`.
- The firmware's volatile register reads return values from an oracle
  sequence (`FwCounters.SplitCounter`).
- `OrionSim` keeps a ghost history with one record per cycle of `run`'s
  loop. A record holds the design state eval_vdev examined, the instret
  count it published, the counter after the tick and the state the tick left.
  `Progress` ties the records to one another, to the state after reset and
  to every output, and says that no record began where one of the loop's
  stop checks held. `Replay` is an independent definition of n loop cycles,
  and `ChainedIsReplay` proves that the recorded cycles equal it.

**Modules:**
- `Bits`, `Text`, `CString` and `Wrappers` are shared.
- `Vdev` is the register window, shared by both sides.
- The host side is `Dut`, `Testbench`, `HexImage`, `TraceLog`, `OrionSim` and `ArgParse`.
- The firmware side is `FwVdev`, `FwCounters`, `FwConsole`, `Fibonacci`,
  `Timer` and `DhrystoneUtil`.

## Model

| member | source | states |
|---|---|---|
| Bits.BitGet | sim/orionsim.cc:15 | BIT_GET(x, n) is non-zero exactly when bit n of x is set, and is then 2^n |
| Bits.BitSet | sim/orionsim.cc:16 | BIT_SET(x, n, v) gives bit n the value v and keeps every other bit of the word |
| Bits.GetMask | sim/orionsim.cc:19 | GET_MASK(n, m) has ones exactly in bit positions m..n |
| Bits.BitsGetIsField | sim/orionsim.cc:20 | BITS_GET(x, n, m) is the field x[n:m] moved down to bit 0: (x >> m) mod 2^(n-m+1) |
| Bits.BitClearOnlyBitN | sim/orionsim.cc:16 | BIT_SET(x, n, 0) clears bit n, keeps the other 31 bits, and equals x - 2^n when bit n was set and x otherwise |
| Bits.BitsSetThenGet | sim/orionsim.cc:21 | reading back a field written by BITS_SET gives v reduced to the field width; bits outside the field are unchanged |
| Bits.Inc64TimesIsMod | sim/orionsim.cc:268-270 | n uint64_t increments of x give (x + n) mod 2^64 |
| Vdev.WindowLayout | sim/orionsim.cc:69-77 | the VDEV window starts at 0x1FFE0, is the last 8 RAM words, and CONSOLE, CYCLE, CYCLE_HI, INSTRET, INSTRET_HI and SIMCTRL are words 16376, 16378, 16379, 16380, 16381 and 16383 |
| Vdev.Join64 | sw/lib/time.c:22 | ((uint64_t)hi << 32) \| lo equals hi * 2^32 + lo |
| Vdev.JoinSplit | sim/orionsim.cc:209-210 | joining the halves the host writes gives the 64-bit value back |
| Vdev.SplitJoin | sw/lib/time.c:22 | splitting a joined value gives back the high and the low word |
| Vdev.HalvesAreDivMod | sim/orionsim.cc:209-214 | (uint32_t)x is x mod 2^32 and (uint32_t)(x >> 32) is x div 2^32 |
| Vdev.DecodeSimctrl | sim/orionsim.cc:216-223 | the SIMCTRL decode: BIT_GET(w, 8) decides the request, BITS_GET(w, 7, 0) is its code and BIT_SET(w, 8, 0) the cleared word; what these are is stated by `Vdev.DecodeSimctrlMeaning` |
| Vdev.DecodeSimctrlMeaning | sim/orionsim.cc:216-223 | a request is latched exactly when bit 8 is set; the code is the unsigned low byte; the cleared word is w - 0x100 and differs from w only in bit 8 |
| Dut.Step | sim/testbench.h:92-95 | once the design has executed $finish, finished() stays true after every further eval() |
| Dut.StepsAppend | sim/testbench.h:116 | running two input sequences one after the other is running their concatenation |
| Dut.Dut.constructor | sim/testbench.h:77-82 | the design starts from the given state and memory image, with clock and reset low and $finish not raised |
| Dut.Dut.Eval | sim/testbench.h:116 | eval() settles the design from the current inputs and records those inputs; the inputs are unchanged |
| Testbench.StampValue | sim/testbench.h:120 | a trace timestamp 10c + offset is exact (no 64-bit wrap) while it stays below 2^64 |
| Testbench.TickStampsIncrease | sim/testbench.h:119-141 | the dumps of one tick at 10c-2, 10c and 10c+5 strictly increase, and the last is below the first of the next tick |
| Testbench.ResetStampsBound | sim/testbench.h:98-105 | no timestamp dumped during reset(n) exceeds 10n + 5 |
| Testbench.ResetStampsIncrease | sim/testbench.h:98-105 | the timestamps dumped during reset(n) strictly increase |
| Testbench.Testbench.constructor | sim/testbench.h:77-82 | the counter starts at 0 with no trace open |
| Testbench.Testbench.GetCycles | sim/testbench.h:58 | get_cycles returns the counter unchanged |
| Testbench.Testbench.Finished | sim/testbench.h:92-95 | finished() is the design's $finish flag |
| Testbench.Testbench.Phase | sim/testbench.h:115-121 | one clock assignment followed by one eval(), and one dump at 10c + offset when a trace is open |
| Testbench.Testbench.Tick | sim/testbench.h:107-152 | a tick adds one to the 64-bit counter, drives the clock 0, 1, 0 with an eval() after each assignment, ends with the clock low, keeps reset, and dumps at 10c-2, 10c and 10c+5 when a trace is open |
| Testbench.Testbench.ResetTick | sim/testbench.h:101-103 | one tick of reset's loop extends the reset history by one tick with reset high |
| Testbench.Testbench.Reset | sim/testbench.h:97-105 | reset(n) zeroes the counter, then runs n ticks with reset high (none for n < 0), leaves the counter at n and releases reset |
| Testbench.Testbench.OpenTrace | sim/testbench.h:154-165 | a trace is opened only when none is open; otherwise nothing changes |
| Testbench.Testbench.CloseTrace | sim/testbench.h:167-172 | closing marks the trace closed, but is_trace_open stays true because the tracer pointer is kept |
| HexImage.Stoul16 | sim/orionsim.cc:332 | std::stoul(line, nullptr, 16) reads the leading hex digits; no digit or a value of 2^64 or more is an error |
| HexImage.ParseWord | sim/orionsim.cc:332 | the word stored for a data line: std::stoul's value narrowed to uint32_t, that is modulo 2^32; `HexImage.DumpLineParses` shows a dumped line reads back as its word |
| HexImage.DataWords | sim/orionsim.cc:321-346 | the words a well-formed file yields, in file order, skipping empty and '@' lines; `HexImage.DumpLoadRoundTrip` and `OrionSim.LoadLines` state what they are |
| HexImage.DumpImage | sim/orionsim.cc:359-362 | dump_mem writes one line per RAM word |
| HexImage.DumpLineParses | sim/orionsim.cc:361 | each dumped line is a data line that std::stoul reads back as the dumped word |
| HexImage.DumpWellFormed | sim/orionsim.cc:352-364 | every line of a dump parses |
| HexImage.DumpLoadRoundTrip | sim/orionsim.cc:321-346 | the data words load_hex reads from a dump are the dumped memory, word for word |
| HexImage.LoadDumpRestores | sim/orionsim.cc:352-364 | loading a full dump over any memory yields the dumped memory |
| TraceLog.Lane | sim/orionsim.cc:117 | byte lane i is (data >> 8i) mod 256 |
| TraceLog.TopLanes | sim/orionsim.cc:115-120 | the lanes k..3 selected by the mask give two lowercase hex digits each |
| TraceLog.MaskedHex | sim/orionsim.cc:112-122 | the text get_masked_hexstr returns: the lanes selected by mask bits 3..0, lane 3 first; `TraceLog.MaskedHexLength` and `TraceLog.MaskedHexFull` state its length and the full-mask case |
| TraceLog.PrintHex2 | sim/orionsim.cc:118 | sprintf "%02x" writes the two digits of the byte at the offset, then a NUL, and leaves the later cells unchanged |
| TraceLog.PrintLane | sim/orionsim.cc:115-120 | one loop iteration appends lane i's digits exactly when mask bit i is set, and keeps the rest of the buffer NUL |
| TraceLog.BufferHoldsMaskedHex | sim/orionsim.cc:121 | the buffer read as a C string is the selected lanes' digits |
| TraceLog.GetMaskedHexStr | sim/orionsim.cc:112-122 | get_masked_hexstr returns the digits of the lanes selected by mask bits 3..0, lane 3 first |
| TraceLog.MaskedHexLength | sim/orionsim.cc:112-122 | the result has length 2 * popcount(mask & 0xF); mask 0 gives the empty string |
| TraceLog.Hex8Lanes | sim/orionsim.cc:112-122 | "%08x" of a word is its four lanes' digits, lane 3 first |
| TraceLog.MaskedHexFull | sim/orionsim.cc:391 | with all four lanes selected, the store data is printed as "%08x" and reads back as the word |
| TraceLog.RegName | sim/orionsim.cc:387 | "%-2d" of a register index masked to 5 bits is two characters wide |
| TraceLog.SpikeSuffix | sim/orionsim.cc:385-395 | the suffix sim_log appends to a Spike line, chosen in the order load, store, register write; its fields are stated by `TraceLog.SpikeSuffixKind` |
| TraceLog.SpikeSuffixKind | sim/orionsim.cc:385-395 | a load (rmask & 0xf) writes " x", rd, " 0x", the loaded word and " mem 0x" with the address, 30 characters; otherwise a store writes " mem 0x", the address, " 0x" and the masked data; otherwise a write to a non-zero rd writes " x", rd, " 0x" and the value, 15 characters; the suffix is empty exactly when none applies |
| TraceLog.SpikeLine | sim/orionsim.cc:384-395 | a Spike commit line: "core   0: 3 0x", the pc, " (0x", the instruction, ")" and the suffix; `TraceLog.SpikeLineFields` reads the pc and the instruction back |
| TraceLog.DefaultLine | sim/orionsim.cc:398-402 | a default-format line: cycle count, validity, pc, instruction and the rd, rs1 and rs2 columns; `TraceLog.DefaultLineColumns` states its width and the pc column |
| TraceLog.LogEntry | sim/orionsim.cc:372-406 | the text sim_log writes for one cycle: nothing for a bubble in Spike format, otherwise the line of the selected format and a newline |
| TraceLog.SpikeLinePc | sim/orionsim.cc:384 | a Spike line starts "core   0: 3 0x" followed by the pc's eight digits |
| TraceLog.SpikeLineInstr | sim/orionsim.cc:384 | columns 26..33 of a Spike line hold the instruction's eight digits |
| TraceLog.SpikeLineFields | sim/orionsim.cc:384 | the pc and the instruction word can be read back from a Spike line |
| TraceLog.DefaultLineColumns | sim/orionsim.cc:398-402 | for cycle counts below 10^8 a default line is 131 characters, and columns 25..32 read back as the pc |
| OrionSim.ClearVdev | sim/orionsim.cc:163-167 | the constructor's loop zeroes exactly the eight VDEV words |
| OrionSim.ExitCode | sim/orionsim.cc:280-299 | run() returns 1 for $finish and for the cycle limit, the latched code for a software request and -1 otherwise, so a byte for every known cause when the code is a byte |
| OrionSim.StopCycle | sim/orionsim.cc:232-248 | the counter value at which the cycle limit stops the loop is the larger of the limit and 2, the counter after reset |
| OrionSim.Echo | sim/orionsim.cc:185-190 | a valid probe whose store strobes byte 0 of the CONSOLE address prints one byte, wdata & 0xFF; any other probe prints nothing |
| OrionSim.LatchStepMeaning | sim/orionsim.cc:216-223 | a SIMCTRL word with bit 8 set sets term_req with the word's low byte as sw_ret_code; any other word leaves both as they were |
| OrionSim.BridgeMeaning | sim/orionsim.cc:207-223 | Bridge is the memory eval_vdev leaves: the counter words hold the low (mod 2^32) and high (div 2^32) halves of the cycle and instret counts, which join back to the counts; SIMCTRL loses bit 8 if it was set; every other word is kept |
| OrionSim.Served | sim/orionsim.cc:218-223 | the SIMCTRL word after eval_vdev is w - 0x100 when bit 8 was set and w otherwise |
| OrionSim.BridgeMem | sim/orionsim.cc:207-223 | eval_vdev's memory writes leave exactly Bridge's memory and return the decode of the SIMCTRL word read before them |
| OrionSim.EchoOf | sim/orionsim.cc:185-190 | over a history of cycles stdout grows by at most one byte per cycle |
| OrionSim.CountRetired | sim/orionsim.cc:268-270 | instret is bumped at most once per cycle |
| OrionSim.LogOf | sim/orionsim.cc:263-266 | a history of no cycles writes no log text |
| OrionSim.Latched | sim/orionsim.cc:216-223 | once term_req is set, no later cycle clears it |
| OrionSim.LatchedSet | sim/orionsim.cc:216-223 | after a history term_req is set exactly when it was set before or some cycle found bit 8 of SIMCTRL set |
| OrionSim.LatchedCode | sim/orionsim.cc:220 | sw_ret_code after a history is the low byte of the last SIMCTRL word that carried the request bit |
| OrionSim.LatchedNone | sim/orionsim.cc:216-223 | a history in which no cycle found the request bit leaves term_req and sw_ret_code unchanged |
| OrionSim.AccountedSnoc | sim/orionsim.cc:256-270 | a cycle whose echo, instret bump, latch step and log line are added to outputs that account for a history keeps them accounted for the longer history |
| OrionSim.ChainedSnoc | sim/orionsim.cc:256-270 | one more tick, taken from the state the last cycle left and bridged with the counter and the instret count at that point, extends the chain of cycles numbered from 3 |
| OrionSim.TicksFrom3Snoc | sim/orionsim.cc:256-260 | a record numbered one past the chain whose after-state is the bridge and tick of its before-state keeps the cycles numbered from 3, each a bridge and tick |
| OrionSim.PublishesInstretSnoc | sim/orionsim.cc:210-214 | a record that publishes the instret count of the cycles before it keeps every cycle publishing the retired count of its predecessors |
| OrionSim.LinkedSnoc | sim/orionsim.cc:256-260 | a record that starts where the chain ended keeps each cycle starting where the previous one ended, and the chain now ends where the record ends |
| OrionSim.RecordedSnoc | sim/orionsim.cc:237-271 | one more chained cycle, entered with $finish not raised and term_req clear, with the echo, instret bump, latch step and log line of its eval_vdev, tick and sim_log, keeps the history and the outputs recorded |
| OrionSim.NoneStoppedSnoc | sim/orionsim.cc:237-254 | a cycle entered with $finish not raised and term_req clear keeps every recorded cycle one that no stop check would have prevented |
| OrionSim.NoneStoppedAt | sim/orionsim.cc:237-254 | every recorded cycle began with $finish not raised and with term_req, latched over the cycles before it, clear: the loop breaks at the first check that holds and never ticks past it |
| OrionSim.ChainedUnfinished | sim/orionsim.cc:237-242 | no replayed design state before the chain's end has raised $finish |
| OrionSim.RecordedIsReplay | sim/orionsim.cc:237-271 | the recorded cycles end in the replayed design state and instret count, and no replayed state before them has raised $finish |
| OrionSim.ReplayStep | sim/orionsim.cc:256-270 | a cycle that starts from the replayed state and count ends in the replay of one more cycle |
| OrionSim.CountStep | sim/orionsim.cc:268-270 | one more cycle bumps the instret count exactly when its tick left a valid instruction |
| OrionSim.ChainedPrefixIsReplay | sim/orionsim.cc:237-271 | the first j chained cycles are the replay of j loop cycles: cycle j starts from the replayed state with the replayed instret count |
| OrionSim.ChainedIsReplay | sim/orionsim.cc:237-271 | a chain of loop cycles ends in the design state and instret count that replaying that many cycles from its first state gives |
| OrionSim.PublishCounters | sim/orionsim.cc:207-214 | the counter words hold the halves of the cycle and instret counts, and joining them gives the counts back; no other word changes |
| OrionSim.ServeSimctrl | sim/orionsim.cc:216-223 | with bit 8 set: a request with the low byte as code, and only bit 8 cleared; otherwise no request and SIMCTRL unchanged; no other word is written |
| OrionSim.LoadLines | sim/orionsim.cc:317-346 | a file whose data lines all parse and fit is stored word by word from address 0, with 4 bytes counted per word; '@' and empty lines are skipped; a first bad line aborts; one word too many exits with all of RAM written |
| OrionSim.OrionSim.constructor | sim/orionsim.cc:133-168 | the counters, request state and log start empty, max_cycles is 10 000 000, and the VDEV words are zero while the rest of RAM is the image |
| OrionSim.OrionSim.EvalVdev | sim/orionsim.cc:181-224 | stdout gains the probe's Echo; memory becomes Bridge of the old memory with get_cycles() and instret; (term_req, sw_ret_code) take one LatchStep on the old SIMCTRL word; nothing else changes |
| OrionSim.OrionSim.TickAndLog | sim/orionsim.cc:259-270 | one tick of the design from its current state; the cycle's log line when the log is open; instret bumped exactly when the new probe is valid; the cycle appended to the history with the state eval_vdev examined, the instret it published, the counter and the state the tick left; stdout and the latch are unchanged |
| OrionSim.OrionSim.Cycle | sim/orionsim.cc:256-270 | one loop body: the design's new state is one tick from Bridge's memory with the old counter and instret (BridgeAndTick); the counter grows by one; stdout gains Echo of the old probe; the latch takes LatchStep on the old SIMCTRL word; the log gains the new cycle's line when open; instret is bumped exactly when the new probe is valid; the cycle is appended to the history with the states before and after it |
| OrionSim.OrionSim.RunCycle | sim/orionsim.cc:237-271 | one iteration of the loop, entered only when $finish is not raised, the counter is below the limit and term_req is clear, keeps Progress: the cycles recorded since the loop started stay the chain of ticks from the post-reset state to the current design state, none began where a check held, and they account for every output |
| OrionSim.OrionSim.Check | sim/orionsim.cc:238-254 | the checks before a cycle in run()'s order: finish exactly when $finish was raised, max-cycles exactly when not and the counter reached the limit, a request exactly when neither and term_req is set |
| OrionSim.OrionSim.Loop | sim/orionsim.cc:237-271 | the loop ends with a known cause, found by the checks in their order; the counter ends between 2 and StopCycle, and at StopCycle for max-cycles; Progress from the post-reset state holds at the end, so no recorded cycle began after $finish or with term_req set, and the loop stopped at the first check that held |
| OrionSim.OrionSim.Stop | sim/orionsim.cc:238-254 | records term_pc from the probe and term_cause; only those two fields may change, so Progress is as it was |
| OrionSim.OrionSim.ResetForRun | sim/orionsim.cc:229-230 | reset(RESET_CYCLES) leaves the counter at 2 and the design in the state RESET_CYCLES ticks with rst_i high reach from the current one; no loop cycle is recorded yet, so Progress holds from there |
| OrionSim.OrionSim.Simulate | sim/orionsim.cc:235-299 | run() after the reset: the cause, pc and counter as for Run, Progress kept, the final state and instret the Replay of the recorded cycles with no earlier replayed state finished, and the result ExitCode of the cause |
| OrionSim.OrionSim.Run | sim/orionsim.cc:227-300 | the cause is finish iff $finish was raised, max-cycles iff not and the counter reached the limit, and a software request otherwise; the pc is recorded; the counter ends between 2 and the limit; a limit of 2 or less gives no tick; the cycles recorded in the history are the ticks after reset, numbered from 3 and chained from the state RESET_CYCLES ticks with rst_i high reach, none began after $finish or with term_req set, and stdout, instret, the latch and the log are exactly what those cycles produce (Progress); the final design state and instret are the Replay of that many loop cycles from the post-reset state, and no earlier replayed state had raised $finish, so the run stops at the first cycle a check holds; the result is ExitCode of the cause, in 0..255 |
| OrionSim.OrionSim.LoadHex | sim/orionsim.cc:308-350 | a file that cannot be opened loads nothing; otherwise as LoadLines |
| OrionSim.OrionSim.DumpMem | sim/orionsim.cc:352-364 | the dump is every RAM word as eight lowercase hex digits, one per line |
| OrionSim.OrionSim.SetMaxCycles | sim/orionsim.cc:366-370 | sets the cycle limit; only max_cycles may change |
| OrionSim.OrionSim.SimLog | sim/orionsim.cc:372-406 | appends this cycle's line in the selected format; a bubble writes nothing in Spike format |
| OrionSim.OrionSim.OpenLog | sim/orionsim.cc:408-416 | the log is open exactly when fopen succeeded; a new log starts empty and a failed open keeps the text; only the log and its open state may change |
| OrionSim.OrionSim.SetLogFormat | sim/orionsim.cc:418-429 | "spike" and "default" select their format; any other name leaves the format unchanged; only the format may change |
| OrionSim.OrionSim.OpenTrace | sim/orionsim.cc:302-306 | forwards to the testbench: a trace is opened only when none is open; the counter and the dumps are unchanged, and only the trace state may change |
| ArgParse.Alias2KeyIsKeyOf | sim/argparse.h:295-330 | alias2key drops the leading dashes; if a letter follows, it keeps the run of [A-Za-z0-9_-] with '-' written as '_'; otherwise the key is empty; an invalid character ends the key |
| ArgParse.KeyShape | sim/argparse.h:295-330 | a key holds only letters, digits and '_', starts with a letter when not empty, and is no longer than the alias |
| ArgParse.KeyExampleOptFlat | sim/argparse.h:293-294 | "--opt-flat" becomes "opt_flat" |
| ArgParse.KeyExampleHelp | sim/argparse.h:67 | the help flag's last alias "--help" gives the key "help" |
| ArgParse.Alias2Key | sim/argparse.h:295-330 | alias2key's character loop; its result is stated by `ArgParse.Alias2KeyIsKeyOf` and `ArgParse.KeyShape` |
| ArgParse.DigitsFromAll | sim/argparse.h:337-342 | the INT scan succeeds iff every character is a decimal digit |
| ArgParse.FloatFromAll | sim/argparse.h:345-358 | the FLOAT scan succeeds iff every character is a digit, a '.' not at the end, or a '-' at index 0 |
| ArgParse.ValidTypeMeaning | sim/argparse.h:332-367 | INT values are exactly the digit strings (the empty string too); FLOAT values as above; every INT value is a FLOAT value; STR always holds and UNK never does |
| ArgParse.ValidTypeExamples | sim/argparse.h:336-359 | "" and "007" are INT and "-1" is not; "1.2.3" and "-" are FLOAT; "1." and "1-" are not |
| ArgParse.IsValidType | sim/argparse.h:332-367 | is_valid_type by type: BOOL accepts "true", "1", "false" and "0", INT and FLOAT run their scans, STR accepts all, UNK nothing; `ArgParse.ValidTypeMeaning` states the scans' meaning |
| ArgParse.Strtol0 | sim/argparse.h:192 | strtol(s, nullptr, 0) always lies between LONG_MIN and LONG_MAX |
| ArgParse.StrtolOfDigits | sim/argparse.h:187-192 | a value that passed the INT check reads as 0 when empty, in decimal without a leading zero, and in octal up to the first 8 or 9 with one, saturating at LONG_MAX |
| ArgParse.Memccpy | sim/argparse.h:218 | memccpy into the 256-byte buffer writes between 1 and 256 bytes |
| ArgParse.StrValueReadsBack | sim/argparse.h:218 | a NUL-free string value shorter than 256 characters reads back from the buffer unchanged |
| ArgParse.LongStrValueUnterminated | sim/argparse.h:25 | a string value of 256 characters or more fills the buffer with its first 256 characters and no NUL |
| ArgParse.FirstMatch | sim/argparse.h:158-170 | the alias search finds the first registered argument with the token among its aliases, or none has it |
| ArgParse.InitDefaults | sim/argparse.h:131-141 | the defaults loop over the argument list, in registration order; `ArgParse.InitLastWriter` and `ArgParse.InitUntouched` state its result |
| ArgParse.InitLastWriter | sim/argparse.h:131-141 | after the defaults loop a BOOL key is false whatever its default, and another key with a default holds the default of the last argument with that key |
| ArgParse.InitUntouched | sim/argparse.h:131-141 | a key no argument has keeps its earlier entry, or stays absent |
| ArgParse.ParseFrom | sim/argparse.h:146-225 | the token loop from token i: positionals are collected, options are matched, valued and stored, and an unknown option, a missing value or an invalid value stops it with an error; stated by the lemmas below |
| ArgParse.Parse | sim/argparse.h:119-234 | parse_args after the defaults: the token loop, then the help check; `ArgParse.ParseAccepts` states its return code for every token list |
| ArgParse.SkipPositionals | sim/argparse.h:151-155 | tokens not starting with '-' are appended to the positional list in order and change nothing else |
| ArgParse.AllPositional | sim/argparse.h:146-155 | with no option, parse_args keeps the map and lists every token as positional, in order |
| ArgParse.BoolSticky | sim/argparse.h:177-181 | a key used only by BOOL arguments, once true, stays true for the rest of the tokens |
| ArgParse.FlagSetsBool | sim/argparse.h:177-181 | a matched flag sets its BOOL to true for good, and the first registered argument with that alias is the one set |
| ArgParse.OptionErrors | sim/argparse.h:172-224 | at any token the loop reaches, an unknown option (with that error), a missing value and an invalid value each make parse_args return -1 |
| ArgParse.HelpFails | sim/argparse.h:227-231 | "-h" or "--help" at any token the loop reaches makes parse_args return -1 |
| ArgParse.PositionalPrefixReaches | sim/argparse.h:146-155 | tokens that are all positional up to i bring the loop to token i with the defaults and those tokens listed |
| ArgParse.HelpDefaultFalse | sim/argparse.h:131-141 | with the help flag registered, the defaults loop leaves "help" a BOOL false |
| ArgParse.ParseFromAccepts | sim/argparse.h:146-225 | from a map with help not set, the token loop ends without error and with help still not set exactly when the tokens are accepted: every option registered, a BOOL one alone, any other followed by a valid value, none keyed "help" |
| ArgParse.ParseAccepts | sim/argparse.h:119-234 | parse_args returns 0 exactly when the tokens are accepted, and -1 otherwise: an unknown option, an option of unknown type, a missing or invalid value, or -h/--help anywhere |
| ArgParse.PositionalsSucceed | sim/argparse.h:119-234 | with the help flag registered first, tokens that are all positional make parse_args return 0, keep the defaults and list the tokens in order |
| ArgParse.ArgumentParser.constructor | sim/argparse.h:61-68 | the new parser has the names given and only the help flag ["-h", "--help"], a BOOL keyed "help" |
| ArgParse.ArgumentParser.AddArgument | sim/argparse.h:72-117 | no alias, or a non-empty default of unknown type, leaves the list unchanged; otherwise one entry is appended, keyed by alias2key of the last alias when no key is given, with the default converted by type |
| ArgParse.ArgumentParser.FindArgument | sim/argparse.h:158-170 | the nested alias loops return the first matching argument |
| ArgParse.ArgumentParser.InitParsed | sim/argparse.h:131-141 | the defaults loop computes InitDefaults over the argument list |
| ArgParse.ArgumentParser.ParseToken | sim/argparse.h:147-225 | one token (and its value) advances the token loop exactly as the functional parse does, or stops it with the state the failure leaves |
| ArgParse.ArgumentParser.ParseArgs | sim/argparse.h:119-234 | takes the program name when none was set, keeps the other tokens, and returns the code, map and positional list of the functional parse |
| FwVdev.RegistersMatchSimulator | sw/lib/vdev.c:6-12 | with the base at the host's window, each firmware register is the RAM word the host serves for it |
| FwVdev.SetLowAndFlagBit | sw/lib/vdev.c:17-18 | bit k of (val & 0xFFFFFF00) \| low \| (1 << n) is the flag, low's bit, or a bit 8..31 of val |
| FwVdev.PutcharWord | sw/lib/vdev.c:14-20 | the word vdev_putchar stores: (val & 0xFFFFFF00) \| c \| (1 << 16); its fields are stated by `FwVdev.PutcharFields` |
| FwVdev.PutcharFields | sw/lib/vdev.c:14-20 | the console word holds c in its low byte, sets bit 16, keeps bits 8-15 and 17-31, and has nothing above bit 31 |
| FwVdev.PutcharEcho | sw/lib/vdev.c:14-20 | the host's echo wdata & 0xFF of that word is c, whatever the register held |
| FwVdev.ExitWord | sw/lib/vdev.c:38-44 | the word vdev_exit stores: (val & 0xFFFFFF00) \| (uint32_t)retcode \| (1 << 8), with the int8_t sign-extended; its fields are stated by `FwVdev.ExitFields` |
| FwVdev.ExitFields | sw/lib/vdev.c:38-44 | the SIMCTRL word holds r mod 256 and sets bit 8; r >= 0 keeps bits 9-31; r < 0 sets all of bits 8-31 by sign extension |
| FwVdev.ExitLatched | sw/lib/vdev.c:38-44 | the host's decode of the word vdev_exit(r) writes is a request with code r mod 256 |
| FwVdev.ExitReturnCode | sw/lib/vdev.c:38-44 | when the last request word the cycles of a run found is the one vdev_exit(r) wrote, the latch after that history is set with code r mod 256, and run() stopped by the request returns r mod 256 |
| FwVdev.ToInt8 | sw/lib/stdlib.c:5 | the conversion of exit's int to int8_t keeps the value mod 256 |
| FwVdev.ExitStatusWord | sw/lib/stdlib.c:4-7 | the word exit(status) stores: vdev_exit of status converted to int8_t; `FwVdev.ExitStatusLatched` states what the host makes of it |
| FwVdev.ExitStatusLatched | sw/lib/stdlib.c:4-7 | after exit(status) the host latches a request with code status mod 256 and clears only bit 8 |
| FwCounters.SplitCounter.constructor | sw/lib/time.c:5-6 | the register halves answer from the given value sequences, with no access yet |
| FwCounters.SplitCounter.ReadHi | sw/lib/time.c:11-13 | one volatile read of the high register returns its next value and is logged |
| FwCounters.SplitCounter.ReadLo | sw/lib/time.c:8-10 | one volatile read of the low register returns its next value and is logged |
| FwCounters.FirstAgreement | sw/lib/time.c:17-21 | the iteration where the loop stops is the first one whose two high reads agree |
| FwCounters.ReadTriple | sw/lib/time.c:18-20 | each iteration reads high, low, high, in that order |
| FwCounters.ReadCounter | sw/lib/time.c:15-23 | cycles() returns after the first iteration whose high reads agree, with that high word over the low word of the same iteration; the access log is high, low, high per iteration; instret() in sw/lib/stdlib.c:12-20 is the same loop over the INSTRET halves |
| FwCounters.StableHighReadsOnce | sw/lib/time.c:17-21 | if the high register does not change, the loop runs once |
| FwCounters.AgreeingHighIsSnapshot | sw/lib/time.c:15-23 | for a counter that never goes back, agreeing high reads around a low read mean the joined value is the counter at the low read |
| FwCounters.TornPairRejected | sw/lib/time.c:17-21 | a single high/low pair can be torn across a carry (it joins to 0), and the second high read then differs |
| FwCounters.ReadCounterIsSnapshot | sw/lib/time.c:15-23 | end to end, the result is the counter's exact value at the accepted low read, between its first and last observed values |
| FwConsole.Console.constructor | sw/lib/console.c:3 | the console has received nothing |
| FwConsole.Console.Putchar | sw/lib/console.c:6-9 | one store of c to the console |
| FwConsole.Console.Puts | sw/lib/console.c:11-15 | emits the characters of the C string in order, up to but not including its first NUL: strlen(s) characters |
| Fibonacci.FibRecursive | sw/ex/fibonacci/fibonacci.c:22-25 | fib_recursive: n itself below 2, otherwise the sum of the two before; non-negative for n >= 0 and at least 1 for n >= 1 |
| Fibonacci.FibValues | sw/ex/fibonacci/fibonacci.c:22-25 | fib(45) = 1134903170 and fib(46) = 1836311903 |
| Fibonacci.FibMonotone | sw/ex/fibonacci/fibonacci.c:22-25 | the sequence is non-negative and never decreases from index 0 on |
| Fibonacci.FibFitsInt32 | sw/ex/fibonacci/fibonacci.c:28-37 | up to n = 46 every value fits in an int |
| Fibonacci.FibOverflows | sw/ex/fibonacci/fibonacci.c:22-25 | fib(47) does not fit in an int |
| Fibonacci.FibIterative | sw/ex/fibonacci/fibonacci.c:28-37 | fib_iterative(n) == fib_recursive(n) for every int n <= 46, with a == fib(i-2) and b == fib(i-1) at each iteration |
| Fibonacci.FibStart | sw/ex/fibonacci/fibonacci.c:41-45 | the values main compares start 0, 1, 1, 2, 3, 5 and fib(19) = 4181 |
| Fibonacci.IntDigitsBound | sw/ex/fibonacci/fibonacci.c:9 | an int has at most 10 digits, so the 12-character buffer is never overrun |
| Fibonacci.ExtractDigits | sw/ex/fibonacci/fibonacci.c:9-14 | the first loop leaves the decimal digits in the buffer, least significant first |
| Fibonacci.PrintNum | sw/ex/fibonacci/fibonacci.c:4-19 | print_num(n) prints the decimal representation of n for n >= 0 ("0" for zero) and nothing for n < 0 |
| Fibonacci.PrintNumReadsBack | sw/ex/fibonacci/fibonacci.c:4-19 | the printed digits read back as n, with no leading zero for n > 0 |
| Timer.Dec64Length | sw/ex/timer/timer.c:23 | a uint64_t has at most 20 digits, so buf[21] is never overrun |
| Timer.ExtractDigits | sw/ex/timer/timer.c:31-35 | the first loop leaves pos digits in the buffer, least significant first, with pos <= 20 |
| Timer.PrintDec64 | sw/ex/timer/timer.c:22-42 | print_dec64(x) prints the decimal representation of x, most significant digit first, "0" for zero |
| Timer.PrintDec64ReadsBack | sw/ex/timer/timer.c:22-42 | the printed digits read back as x, and start with '0' only for x = 0 |
| DhrystoneUtil.Heap.constructor | sw/ex/dhrystone/util.c:8 | heap_memory_used starts at 0 |
| DhrystoneUtil.Heap.Malloc | sw/ex/dhrystone/util.c:10-19 | the offset grows by exactly size; above 1024 bytes used, the message is printed and the outcome is exit(1); otherwise the block is at the offset before the call |
| DhrystoneUtil.BlocksDisjointInHeap | sw/ex/dhrystone/util.c:10-19 | successful blocks of non-negative sizes do not overlap and lie within the first 1024 bytes of the 2048-byte heap |
| DhrystoneUtil.OffsetsAreRunningSums | sw/ex/dhrystone/util.c:11-13 | the next offset is the previous offset plus the new size |
| DhrystoneUtil.Strcpy | sw/ex/dhrystone/util.c:22-26 | strcpy copies src up to and including its NUL, touches no other byte, and returns dest; dest then holds src's string |
| DhrystoneUtil.CopiedString | sw/ex/dhrystone/util.c:24 | a buffer starting with src up to its NUL holds src's string |
| DhrystoneUtil.Time | sw/ex/dhrystone/util.c:28-34 | time() is 0 with NO_GET_CYCLES; otherwise the quotient cycles() / CLK_FREQ narrowed to a 32-bit long, equal to it modulo 2^32 |
| DhrystoneUtil.TimeIsWholeSeconds | sw/ex/dhrystone/util.c:32 | while the quotient fits in a 32-bit long, time() is the whole number of seconds: 0 <= r and r * CLK_FREQ <= cycles < (r + 1) * CLK_FREQ |
| DhrystoneUtil.TimeWrapsNegative | sw/ex/dhrystone/util.c:32 | a quotient from 2^31 up to 2^32 comes back negative, as the quotient minus 2^32 |

## Behaviour of the code worth noting

The model keeps each of these behaviours of the code:
- **`@` lines in a hex file are skipped silently.** `load_hex` constructs a `std::runtime_error` for them but never throws it, and then continues with the next line (sim/orionsim.cc:325-329). See `OrionSim.LoadLines`.
- **The software return code is unsigned.** The host takes `BITS_GET(simctrl, 7, 0)`, a byte 0..255, into `sw_ret_code`, and `run` returns it (sim/orionsim.cc:220, sim/orionsim.cc:292). So `exit(-1)` makes the simulator return 255. See `FwVdev.ExitStatusLatched` and `OrionSim.OrionSim.Run`.
- **The counter is n after `reset(n)`.** `reset` zeroes the counter before its n ticks, and each tick adds one (sim/testbench.h:99-104). After `run`'s reset the counter is 2. See `Testbench.Testbench.Reset`.
- **A cycle limit of 2 or less stops at cycle 2.** The limit check runs only after reset, when the counter is already 2 (sim/orionsim.cc:232, sim/orionsim.cc:244-248). See `OrionSim.StopCycle`.
- **An image larger than RAM is partly loaded.** `load_hex` checks the address only when it reaches the next data word. It stores the first 16384 words and then calls `exit(1)` (sim/orionsim.cc:335-339). See `OrionSim.LoadLines`.

## Left out

- The generated RTL model, its signal pointers and `Verilated::gotFinish` are an oracle function and a probe record. Nothing of the design's own behaviour is modelled.
- The VCD/FST tracer's `open`, `dump`, `flush` and `close` are not modelled. Only the timestamps passed to `dump` and the open/closed state are kept.
- Host I/O is not modelled. `putchar`/`fflush` become the `stdout` byte sequence and `fprintf` to the log becomes the `log` string. File contents are sequences of lines. The open-failure paths of `fopen`, `ifstream` and `ofstream` are the `success` flag of `OpenLog` and the `Option` argument of `LoadHex`.
- The error messages on `stderr`, the banner, the verbosity macros and the IPC print are not modelled, because they are output formatting only.
- `main` of the simulator and the `main` functions of the example programs are not modelled, because they only wire calls together.
- `print_help`, `print_args`, `get_opt_args` and `get_pos_args` are not modelled, because they are console formatting and plain getters.
- The timer example's `delay()` is not modelled, because it only burns cycles.
- The commented-out CONSOLE polling path of `eval_vdev` is not modelled, because it is dead code.
- FLOAT values keep their text. `strtof` and floating point are not modelled.
- `ArgParse.Strtol0` models `strtol` with base 0 but does not model `errno`.
- `HexImage.Stoul16` models `std::stoul` only for lines that begin with a hex digit. `std::stoul` also accepts leading white space, a sign and a "0x" prefix. In the model, white space and a sign count as no digit, and "0x" reads as the single digit 0.
- `ArgParse.HelpSet`: the final help check reads `value.as_bool` of the "help" entry. The model reads any entry other than a true BOOL as false. A non-BOOL argument keyed "help" would have its union bytes reinterpreted.
- The inserted default "help" entry is modelled as an untyped value. In the source it is a zero-initialised union.
- `ArgParse.ArgumentParser.ParseArgs` requires at least the program name in `argv`, as `args_[0]` does.
- `OrionSim.OrionSim.Run` requires the invariant `Valid`. One consequence: the software return code is always a byte.
- `OrionSim.OrionSim.Cycle` and `OrionSim.OrionSim.Run` do not model `fflush` or the order of console output relative to log output.
- `OrionSim.OrionSim.DumpMem` returns the lines. An unopenable dump file, which writes nothing, is not modelled.
- `Fibonacci.FibIterative` requires n <= 46, because signed int overflow beyond that is undefined behaviour in C. `Fibonacci.FibRecursive` is on unbounded integers.
- `DhrystoneUtil.Heap.Malloc` requires that the int addition does not overflow, which is also undefined behaviour in C. The `printf` implementation is not modelled: its message is console output. `exit(1)` is the `Exit` outcome.
- `DhrystoneUtil.Strcpy` requires room in `dest` for the string and its NUL. The C code checks nothing, and an overrun is undefined behaviour.
- `DhrystoneUtil.Time` takes `CLK_FREQ` and the `cycles()` value as parameters, because platform.h is not part of this model.
- `DhrystoneUtil.Time` takes `long` as 32 bits, as on RV32, and `clock_t` as 64 bits, as the 64-bit value `cycles()` builds. The firmware's time.h, which defines `clock_t`, is not part of this model.
- `FwVdev.PutcharWord` takes the character as a byte, because a plain `char` is unsigned on RISC-V.
- `FwVdev.RegistersMatchSimulator` assumes the linker places `__vdev_base_addr` at the host's VDEV window. The linker script is not part of this model.
- The `cycles()` registers `_timer_addr_lo` and `_timer_addr_hi` are linker symbols. Their values are the `FwCounters.SplitCounter` oracle sequences.
- The getters `vdev_cycles`, `vdev_cyclesh`, `vdev_instret` and `vdev_instreth` are single volatile reads. They are modelled by `ReadLo`/`ReadHi` and their offsets by `RegistersMatchSimulator`.
- The console register `_console_addr` is a linker symbol. `FwConsole.Console` records the stored characters, and `FwVdev.PutcharEcho` covers the host echo.
- scripts/rvdism.py and the declaration-only headers are not part of this model.
