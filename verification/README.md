# The NEMU simple debugger monitor, modelled in Dafny

NEMU's simple debugger (`sdb`) reads command lines at the `(nemu)` prompt.
It splits each line into space-separated tokens and looks the first token up
in a fixed command table. Then it runs that command's handler on the
remaining tokens, and it stops when a handler returns a negative status or
the input runs out. In batch mode it runs the guest once, as `c` would, and
reads no input. The handlers are:

- `help [CMD]` lists the table, or one entry of it.
- `c` runs the guest without a step bound.
- `q` leaves the monitor.
- `si [N]` steps `N` instructions, 1 by default.
- `info r` prints the registers.
- `x N ADDR` prints `N` words of physical memory from a hexadecimal address.
  Each word takes one line: the address, the four bytes in hexadecimal
  (least significant first), then the same bytes as characters.

The model is pure: handlers return a `Reply` holding their C status and the
list of `Effect`s they cause. An effect is an execution request, a register
dump, a memory read or a printed line. The engine, the register file and
memory stay outside the model:

- The engine and the register file are only named by these effects.
- Memory is a parameter of type `Memory`: the word at each address after a
  given number of execution requests. The words a command reads depend on
  how often the guest has been run before it.

Modules, one per component:

- `Words`: `u8`/`u32`, wrap-around modulo 2^32, and the bytes of a word.
- `Scan`: `sscanf`'s `%d` and `%x` conversions on one token, and decimal
  numerals.
- `Hex`: `%02x`/`%08x` formatting, and reading it back with `%x`.
- `Tokenizer`: `strtok(…, " ")`.
- `Effects`: effects, replies, and memory.
- `Examine`: `cmd_x` and its line format.
- `Commands`: the table, first-match lookup, the other handlers, and
  dispatch.
- `Sessions`: the read-dispatch loop for any line stepper, and its
  properties.
- `Monitor`: the monitor's own stepper, `sdb_mainloop`, and the loop's
  properties for it.

Two behaviours of the code shape the model:

- Arguments. `sdb_mainloop` takes the command word with `strtok(str, " ")`,
  and each handler pulls its arguments with further `strtok(NULL, " ")`
  calls:
  - Only the space character separates tokens. A tab is part of a token.
  - The `args` string is computed but no handler reads it.

  So a handler sees the tokens after the command word (`Tokenizer.Split`).
  Tokens beyond the ones it reads are ignored.
- The count of `x`. With no token after `x`, it prints `Please input n` and
  reads nothing. The count defaults to 1 only when a count token is present
  but `%d` reads no number from it.

## Model

| member | source | states |
|---|---|---|
| `Tokenizer.Split` | nemu/src/monitor/sdb/sdb.c:184-185 | the tokens are non-empty and contain no space; there are none exactly when the line is blank (empty or spaces only), which is when the loop skips the line |
| `Tokenizer.SplitJoin` | nemu/src/monitor/sdb/sdb.c:184 | tokenizing the tokens joined by single spaces gives back exactly those tokens, in order |
| `Tokenizer.SplitAtSpace` | nemu/src/monitor/sdb/sdb.c:184 | a space always ends a token: the tokens of `a + " " + b` are the tokens of `a` followed by those of `b`, so runs of spaces separate tokens and no token spans a space |
| `Tokenizer.SplitKeepsText` | nemu/src/monitor/sdb/sdb.c:184 | the tokens, run together, are the line with its spaces removed: nothing but spaces is dropped and order is kept |
| `Scan.ScanDecimal` | nemu/src/monitor/sdb/sdb.c:62 | `%d` on a token with no decimal digit fails, so the target keeps its initial value |
| `Scan.ScanDecimalRejects` | nemu/src/monitor/sdb/sdb.c:62 | `%d` also fails on a token whose first character is neither blank, sign nor digit (`a5`), and on a sign not followed by a digit (`--5`) |
| `Scan.ScanDecimalSkipsBlanks` | nemu/src/monitor/sdb/sdb.c:62 | `%d` skips leading white space of every `isspace` kind, so a token led by a tab converts as the token without it |
| `Scan.ScanDecimalSigned` | nemu/src/monitor/sdb/sdb.c:62 | a leading `-` negates what the rest of the token converts to, a leading `+` changes nothing, and a signed token fails exactly when its rest does (`-5x` gives -5) |
| `Scan.ScanDecimalReadsPrefix` | nemu/src/monitor/sdb/sdb.c:93 | `%d` converts the leading digit run of a token and ignores what follows it |
| `Scan.ScanDecimalOfNumeral` | nemu/src/monitor/sdb/sdb.c:62 | `%d` reads every decimal numeral back as its value |
| `Scan.ScanDecimalOfNegativeNumeral` | nemu/src/monitor/sdb/sdb.c:62 | `%d` reads a minus sign followed by a numeral as the negated value |
| `Scan.ScanHex` | nemu/src/monitor/sdb/sdb.c:103 | `%x` on a token with no hexadecimal digit fails, leaving the address at its initial 0 |
| `Scan.ScanHexRejects` | nemu/src/monitor/sdb/sdb.c:103 | `%x` also fails on a token whose first character is neither blank, sign nor hexadecimal digit (`g1`), and on a sign not followed by a hexadecimal digit (`-x1`) |
| `Scan.ScanHexSkipsBlanks` | nemu/src/monitor/sdb/sdb.c:103 | `%x` skips leading white space of every `isspace` kind |
| `Scan.ScanHexSigned` | nemu/src/monitor/sdb/sdb.c:103 | a leading `-` negates what the rest of the address token converts to, a leading `+` changes nothing, and a signed token fails exactly when its rest does |
| `Examine.NegativeAddressWraps` | nemu/src/monitor/sdb/sdb.c:102-103 | the address `-4` is stored in the unsigned `paddr_t` as 0xfffffffc |
| `Hex.HexFixed` | nemu/src/monitor/sdb/sdb.c:107-109 | `%0Nx` of a value below 16^N is exactly N lowercase hexadecimal digits |
| `Hex.HexValueOfHexFixed` | nemu/src/monitor/sdb/sdb.c:107-109 | the digits `%0Nx` prints read back as the printed value |
| `Hex.ScanHexOfHex8` | nemu/src/monitor/sdb/sdb.c:103-107 | an address printed as `0x%08x`, with or without its `0x`, is read back by `%x` as that same address |
| `Words.Wrap32` | nemu/src/monitor/sdb/sdb.c:121 | reduction to a 32-bit address keeps values in range and changes others by a multiple of 2^32 |
| `Words.WordFromBytes` | nemu/src/monitor/sdb/sdb.c:108-110 | the four bytes `(value >> 8j) & 0xFF`, reassembled least significant first, give the word back |
| `Words.BytesFromWord` | nemu/src/monitor/sdb/sdb.c:108-110 | any four bytes assemble to a 32-bit word whose four bytes are exactly those |
| `Examine.Shown` | nemu/src/monitor/sdb/sdb.c:112-118 | a byte in 32..126 shows as that character; a dot appears exactly for bytes outside that range and for the dot itself |
| `Examine.FormatLine` | nemu/src/monitor/sdb/sdb.c:107-120 | a line is 28 characters long and starts with `0x`, the address as eight digits, and `: ` |
| `Examine.LineColumns` | nemu/src/monitor/sdb/sdb.c:108-119 | byte `j` of the word appears as two hex digits and a space at column 12+3j, and as its shown character at column 24+j |
| `Examine.LineRecoversAddressAndByte` | nemu/src/monitor/sdb/sdb.c:107-110 | the address column reads back with `%x` as the address, and hex field `j` reads back as byte `j` of the word |
| `Examine.FormatLineExample` | nemu/src/monitor/sdb/sdb.c:105-120 | the word 0x20FF0041 at 0x1000 prints as `0x00001000: 41 00 ff 20 A.. ` |
| `Examine.NextWordAddr` | nemu/src/monitor/sdb/sdb.c:121 | stepping the address by 4 with wrap-around and then taking word `i` is word `i+1` of the original dump |
| `Examine.DumpWord` | nemu/src/monitor/sdb/sdb.c:105-122 | word `i` of the dump `Examine.Dump` is read at `addr + 4i` modulo 2^32, and the line printed right after it formats that address and the word read |
| `Examine.DumpReads` | nemu/src/monitor/sdb/sdb.c:105-122 | a dump of `n` words reads `max(n, 0)` words at consecutive addresses, modulo 2^32, and prints as many lines |
| `Examine.ExamineReply` | nemu/src/monitor/sdb/sdb.c:85-104 | `x` always returns 0; with no token it prints the count hint only, with one token the address hint only, otherwise it dumps from the scanned address |
| `Examine.ExamineReadsAndLines` | nemu/src/monitor/sdb/sdb.c:85-122 | memory is read only when both arguments are given; then the reads follow consecutive addresses and each gets a line. The count is the number `%d` reads, or 1 when it fails; the address is the number `%x` reads modulo 2^32, or 0 when it fails |
| `Commands.Find` | nemu/src/monitor/sdb/sdb.c:200-206 | the lookup returns the first entry with exactly that name, or nothing when no entry has it |
| `Commands.FindEntry` | nemu/src/monitor/sdb/sdb.c:131-143 | the table's names are distinct, so looking up an entry's name finds that entry |
| `Commands.Listing` | nemu/src/monitor/sdb/sdb.c:154-156 | one `name - description` line per entry, in table order |
| `Commands.HelpReply` | nemu/src/monitor/sdb/sdb.c:147-168 | `help` lists every entry; `help CMD` prints only that entry's line; an unknown name prints `Unknown command '…'`; the status is 0 |
| `Commands.ContinueReply` | nemu/src/monitor/sdb/sdb.c:46-49 | `c` makes one execution request without a step bound (-1) and returns 0 |
| `Commands.QuitReply` | nemu/src/monitor/sdb/sdb.c:52-54 | `q` has no effect and returns a negative status |
| `Commands.StepReply` | nemu/src/monitor/sdb/sdb.c:58-66 | `si` makes exactly one execution request and returns 0; the count is the number `%d` reads from the first argument, and 1 when there is no argument or `%d` fails on it |
| `Commands.StepNumeral` | nemu/src/monitor/sdb/sdb.c:58-66 | `si N` with a decimal numeral requests exactly `N` steps |
| `Commands.StepMinusOneIsContinue` | nemu/src/monitor/sdb/sdb.c:58-66 | `si -1` makes exactly the reply of `c` (line 47 passes -1 to the engine) |
| `Commands.InfoReply` | nemu/src/monitor/sdb/sdb.c:68-80 | `info` prints the registers exactly when its first argument is `r`, and the `r/w` hint otherwise, including when the argument is missing |
| `Commands.Invoke` | nemu/src/monitor/sdb/sdb.c:46-124 | a handler returns a negative status exactly when it is `q`'s; every other handler returns 0 |
| `Commands.Dispatch` | nemu/src/monitor/sdb/sdb.c:200-208 | a command word runs the handler of the entry with that name; an unknown word prints one `Unknown command` line; the status is negative exactly for `q` |
| `Sessions.Loop` | nemu/src/monitor/sdb/sdb.c:180-209 | the loop never reads more lines than it is given, and it ends by a stopping line or at the end of input, never as batch mode does; `Sessions.LoopStopsOnlyAtQuit` says exactly where it stops |
| `Sessions.QuitLineStops` | nemu/src/monitor/sdb/sdb.c:203 | under a stepper that skips only blank lines and stops only on `q`, every `q` line stops the loop |
| `Sessions.LoopStopsOnlyAtQuit` | nemu/src/monitor/sdb/sdb.c:180-209 | the loop reads up to and including the first `q` line and then stops; with no `q` line it reads all input and stops at its end |
| `Sessions.BlankLinesIgnored` | nemu/src/monitor/sdb/sdb.c:184-185 | removing blank lines from the input changes neither the effects nor the reason the loop stops |
| `Sessions.EndOfInputActsAsQuit` | nemu/src/monitor/sdb/sdb.c:180 | a final line that stops the loop and has no effect of its own (as `q` does) adds nothing to the effects of the input without it |
| `Sessions.NothingAfterQuit` | nemu/src/monitor/sdb/sdb.c:203 | input after a stopping line is never read and changes nothing |
| `Sessions.Drive` | nemu/src/monitor/sdb/sdb.c:180-209 | the imperative loop returns as soon as a reply has a negative status, passes on the execution count, and computes the functional session |
| `Monitor.StepLine` | nemu/src/monitor/sdb/sdb.c:184-185 | a line is dispatched exactly when it is not blank |
| `Monitor.StepStatus` | nemu/src/monitor/sdb/sdb.c:200-208 | a dispatched line's status is negative exactly when its command word is `q` |
| `Monitor.MonitorStepWellBehaved` | nemu/src/monitor/sdb/sdb.c:180-209 | the monitor's stepper skips exactly the blank lines and stops exactly on `q` lines |
| `Monitor.MonitorStopsOnlyAtQuit` | nemu/src/monitor/sdb/sdb.c:180-209 | the monitor stops after its first `q` line, or at the end of input when there is none; no other command ends it |
| `Monitor.MonitorIgnoresBlankLines` | nemu/src/monitor/sdb/sdb.c:184-185 | the monitor does the same with or without blank lines in its input |
| `Monitor.UnknownWordReported` | nemu/src/monitor/sdb/sdb.c:208 | a line whose command word names no command prints exactly one `Unknown command '…'` line, and the loop goes on with the next line |
| `Monitor.MonitorEndOfInputActsAsQuit` | nemu/src/monitor/sdb/sdb.c:180 | adding a `q` line (with any trailing tokens) at the end of the input changes no effect |
| `Monitor.MonitorNothingAfterQuit` | nemu/src/monitor/sdb/sdb.c:203 | once a `q` line is in the input, whatever follows it is neither read nor acted on |
| `Monitor.BatchIsOneContinue` | nemu/src/monitor/sdb/sdb.c:175-178 | batch mode of `Monitor.Run` reads no line and does exactly what a single `c` line does |
| `Monitor.Lookup` | nemu/src/monitor/sdb/sdb.c:200-206 | the table scan stops at the first entry with that name, or at the table's end exactly when no entry has it |
| `Monitor.Execute` | nemu/src/monitor/sdb/sdb.c:184-208 | one pass of the loop body (tokenize, scan the table, call the handler or report the word) gives the stepper's reply |
| `Monitor.Mainloop` | nemu/src/monitor/sdb/sdb.c:174-210 | `sdb_mainloop` in both modes produces the session the functional `Monitor.Run` defines: one `c` in batch mode, `Sessions.Loop` over the input otherwise |

## Left out

- Line input (`rl_gets`, lines 29-44): the readline prompt, history and freeing are not modelled. The input is given as the sequence of lines the reader returns; end of input is the end of that sequence.
- The engine, registers and memory: `cpu_exec`, `isa_reg_display` and `paddr_read` are recorded as effects, not run. Their output is not modelled. Memory is a parameter, and out-of-range physical addresses, which the emulator rejects inside `paddr_read`, are not modelled.
- Device memory: `Memory` gives one word per address and execution count, so two reads of the same address during one `x` command see the same word. Under `CONFIG_DEVICE`, `paddr_read` of a device register may return a different value on each read and may have side effects; that is not modelled.
- Integer widths: `word_t` and `paddr_t` are taken to be 32 bits wide, as in a 32-bit guest configuration. Under a 64-bit configuration the addresses and words would be wider.
- `sdb_set_batch_mode` and `is_batch_mode` (lines 23, 170-172): the batch flag is a parameter of `Run` and `Mainloop`.
- `init_sdb`, `init_regex` and `init_wp_pool` (lines 212-218) only set up expression and watchpoint code. That code is not part of this model.
- `sdl_clear_event_queue` (lines 195-198) is a device call with no effect on the monitor's behaviour.
- The `args` string (lines 181, 190-193) is computed but never read, because every handler takes its arguments from `strtok`. The model passes the remaining tokens instead.
- Scan.ScanDecimal: a numeral that overflows `int` is undefined behaviour in `sscanf`. The model reads it as an unbounded integer.
- Scan.ScanHex: the model does not bound the value. `Examine.Address` reduces it modulo 2^32, as storing into the unsigned `paddr_t` would for an in-range value.
- Examine.Shown: the C code stores the byte in a plain `char`. With a signed `char`, bytes 128-255 become negative. Either way they fall outside 32..126 and print as a dot, which is what the model states, so signedness does not change the output.
- Commands.StepNumeral: states the count for canonical decimal numerals only. Other forms (leading zeros, `+`, trailing characters) follow from `Scan.ScanDecimalReadsPrefix` and are not restated for `si`.
- Monitor.MonitorEndOfInputActsAsQuit: states that the effects agree. The recorded reason for stopping and the number of lines read differ by design: one more line is read, and the loop ends by `q` rather than by end of input.
- Output buffering and the exact newline bytes are not modelled. Each printed line is one `Output` effect without its final newline.
