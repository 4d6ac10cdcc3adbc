# axireg command-line front end, modelled in Dafny

axireg reads or writes one 32-bit AXI register through a UART link. This
project models its front end, `main.cpp`. That file holds the token loop
`parseCommandLine` and the dispatch in `main` that follows it.

- `axireg_state.dfy` (module `AxiRegState`) holds the shared state of the file:
  - the constants `UNSET` and the `OM_*` output-mode bits;
  - the integer widths `uint64_t` and `uint32_t`, as the subset types `U64` and `U32`;
  - the narrowing of an `unsigned long` into the `uint32_t` global `data` (`Truncate32`);
  - a snapshot `Globals` of the four globals, and their values at program start (`Initial`).
- `command_line.dfy` (module `CommandLine`) models `parseCommandLine`:
  - The class `Program` holds the four globals as fields.
  - `ParseCommandLine` is the `while (true)` loop of the source. It walks `argv` from index 1 to the first null entry and updates the fields in place.
  - Its postcondition ties the new fields to `Parsed`, a declarative function. `Parsed` says the mode is the old mode OR-ed with the bits of the flags that appeared. The address is the first positional token. The data is the last of the later positionals, cut to 32 bits. The command is a write exactly when two or more positionals were given.
  - The lemmas prove what the loop promises on top of `Parsed`. Flags are idempotent and their order does not matter. A flag does not count as a positional. Only the first positional sets the address. The last positional sets the data. The mode stays within the four `OM_*` values. Tokens after the first null are never read.
- `dispatch.dfy` (module `Dispatch`) models `main` after parsing:
  - `OperationFor` gives the transaction the parse selects.
  - `ReportFor` gives what is printed once a read or write has returned.
  - `Run` strings the steps together: parse, then usage, then connect, then one transaction, then the report and the exit code. `connect`, the AXI write and the AXI read are opaque parameters.

Number parsing (`strtoull` and `strtoul`, base 0) is the uninterpreted
parameter `parseNum: string -> U64`. The same function stands for both,
because `unsigned long` is 64 bits wide on LP64 platforms. `data` receives
`parseNum(token)` reduced modulo 2^32, as the assignment to a `uint32_t`
does.

The source tests `strcmp(token, "-dec")` and `strcmp(token, "-hex")` in
turn, and each branch ORs its own bit into `output_mode`. The loop model
does both in one branch: `TokenBit` maps `-dec` to `OM_DEC`, `-hex` to
`OM_HEX` and every other token to `OM_NONE`. The behaviour is the same.

`help()` prints the usage text and exits with status 0. It is modelled as
`ParseCommandLine` returning `true`, and as `Run` returning the `Usage`
report with exit code 0. As in the source, an address argument that parses
to exactly `0xFFFFFFFFFFFFFFFF` takes the usage path too.

In the source the flags may appear anywhere on the command line, although
the usage text lists them before the address. Three or more positional
arguments are accepted silently, and the last one is the data written.

## Model

| member | source | states |
|---|---|---|
| AxiRegState.Truncate32 | main.cpp:82 | storing the parsed value in the `uint32_t` `data` keeps it when it fits and otherwise differs from it by a multiple of 2^32 |
| CommandLine.TokenBit | main.cpp:64-74 | a token contributes a non-zero bit exactly when it is `-dec` or `-hex`; `-dec` gives exactly `OM_DEC` and `-hex` exactly `OM_HEX` |
| CommandLine.FirstNullFrom | main.cpp:56-62 | the loop stops at an entry that is null, and every entry it passed before that was non-null |
| CommandLine.Tokens | main.cpp:54-62 | the consumed tokens are exactly `argv[1]`, `argv[2]`, … before the first null entry, which ends them |
| CommandLine.TokensIgnoreRest | main.cpp:59-62 | entries after the first null entry never affect what is parsed |
| CommandLine.Positionals | main.cpp:64-84 | the positional arguments are no more than the tokens, and none of them is a flag |
| CommandLine.NonFlagsArePositional | main.cpp:76-84 | every token that is not a flag is stored as a positional argument |
| CommandLine.OnlyFlagsNoPositionals | main.cpp:64-74 | tokens that are all flags add no positional argument |
| CommandLine.FlagsAreNotPositional | main.cpp:64-78 | `index` counts exactly the non-flag tokens: positionals plus flags is the number of tokens |
| CommandLine.FlagBits | main.cpp:15-19 | OR-ing the flag bits together never leaves `OM_NONE`..`OM_BOTH` |
| CommandLine.FlagBitsSeen | main.cpp:64-74 | the `OM_DEC` bit is set exactly when `-dec` appeared, and the `OM_HEX` bit exactly when `-hex` appeared |
| CommandLine.PositionalsAppend | main.cpp:76-84 | the unfolding step the loop proof uses: one more token extends the positionals by itself exactly when it is not a flag (the definition of `Positionals` applied to `ts + [t]`) |
| CommandLine.FlagBitsAppend | main.cpp:66-72 | the unfolding step the loop proof uses: one more token ORs its own bit into the mode (the definition of `FlagBits` applied to `ts + [t]`) |
| CommandLine.PositionalsConcat | main.cpp:56-85 | the positionals of two runs of tokens are those of the first followed by those of the second |
| CommandLine.FlagBitsConcat | main.cpp:56-85 | the mode bits of two runs of tokens are the OR of each run's bits |
| CommandLine.FlagStep | main.cpp:64-74 | a flag token ORs its bit into `output_mode` and leaves address, data and the write flag alone |
| CommandLine.PositionalStep | main.cpp:77-84 | a non-flag token sets `address` if it is the first one, else sets `data` to its value cut to 32 bits and sets `isAxiWrite` |
| CommandLine.ModeInRange | main.cpp:15-19 | from the initial `OM_NONE`, the parsed mode is one of `OM_NONE`, `OM_DEC`, `OM_HEX`, `OM_BOTH` |
| CommandLine.ModeDependsOnlyOnFlagsSeen | main.cpp:64-74 | two token lists in which the same flags appear give the same mode, regardless of repetition and order |
| CommandLine.FlagAnywhere | main.cpp:64-74 | inserting a flag anywhere changes only the mode, by OR-ing in its bit |
| CommandLine.RepeatedFlagIsIdempotent | main.cpp:66-72 | repeating a flag that is already present changes nothing |
| CommandLine.AddressFixedByFirstPositional | main.cpp:78-79 | once one positional has been seen, no later tokens change the address |
| CommandLine.LastPositionalWins | main.cpp:80-84 | a positional after the first one, followed only by flags, is the data (cut to 32 bits), and the command is a write |
| CommandLine.WriteAndUsageConditions | main.cpp:78-88 | from the initial globals it is a write exactly when two or more positionals were given; the address is `UNSET` exactly when no positional was given or the first parses to `UNSET`; a read keeps `data` at 0 |
| CommandLine.Program.constructor | main.cpp:13-24 | the globals start as `OM_NONE`, `UNSET`, 0 and false |
| CommandLine.Program.ParseCommandLine | main.cpp:52-89 | the new globals are `Parsed` of the old ones and the consumed tokens, and the usage path is taken exactly when the address is still `UNSET` |
| Dispatch.OperationFor | main.cpp:147-158 | a write of `data` to `address` is performed exactly when `isAxiWrite`, otherwise a read of `address` |
| Dispatch.ReportFor | main.cpp:147-175 | data is shown only after a read returning 0. A non-zero status is reported as a write or read error. `OM_DEC` or `OM_NONE` shows decimal and `OM_HEX` or `OM_NONE` shows hex; any mode other than 1, 2 or 3 gives the default form |
| Dispatch.ReadDisplayFollowsFlags | main.cpp:164-173 | after a successful read, `-dec` alone shows decimal, `-hex` alone shows hex, both show both, and neither shows the default combined form |
| Dispatch.FlagsIgnoredOnWrite | main.cpp:147-154 | what a write prints does not depend on the output mode |
| Dispatch.Run | main.cpp:129-180 | The usage path happens exactly when the address is `UNSET`, and it exits 0. A failed connect exits 1. Otherwise the selected transaction is performed, its status is the exit code, and the report follows `ReportFor` |

## Left out

- The serial transport `CAxiUart` (connect, read, write, framing, checksums, retries, timeouts) is declared in `axi_uart.h`, which is not part of this model. `connect`, the AXI write and the AXI read are opaque function parameters that return a status, plus a data word for a read.
- `get_device_name` (environment-variable lookup, and `exit(1)` when the variable is missing) is I/O glue. The device name is a parameter of `Run`, and the missing-variable path is not modelled.
- The internals of `strtoull`/`strtoul` (base detection, overflow saturation) belong to libc. They stay the uninterpreted `parseNum`. The model assumes `unsigned long` is 64 bits wide.
- `printf` text is not modelled. Each output is an abstract `Report` value.
- The effect of `connect` on the transport object is not modelled; only its boolean result decides between exit code 1 and going on.
- CommandLine.NullTerminated: `argc == 0` is left out. C guarantees only `argv[argc] == NULL`, so with `argc == 0` the only null is `argv[0]`, and the read of `argv[1]` at main.cpp:59 goes past the terminating null. That is undefined behaviour in the source. On Linux it goes on into the environment strings. `NullTerminated` (the precondition of `Tokens`, `ParseCommandLine` and `Run`) requires a null at index 1 or later, so it excludes this input.
- The `int` counters `i` and `index` in `parseCommandLine` are unbounded integers. An overflow would need more than 2^31 arguments.
- Dispatch.Run: exit codes are the `int` returned by `main`. The operating system's truncation of an exit status to 8 bits is outside the program.
