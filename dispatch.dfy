/** main(): after parsing, one AXI read or write is performed, its outcome
    is reported, and its status becomes the process exit code. The serial
    link and the AXI transactions are opaque: `connect`, `axiWrite` and
    `axiRead` are parameters standing for the CAxiUart calls. */
module Dispatch {
  import opened AxiRegState
  import opened CommandLine

  /** The single AXI transaction main() performs. */
  datatype Operation = AxiRead(address: U64) | AxiWrite(address: U64, data: U32)

  /** What main() prints, as abstract outcomes rather than text. */
  datatype Report =
    | Usage                         // help(): the usage text, then exit(0)
    | DeviceNotFound(device: string) // connect failed, then exit(1)
    | Silent                        // a successful write prints nothing
    | WriteError(status: int)       // "Error: write-response = %i"
    | ReadError(status: int)        // "Error: read-response = %i"
    | ShowDec(value: U32)           // OM_DEC:  "%u"
    | ShowHex(value: U32)           // OM_HEX:  "%08X"
    | ShowBoth(value: U32)          // OM_BOTH: "%u %08X"
    | ShowDefault(value: U32)       // any other mode: "0x%08X (%u)"

  /** The report prints the data word that was read. */
  predicate ShowsValue(r: Report) {
    r.ShowDec? || r.ShowHex? || r.ShowBoth? || r.ShowDefault?
  }

  /** The data word appears in decimal. */
  predicate ShowsDecimal(r: Report) {
    r.ShowDec? || r.ShowBoth? || r.ShowDefault?
  }

  /** The data word appears in hexadecimal. */
  predicate ShowsHex(r: Report) {
    r.ShowHex? || r.ShowBoth? || r.ShowDefault?
  }

  /** The transaction chosen by the parsed globals. */
  function OperationFor(g: Globals): (op: Operation)
    ensures op.AxiWrite? <==> g.isAxiWrite
    ensures op.address == g.address
    ensures op.AxiWrite? ==> op.data == g.data
  {
    if g.isAxiWrite then AxiWrite(g.address, g.data) else AxiRead(g.address)
  }

  /** What is printed once the transaction returned `status`; `value` is
      the data word after the transaction. Data is shown only after a
      read that returned 0, and the mode then picks the format. */
  function ReportFor(isAxiWrite: bool, status: int, mode: bv32, value: U32): (r: Report)
    ensures ShowsValue(r) <==> !isAxiWrite && status == 0
    ensures ShowsValue(r) ==> r.value == value
    ensures status != 0 ==> r == (if isAxiWrite then WriteError(status) else ReadError(status))
    ensures isAxiWrite && status == 0 ==> r == Silent
    ensures ShowsValue(r) && mode <= OM_BOTH ==>
      && (ShowsDecimal(r) <==> mode & OM_DEC != 0 || mode == OM_NONE)
      && (ShowsHex(r) <==> mode & OM_HEX != 0 || mode == OM_NONE)
    ensures ShowsValue(r) ==> (r.ShowDefault? <==> mode != OM_DEC && mode != OM_HEX && mode != OM_BOTH)
  {
    if isAxiWrite then
      if status != 0 then WriteError(status) else Silent
    else if status != 0 then ReadError(status)
    else if mode == OM_DEC then ShowDec(value)
    else if mode == OM_HEX then ShowHex(value)
    else if mode == OM_BOTH then ShowBoth(value)
    else ShowDefault(value)
  }

  /** After a successful read, the format follows the flags on the command
      line: "-dec" alone gives decimal, "-hex" alone hex, both give both
      forms, and neither gives the default combined form. */
  lemma {:induction false} ReadDisplayFollowsFlags(ts: seq<string>, parseNum: string -> U64, value: U32)
    ensures var r := ReportFor(false, 0, Parsed(Initial, ts, parseNum).outputMode, value);
      && (r.ShowDec? <==> "-dec" in ts && "-hex" !in ts)
      && (r.ShowHex? <==> "-hex" in ts && "-dec" !in ts)
      && (r.ShowBoth? <==> "-dec" in ts && "-hex" in ts)
      && (r.ShowDefault? <==> "-dec" !in ts && "-hex" !in ts)
      && r.value == value
  {
    FlagBitsSeen(ts);
  }

  /** On the write path the flags make no difference to what is printed. */
  lemma FlagsIgnoredOnWrite(status: int, mode: bv32, mode': bv32, value: U32, value': U32)
    ensures ReportFor(true, status, mode, value) == ReportFor(true, status, mode', value')
  {
  }

  /** The whole of main(): parse argv, connect to `device`, perform the
      chosen transaction and report it. Returns the transaction performed
      (none when the program stops earlier), the report and the exit code. */
  method Run(argv: seq<Option<string>>, parseNum: string -> U64, device: string,
             connect: (string, nat) -> bool,
             axiWrite: (U64, U32) -> int,
             axiRead: (U64, U32) -> (int, U32))
    returns (op: Option<Operation>, report: Report, exitCode: int)
    requires NullTerminated(argv)
    ensures var g := Parsed(Initial, Tokens(argv), parseNum);
      && (report == Usage <==> g.address == UNSET)
      && (g.address == UNSET ==> op == None && exitCode == 0)
      && (g.address != UNSET && !connect(device, BAUD_RATE) ==>
            op == None && report == DeviceNotFound(device) && exitCode == 1)
    ensures var g := Parsed(Initial, Tokens(argv), parseNum);
      g.address != UNSET && connect(device, BAUD_RATE) ==>
        && op == Some(OperationFor(g))
        && var reply := if g.isAxiWrite then (axiWrite(g.address, g.data), g.data)
                         else axiRead(g.address, g.data);
           exitCode == reply.0 && report == ReportFor(g.isAxiWrite, reply.0, g.outputMode, reply.1)
  {
    var program := new Program();
    var usage := program.ParseCommandLine(argv, parseNum);
    if usage {
      return None, Usage, 0;
    }
    if !connect(device, BAUD_RATE) {
      return None, DeviceNotFound(device), 1;
    }
    var error: int;
    if program.isAxiWrite {
      op := Some(AxiWrite(program.address, program.data));
      error := axiWrite(program.address, program.data);
      report := ReportFor(true, error, program.outputMode, program.data);
    } else {
      op := Some(AxiRead(program.address));
      var reply := axiRead(program.address, program.data);
      error, program.data := reply.0, reply.1;
      report := ReportFor(false, error, program.outputMode, program.data);
    }
    // The status of the transaction is the process exit code
    exitCode := error;
  }
}
