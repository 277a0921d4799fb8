/** The command table, first-match lookup, and the handlers of `help`, `c`,
    `q`, `si` and `info` (the handler of `x` is in module Examine). Every
    handler gets the tokens that follow the command word on its line. */
module Commands {
  import opened Options
  import opened Words
  import opened Scan
  import opened Effects
  import opened Examine

  /** Which handler a table entry runs. */
  datatype Handler = Help | Continue | Quit | SingleStep | Info | ScanMemory

  datatype Entry = Entry(name: string, description: string, handler: Handler)

  /** The command table, in the order `help` lists it. */
  const Table: seq<Entry> := [
    Entry("help", "Display information about all supported commands", Help),
    Entry("c", "Continue the execution of the program", Continue),
    Entry("q", "Exit NEMU", Quit),
    Entry("si", "[n] Single step execution, dufault n = 1", SingleStep),
    Entry("info", "r Print register", Info),
    Entry("x", "[n] Scan memory. Evaluate the expression EXPR and use the result as the starting memory Address, output N consecutive 4 bytes in hexadecimal form", ScanMemory)
  ]

  const InfoHint: string := "Please input r/w"

  /** The line `help` prints for an entry: `%s - %s`. */
  function HelpLine(e: Entry): string {
    e.name + " - " + e.description
  }

  /** The diagnostic for a word that names no command: `Unknown command '%s'`. */
  function UnknownLine(word: string): string {
    "Unknown command '" + word + "'"
  }

  /** The word names a command of the table. */
  predicate IsCommand(word: string) {
    exists i :: 0 <= i < |Table| && Table[i].name == word
  }

  /** Linear scan with `strcmp`: the index of the first entry named exactly
      `name`, or `None` when no entry is. */
  function Find(table: seq<Entry>, name: string): (r: Option<nat>)
    ensures r.Some? ==> r.value < |table| && table[r.value].name == name
    ensures r.Some? ==> forall j :: 0 <= j < r.value ==> table[j].name != name
    ensures r.None? ==> forall j :: 0 <= j < |table| ==> table[j].name != name
  {
    if |table| == 0 then None
    else if table[0].name == name then Some(0)
    else match Find(table[1..], name)
      case None => None
      case Some(i) => Some(i + 1)
  }

  /** No two entries share a name, so the first match is the only one. */
  lemma TableNamesDistinct()
    ensures forall i, j :: 0 <= i < j < |Table| ==> Table[i].name != Table[j].name
  {
  }

  /** Looking up an entry's name finds that entry. */
  lemma FindEntry(i: nat)
    requires i < |Table|
    ensures Find(Table, Table[i].name) == Some(i)
  {
    TableNamesDistinct();
  }

  /** `q` is the only entry whose handler is `Quit`. */
  lemma QuitEntry()
    ensures forall i :: 0 <= i < |Table| ==> (Table[i].handler == Quit <==> Table[i].name == "q")
  {
  }

  /** One `%s - %s` line per entry, in table order. */
  function Listing(table: seq<Entry>): (lines: seq<Effect>)
    ensures |lines| == |table|
    ensures forall i :: 0 <= i < |table| ==> lines[i] == Output(HelpLine(table[i]))
  {
    if |table| == 0 then [] else [Output(HelpLine(table[0]))] + Listing(table[1..])
  }

  /** `cmd_help`: with no argument every entry's line in table order; with a
      command's name that entry's line only; otherwise an unknown-command line. */
  function HelpReply(args: seq<string>): (r: Reply)
    ensures r.status == 0
    ensures |args| == 0 ==>
      |r.effects| == |Table| && forall i :: 0 <= i < |Table| ==> r.effects[i] == Output(HelpLine(Table[i]))
    ensures |args| > 0 ==> forall i :: 0 <= i < |Table| && Table[i].name == args[0] ==>
      r.effects == [Output(HelpLine(Table[i]))]
    ensures |args| > 0 && !IsCommand(args[0]) ==> r.effects == [Output(UnknownLine(args[0]))]
  {
    if |args| == 0 then Reply(0, Listing(Table))
    else
      TableNamesDistinct();
      match Find(Table, args[0])
      case Some(i) => Reply(0, [Output(HelpLine(Table[i]))])
      case None => Reply(0, [Output(UnknownLine(args[0]))])
  }

  /** `cmd_c`: run the guest without a step bound. */
  function ContinueReply(): (r: Reply)
    ensures r.status == 0 && r.effects == [Exec(Unbounded)]
  {
    Reply(0, [Exec(Unbounded)])
  }

  /** `cmd_q`: end the monitor, whatever follows on the line. */
  function QuitReply(): (r: Reply)
    ensures r.status < 0 && r.effects == []
  {
    Reply(-1, [])
  }

  /** The step count of `si`: `%d` of the first argument into `n`, which starts at 1. */
  function StepCount(args: seq<string>): int
  {
    if |args| == 0 then 1 else ScanDecimal(args[0]).GetOr(1)
  }

  /** `cmd_si`: exactly one request to execute `StepCount(args)` instructions;
      one instruction when the count is missing or has no leading number. */
  function StepReply(args: seq<string>): (r: Reply)
    ensures r.status == 0 && |r.effects| == 1 && r.effects[0].Exec?
    ensures |args| == 0 ==> r.effects == [Exec(1)]
    ensures |args| > 0 && ScanDecimal(args[0]).None? ==> r.effects == [Exec(1)]
    ensures |args| > 0 && ScanDecimal(args[0]).Some? ==> r.effects == [Exec(ScanDecimal(args[0]).value)]
  {
    Reply(0, [Exec(StepCount(args))])
  }

  /** `si N` with a decimal numeral `N` requests exactly `N` steps. */
  lemma StepNumeral(n: nat, args: seq<string>)
    requires |args| > 0 && args[0] == Decimal(n)
    ensures StepReply(args).effects == [Exec(n)]
  {
    ScanDecimalOfNumeral(n);
    assert StepCount(args) == n;
  }

  /** `si -N` with a decimal numeral `N` requests exactly `-N` steps. */
  lemma StepNegativeNumeral(n: nat, args: seq<string>)
    requires |args| > 0 && args[0] == "-" + Decimal(n)
    ensures StepReply(args).effects == [Exec(-(n as int))]
  {
    ScanDecimalOfNegativeNumeral(n, args[0]);
  }

  /** `si -1` makes the same request as `c`: the count is passed to the
      execution engine unchanged, and `c` passes -1. */
  lemma StepMinusOneIsContinue(args: seq<string>)
    requires |args| > 0 && args[0] == "-" + Decimal(1)
    ensures StepReply(args) == ContinueReply()
  {
    StepNegativeNumeral(1, args);
  }

  /** `cmd_info`: the registers for exactly the argument `r`, the hint otherwise. */
  function InfoReply(args: seq<string>): (r: Reply)
    ensures r.status == 0
    ensures |args| > 0 && args[0] == "r" ==> r.effects == [ShowRegisters]
    ensures !(|args| > 0 && args[0] == "r") ==> r.effects == [Output(InfoHint)]
  {
    if |args| == 0 then Reply(0, [Output(InfoHint)])
    else if args[0] == "r" then Reply(0, [ShowRegisters])
    else Reply(0, [Output(InfoHint)])
  }

  /** Runs one handler. Only `q` returns a negative status; every other
      handler returns 0, whatever its arguments. */
  function Invoke(h: Handler, args: seq<string>, read: u32 -> u32): (r: Reply)
    ensures r.status < 0 <==> h == Quit
    ensures r.status >= 0 ==> r.status == 0
  {
    match h
    case Help => HelpReply(args)
    case Continue => ContinueReply()
    case Quit => QuitReply()
    case SingleStep => StepReply(args)
    case Info => InfoReply(args)
    case ScanMemory => ExamineReply(args, read)
  }

  /** The dispatch of `sdb_mainloop`: the handler of the entry named by the
      command word, or one unknown-command line and status 0. */
  function Dispatch(word: string, args: seq<string>, read: u32 -> u32): (r: Reply)
    ensures forall i :: 0 <= i < |Table| && Table[i].name == word ==> r == Invoke(Table[i].handler, args, read)
    ensures !IsCommand(word) ==> r == Reply(0, [Output(UnknownLine(word))])
    ensures r.status < 0 <==> word == "q"
  {
    TableNamesDistinct();
    QuitEntry();
    match Find(Table, word)
    case Some(i) => Invoke(Table[i].handler, args, read)
    case None => Reply(0, [Output(UnknownLine(word))])
  }
}
