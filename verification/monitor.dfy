/** `sdb_mainloop`: read a line, take its first token as the command word,
    dispatch, and stop at the end of input or when a handler returns a
    negative status; in batch mode, continue once and stop. */
module Monitor {
  import opened Options
  import opened Words
  import opened Tokenizer
  import opened Effects
  import opened Commands
  import opened Sessions

  /** Memory as handlers read it after `execs` execution requests. */
  function Snapshot(mem: Memory, execs: nat): u32 -> u32
  {
    a => mem(execs, a)
  }

  /** One input line: no dispatch for a blank line, otherwise the reply of
      the command its first token names, given the tokens after it. */
  function StepLine(line: string, read: u32 -> u32): (r: Option<Reply>)
    ensures r.None? <==> IsBlank(line)
  {
    var tokens := Split(line);
    if |tokens| == 0 then None else Some(Dispatch(tokens[0], tokens[1..], read))
  }

  /** The monitor's own stepper: tokenize, then dispatch with memory as it
      stands after those execution requests. */
  function MonitorStep(mem: Memory): Stepper
  {
    (line: string, execs: nat) => StepLine(line, Snapshot(mem, execs))
  }

  /** Only a `q` line makes a handler report a negative status. */
  lemma StepStatus(line: string, read: u32 -> u32)
    requires StepLine(line, read).Some?
    ensures StepLine(line, read).value.status < 0 <==> IsQuitLine(line)
  {
  }

  lemma MonitorStepWellBehaved(mem: Memory)
    ensures WellBehaved(MonitorStep(mem))
  {
    forall line, execs: nat | MonitorStep(mem)(line, execs).Some?
      ensures MonitorStep(mem)(line, execs).value.status < 0 <==> IsQuitLine(line)
    {
      StepStatus(line, Snapshot(mem, execs));
    }
  }

  /** `sdb_mainloop` given the batch flag, all input lines and the memory. */
  function Run(batch: bool, lines: seq<string>, mem: Memory): Session
  {
    if batch then Session(ContinueReply().effects, BatchDone, 0) else Loop(lines, MonitorStep(mem), 0)
  }

  /** The monitor stops at its first `q` line, or at the end of input. */
  lemma MonitorStopsOnlyAtQuit(lines: seq<string>, mem: Memory)
    ensures var s := Run(false, lines, mem);
      var q := FirstQuit(lines);
      && s.ending == (if q.Some? then Quitted else InputExhausted)
      && s.linesRead == (if q.Some? then q.value + 1 else |lines|)
  {
    MonitorStepWellBehaved(mem);
    LoopStopsOnlyAtQuit(lines, MonitorStep(mem), 0);
  }

  /** A blank line or one holding only spaces dispatches nothing and prints
      nothing: the monitor does the same with or without such lines. */
  lemma MonitorIgnoresBlankLines(lines: seq<string>, mem: Memory)
    ensures Run(false, NonBlank(lines), mem).effects == Run(false, lines, mem).effects
    ensures Run(false, NonBlank(lines), mem).ending == Run(false, lines, mem).ending
  {
    MonitorStepWellBehaved(mem);
    BlankLinesIgnored(lines, MonitorStep(mem), 0);
  }

  /** A line whose command word names no command prints exactly one
      unknown-command line and the loop goes on with the next line. */
  lemma UnknownWordReported(lines: seq<string>, mem: Memory, execs: nat)
    requires |lines| > 0 && |Split(lines[0])| > 0 && !IsCommand(Split(lines[0])[0])
    ensures var s := Loop(lines, MonitorStep(mem), execs);
      var rest := Loop(lines[1..], MonitorStep(mem), execs);
      && s.effects == [Output(UnknownLine(Split(lines[0])[0]))] + rest.effects
      && s.ending == rest.ending
  {
    var word := Split(lines[0])[0];
    var reply := Reply(0, [Output(UnknownLine(word))]);
    assert MonitorStep(mem)(lines[0], execs) == Some(reply);
    assert ExecCount(reply.effects) == 0 by {
      assert (set i | 0 <= i < |reply.effects| && reply.effects[i].Exec?) == {};
    }
  }

  /** End of input has the same observable outcome as `q`: appending a `q`
      line (with any trailing tokens) to the input changes no effect. */
  lemma MonitorEndOfInputActsAsQuit(lines: seq<string>, quit: string, mem: Memory)
    requires IsQuitLine(quit)
    ensures Run(false, lines + [quit], mem).effects == Run(false, lines, mem).effects
  {
    MonitorStepWellBehaved(mem);
    forall k: nat | MonitorStep(mem)(quit, k).Some?
      ensures MonitorStep(mem)(quit, k).value.effects == []
    {
      var tokens := Split(quit);
      assert Find(Table, "q") == Some(2) by {
        FindEntry(2);
      }
    }
    QuitLineStops(MonitorStep(mem), quit);
    EndOfInputActsAsQuit(lines, quit, MonitorStep(mem), 0);
  }

  /** Once a `q` line has been read, the monitor reads and does nothing more. */
  lemma MonitorNothingAfterQuit(lines: seq<string>, more: seq<string>, mem: Memory)
    requires exists i :: 0 <= i < |lines| && IsQuitLine(lines[i])
    ensures Run(false, lines + more, mem) == Run(false, lines, mem)
  {
    MonitorStepWellBehaved(mem);
    var q :| 0 <= q < |lines| && IsQuitLine(lines[q]);
    QuitLineStops(MonitorStep(mem), lines[q]);
    NothingAfterQuit(lines, more, MonitorStep(mem), 0, q);
  }

  /** Batch mode reads no line and does what one `c` does. */
  lemma BatchIsOneContinue(lines: seq<string>, mem: Memory)
    ensures Run(true, lines, mem).effects == [Exec(Unbounded)]
    ensures Run(true, lines, mem).linesRead == 0
    ensures Run(true, lines, mem).effects == Run(false, ["c"], mem).effects
  {
    SplitJoin(["c"]);
    assert Join(["c"]) == "c";
    FindEntry(1);
    assert Dispatch("c", [], Snapshot(mem, 0)) == ContinueReply();
  }

  /** The table scan of `sdb_mainloop`: the index of the first entry named
      `word`, or the table's length when there is none. */
  method Lookup(word: string) returns (i: nat)
    ensures i <= |Table|
    ensures i < |Table| ==> Find(Table, word) == Some(i)
    ensures i == |Table| ==> Find(Table, word) == None
  {
    i := 0;
    while i < |Table| && Table[i].name != word
      invariant i <= |Table|
      invariant forall j :: 0 <= j < i ==> Table[j].name != word
    {
      i := i + 1;
    }
  }

  /** One pass of the loop body: tokenize the line, look the command word up
      and call its handler, or report it as unknown. */
  method Execute(line: string, read: u32 -> u32) returns (r: Option<Reply>)
    ensures r == StepLine(line, read)
  {
    var tokens := Split(line);
    if |tokens| == 0 {
      return None;
    }
    var word := tokens[0];
    var i := Lookup(word);
    if i == |Table| {
      r := Some(Reply(0, [Output(UnknownLine(word))]));
    } else {
      r := Some(Invoke(Table[i].handler, tokens[1..], read));
    }
  }

  /** `sdb_mainloop`: in batch mode one `c` and no prompt, otherwise the loop
      over the input lines with the monitor's own stepper. */
  method Mainloop(batch: bool, lines: seq<string>, mem: Memory)
    returns (effects: seq<Effect>, ending: Ending, linesRead: nat)
    ensures Session(effects, ending, linesRead) == Run(batch, lines, mem)
  {
    if batch {
      effects, ending, linesRead := ContinueReply().effects, BatchDone, 0;
    } else {
      effects, ending, linesRead := Drive(lines, MonitorStep(mem));
    }
  }
}
