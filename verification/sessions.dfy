/** The read-dispatch loop of `sdb_mainloop`, for any way of turning one
    input line into a reply: where it stops, what it keeps, what it skips. */
module Sessions {
  import opened Options
  import opened Tokenizer
  import opened Effects

  datatype Ending =
    | InputExhausted   // the line reader returned no line
    | Quitted          // a handler returned a negative status
    | BatchDone        // batch mode: one `c`, no prompt

  /** A session: everything the monitor did, why it stopped, and how many
      input lines it read. */
  datatype Session = Session(effects: seq<Effect>, ending: Ending, linesRead: nat)

  /** A line whose command word is `q`. */
  predicate IsQuitLine(line: string) {
    var tokens := Split(line);
    |tokens| > 0 && tokens[0] == "q"
  }

  /** What an input line does, given the number of execution requests made
      before it. */
  type Stepper = (string, nat) -> Option<Reply>

  /** Blank lines, and only they, are skipped without a reply. */
  ghost predicate SkipsBlankLines(step: Stepper) {
    forall line, execs :: step(line, execs).None? <==> IsBlank(line)
  }

  /** Only a `q` line gets a reply with a negative status. */
  ghost predicate StopsOnlyOnQuit(step: Stepper) {
    forall line, execs :: step(line, execs).Some? ==> (step(line, execs).value.status < 0 <==> IsQuitLine(line))
  }

  /** The facts about a stepper the loop's properties rest on. */
  ghost predicate WellBehaved(step: Stepper) {
    SkipsBlankLines(step) && StopsOnlyOnQuit(step)
  }

  /** `line` ends the loop whenever it comes. */
  ghost predicate StopsOn(step: Stepper, line: string) {
    forall execs :: step(line, execs).Some? && step(line, execs).value.status < 0
  }

  /** Under a well-behaved stepper every `q` line ends the loop. */
  lemma QuitLineStops(step: Stepper, line: string)
    requires WellBehaved(step) && IsQuitLine(line)
    ensures StopsOn(step, line)
  {
    forall execs: nat ensures step(line, execs).Some? && step(line, execs).value.status < 0 {
      assert !IsBlank(line) by {
        assert Split(line) != [];
      }
    }
  }

  /** The interactive loop over the remaining input lines, `execs` execution
      requests into the session. */
  function Loop(lines: seq<string>, step: Stepper, execs: nat): (s: Session)
    ensures s.linesRead <= |lines|
    ensures s.ending != BatchDone
    decreases |lines|
  {
    if |lines| == 0 then Session([], InputExhausted, 0)
    else match step(lines[0], execs)
      case None =>
        var rest := Loop(lines[1..], step, execs);
        Session(rest.effects, rest.ending, rest.linesRead + 1)
      case Some(reply) =>
        if reply.status < 0 then Session(reply.effects, Quitted, 1)
        else
          var rest := Loop(lines[1..], step, execs + ExecCount(reply.effects));
          Session(reply.effects + rest.effects, rest.ending, rest.linesRead + 1)
  }

  /** A blank line is consumed and nothing else happens. */
  lemma LoopOnBlank(lines: seq<string>, step: Stepper, execs: nat)
    requires |lines| > 0 && step(lines[0], execs).None?
    ensures var rest := Loop(lines[1..], step, execs);
      Loop(lines, step, execs) == Session(rest.effects, rest.ending, rest.linesRead + 1)
  {
  }

  /** A reply with a negative status ends the loop after its effects. */
  lemma LoopOnStop(lines: seq<string>, step: Stepper, execs: nat, reply: Reply)
    requires |lines| > 0 && step(lines[0], execs) == Some(reply) && reply.status < 0
    ensures Loop(lines, step, execs) == Session(reply.effects, Quitted, 1)
  {
  }

  /** Any other reply's effects come first, then the rest of the input. */
  lemma LoopOnGo(lines: seq<string>, step: Stepper, execs: nat, reply: Reply)
    requires |lines| > 0 && step(lines[0], execs) == Some(reply) && reply.status >= 0
    ensures var rest := Loop(lines[1..], step, execs + ExecCount(reply.effects));
      Loop(lines, step, execs) == Session(reply.effects + rest.effects, rest.ending, rest.linesRead + 1)
  {
  }

  /** The index of the first line whose command word is `q`. */
  function FirstQuit(lines: seq<string>): (r: Option<nat>)
    ensures r.Some? ==> r.value < |lines| && IsQuitLine(lines[r.value])
    ensures r.Some? ==> forall i :: 0 <= i < r.value ==> !IsQuitLine(lines[i])
    ensures r.None? ==> forall i :: 0 <= i < |lines| ==> !IsQuitLine(lines[i])
  {
    if |lines| == 0 then None
    else if IsQuitLine(lines[0]) then Some(0)
    else match FirstQuit(lines[1..])
      case None => None
      case Some(i) => Some(i + 1)
  }

  /** The loop reads lines up to and including the first `q` line and stops
      there; without a `q` line it reads every line and stops at the end of
      input. No other command ends it. */
  lemma {:induction false} LoopStopsOnlyAtQuit(lines: seq<string>, step: Stepper, execs: nat)
    requires WellBehaved(step)
    ensures var s := Loop(lines, step, execs);
      var q := FirstQuit(lines);
      && s.ending == (if q.Some? then Quitted else InputExhausted)
      && s.linesRead == (if q.Some? then q.value + 1 else |lines|)
    decreases |lines|
  {
    if |lines| > 0 {
      var r := step(lines[0], execs);
      if r.None? {
        assert !IsQuitLine(lines[0]);
        LoopStopsOnlyAtQuit(lines[1..], step, execs);
      } else if r.value.status >= 0 {
        LoopStopsOnlyAtQuit(lines[1..], step, execs + ExecCount(r.value.effects));
      }
    }
  }

  /** The input lines that are not blank. */
  function NonBlank(lines: seq<string>): (r: seq<string>)
    ensures |r| <= |lines|
    ensures forall i :: 0 <= i < |r| ==> !IsBlank(r[i])
  {
    if |lines| == 0 then []
    else if IsBlank(lines[0]) then NonBlank(lines[1..])
    else [lines[0]] + NonBlank(lines[1..])
  }

  /** Blank lines have no effect: dropping them leaves what the loop does
      and why it stops unchanged. */
  lemma {:induction false} BlankLinesIgnored(lines: seq<string>, step: Stepper, execs: nat)
    requires SkipsBlankLines(step)
    ensures Loop(NonBlank(lines), step, execs).effects == Loop(lines, step, execs).effects
    ensures Loop(NonBlank(lines), step, execs).ending == Loop(lines, step, execs).ending
    decreases |lines|
  {
    if |lines| > 0 {
      var r := step(lines[0], execs);
      if r.None? {
        assert NonBlank(lines) == NonBlank(lines[1..]);
        LoopOnBlank(lines, step, execs);
        BlankLinesIgnored(lines[1..], step, execs);
      } else {
        var kept := NonBlank(lines);
        assert kept == [lines[0]] + NonBlank(lines[1..]);
        assert kept[0] == lines[0] && kept[1..] == NonBlank(lines[1..]);
        if r.value.status >= 0 {
          LoopOnGo(lines, step, execs, r.value);
          LoopOnGo(kept, step, execs, r.value);
          BlankLinesIgnored(lines[1..], step, execs + ExecCount(r.value.effects));
        } else {
          LoopOnStop(lines, step, execs, r.value);
          LoopOnStop(kept, step, execs, r.value);
        }
      }
    }
  }

  /** Running out of input ends the loop as a `q` line would: adding one at
      the end changes nothing the monitor does. */
  lemma {:induction false} EndOfInputActsAsQuit(lines: seq<string>, quit: string, step: Stepper, execs: nat)
    requires StopsOn(step, quit)
    requires forall k :: step(quit, k).Some? ==> step(quit, k).value.effects == []
    ensures Loop(lines + [quit], step, execs).effects == Loop(lines, step, execs).effects
    decreases |lines|
  {
    var all := lines + [quit];
    if |lines| == 0 {
      assert all[0] == quit;
    } else {
      assert all[0] == lines[0];
      assert all[1..] == lines[1..] + [quit];
      var r := step(lines[0], execs);
      if r.None? {
        EndOfInputActsAsQuit(lines[1..], quit, step, execs);
      } else if r.value.status >= 0 {
        EndOfInputActsAsQuit(lines[1..], quit, step, execs + ExecCount(r.value.effects));
      }
    }
  }

  /** Nothing after a `q` line is read or done. */
  lemma {:induction false} NothingAfterQuit(lines: seq<string>, more: seq<string>, step: Stepper, execs: nat, q: nat)
    requires q < |lines| && StopsOn(step, lines[q])
    ensures Loop(lines + more, step, execs) == Loop(lines, step, execs)
    decreases q
  {
    var all := lines + more;
    assert all[0] == lines[0];
    var r := step(lines[0], execs);
    if q == 0 {
      LoopOnStop(lines, step, execs, r.value);
      LoopOnStop(all, step, execs, r.value);
    } else {
      assert all[1..] == lines[1..] + more;
      assert lines[1..][q - 1] == lines[q];
      if r.None? {
        LoopOnBlank(lines, step, execs);
        LoopOnBlank(all, step, execs);
        NothingAfterQuit(lines[1..], more, step, execs, q - 1);
      } else if r.value.status >= 0 {
        LoopOnGo(lines, step, execs, r.value);
        LoopOnGo(all, step, execs, r.value);
        NothingAfterQuit(lines[1..], more, step, execs + ExecCount(r.value.effects), q - 1);
      } else {
        LoopOnStop(lines, step, execs, r.value);
        LoopOnStop(all, step, execs, r.value);
      }
    }
  }

  /** The loop of `sdb_mainloop` as written, for any stepper: it hands
      each line to `step`, keeps count of the execution requests, and
      returns as soon as a reply carries a negative status. */
  method Drive(lines: seq<string>, step: Stepper)
    returns (effects: seq<Effect>, ending: Ending, linesRead: nat)
    ensures Session(effects, ending, linesRead) == Loop(lines, step, 0)
  {
    effects, linesRead := [], 0;
    var execs: nat := 0;
    ghost var total := Loop(lines, step, 0);
    assert lines[0..] == lines;
    while linesRead < |lines|
      invariant linesRead <= |lines|
      invariant var rest := Loop(lines[linesRead..], step, execs);
        total == Session(effects + rest.effects, rest.ending, linesRead + rest.linesRead)
      decreases |lines| - linesRead
    {
      ghost var remaining := lines[linesRead..];
      assert remaining[0] == lines[linesRead];
      assert remaining[1..] == lines[linesRead + 1..];
      var r := step(lines[linesRead], execs);
      linesRead := linesRead + 1;
      if r.None? {
        LoopOnBlank(remaining, step, execs);
        continue;
      }
      var reply := r.value;
      ghost var before := effects;
      effects := effects + reply.effects;
      if reply.status < 0 {
        LoopOnStop(remaining, step, execs, reply);
        ending := Quitted;
        return;
      }
      LoopOnGo(remaining, step, execs, reply);
      execs := execs + ExecCount(reply.effects);
      ghost var rest := Loop(lines[linesRead..], step, execs);
      assert before + (reply.effects + rest.effects) == effects + rest.effects;
    }
    ending := InputExhausted;
    assert lines[linesRead..] == [];
  }
}
