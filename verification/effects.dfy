/** What the monitor does to the world, recorded instead of performed: calls
    into the execution engine, the register printer and physical memory, and
    the lines it prints. */
module Effects {
  import opened Words

  datatype Effect =
    | Exec(steps: int)       // cpu_exec(steps): the C `int` argument as passed
    | ShowRegisters          // isa_reg_display()
    | ReadWord(addr: u32)    // paddr_read(addr, 4)
    | Output(line: string)   // one printed line, without its final newline

  /** The step count `c` passes to `cpu_exec`: as many instructions as the
      engine will run. */
  const Unbounded: int := -1

  /** What a command handler returns: its C status and the effects it caused. */
  datatype Reply = Reply(status: int, effects: seq<Effect>)

  /** The physical memory as the monitor sees it: the word at each address
      after a given number of execution requests (running the guest may
      change memory between two commands). */
  type Memory = (nat, u32) -> u32

  /** The addresses of the memory reads in a trace, in order. */
  function Reads(trace: seq<Effect>): (addrs: seq<u32>)
    ensures |addrs| <= |trace|
  {
    if |trace| == 0 then []
    else (if trace[0].ReadWord? then [trace[0].addr] else []) + Reads(trace[1..])
  }

  /** The lines printed in a trace, in order. */
  function Outputs(trace: seq<Effect>): (lines: seq<string>)
    ensures |lines| <= |trace|
  {
    if |trace| == 0 then []
    else (if trace[0].Output? then [trace[0].line] else []) + Outputs(trace[1..])
  }

  /** The number of execution requests in a trace: how far memory has moved
      on once the trace has happened. It is written as the size of the set of
      positions holding an `Exec` rather than as a recursion over the trace
      like `Reads`, so that proofs about the loop, which add these counts,
      do not unfold a recursive count at every line. */
  function ExecCount(trace: seq<Effect>): nat
  {
    |set i | 0 <= i < |trace| && trace[i].Exec?|
  }

  lemma {:induction false} ReadsAppend(a: seq<Effect>, b: seq<Effect>)
    ensures Reads(a + b) == Reads(a) + Reads(b)
    decreases |a|
  {
    if |a| == 0 {
      assert a + b == b;
    } else {
      assert (a + b)[0] == a[0];
      assert (a + b)[1..] == a[1..] + b;
      ReadsAppend(a[1..], b);
    }
  }

  lemma {:induction false} OutputsAppend(a: seq<Effect>, b: seq<Effect>)
    ensures Outputs(a + b) == Outputs(a) + Outputs(b)
    decreases |a|
  {
    if |a| == 0 {
      assert a + b == b;
    } else {
      assert (a + b)[0] == a[0];
      assert (a + b)[1..] == a[1..] + b;
      OutputsAppend(a[1..], b);
    }
  }
}
