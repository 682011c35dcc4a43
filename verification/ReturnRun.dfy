/** Running the interpreter until the routine it stands in returns to its caller. */
module ReturnRun {
  import opened Cpu6502
  import Isa
  import opened Oracle
  import opened FirstOccurrences

  datatype RunEnd = Returned(steps: nat) | StepLimitExceeded | Stopped(why: Isa.StepResult)

  /** State `k` executes an instruction called `path[k]` and leads to state `k + 1`. */
  ghost predicate Executes(table: Table, trace: seq<Isa.Cpu>, path: seq<Mnemonic>, k: nat)
    requires k < |path| && |trace| == |path| + 1
  {
    && Isa.Current(table, trace[k]).Valid() && Isa.Current(table, trace[k]).mnemonic == path[k]
    && Isa.Step(table, trace[k]) == Isa.Stepped(trace[k + 1])
  }

  /** A run: its states, and the instructions between them. */
  ghost predicate Trace(table: Table, trace: seq<Isa.Cpu>, path: seq<Mnemonic>) {
    |trace| == |path| + 1 && forall k :: 0 <= k < |path| ==> Executes(table, trace, path, k)
  }

  function Nesting(mn: Mnemonic): int {
    if mn.JSR? then 1 else if mn.RTS? then -1 else 0
  }

  /** Calls minus returns. */
  function Depth(path: seq<Mnemonic>): int {
    if path == [] then 0 else Depth(path[..|path| - 1]) + Nesting(path[|path| - 1])
  }

  /** The depth is how many more calls than returns there are. */
  lemma {:induction false} DepthCounts(path: seq<Mnemonic>)
    ensures Depth(path) == |Places(path, JSR)| - |Places(path, RTS)|
  {
    hide Places;
    if path == [] {
      NoPlaces(JSR);
      NoPlaces(RTS);
    } else {
      DepthCounts(path[..|path| - 1]);
      OneMorePlace(path, JSR);
      OneMorePlace(path, RTS);
    }
  }

  /** No prefix returns more often than it calls. */
  ghost predicate NeverBelow(path: seq<Mnemonic>) {
    forall k {:trigger path[..k]} :: 0 <= k <= |path| ==> Depth(path[..k]) >= 0
  }

  lemma TraceMore(table: Table, trace: seq<Isa.Cpu>, path: seq<Mnemonic>, mn: Mnemonic, more: Isa.Cpu)
    requires Trace(table, trace, path) && Isa.Current(table, trace[|path|]).Valid()
    requires Isa.Current(table, trace[|path|]).mnemonic == mn && Isa.Step(table, trace[|path|]) == Isa.Stepped(more)
    ensures Trace(table, trace + [more], path + [mn])
  {
    hide Isa.Current, Isa.Step;
    forall k | 0 <= k <= |path|
      ensures Executes(table, trace + [more], path + [mn], k)
    {
      if k < |path| { assert Executes(table, trace, path, k); }
    }
  }

  lemma NextIsValid(table: Table, s: Isa.Cpu)
    requires WellFormedTable(table)
    ensures Isa.Current(table, s).Valid()
    ensures Isa.Current(table, s).mnemonic == table[s.m.bus.mem[s.pc]].mnemonic
  {
    DecodedIsValid(table, Isa.Fetch(s.m.bus, s.pc), s.pc, 0);
  }

  lemma DepthMore(path: seq<Mnemonic>, mn: Mnemonic)
    ensures Depth(path + [mn]) == Depth(path) + Nesting(mn)
    ensures NeverBelow(path) && Depth(path) + Nesting(mn) >= 0 ==> NeverBelow(path + [mn])
  {
    var all := path + [mn];
    assert all[..|path|] == path && all[..|path| + 1] == all;
    assert forall k :: 0 <= k <= |path| ==> all[..k] == path[..k];
  }

  ghost predicate Refuses(table: Table, s: Isa.Cpu, why: Isa.StepResult) {
    Isa.Current(table, s).Valid() && Isa.Step(table, s) == why && !why.Stepped?
  }

  /** One step of the loop, with the instruction's name read from the opcode beforehand. */
  method StepOnce(cpu: Cpu, bus: FlatBus, table: Table, ghost trace: seq<Isa.Cpu>, ghost path: seq<Mnemonic>)
    returns (mn: Mnemonic, r: Isa.StepResult, ghost longer: seq<Isa.Cpu>)
    requires WellFormedTable(table) && Trace(table, trace, path) && trace[|path|] == Isa.Cpu(cpu.pc, cpu.Machine(bus))
    modifies cpu, bus
    ensures if r.Stepped? then longer == trace + [Isa.Cpu(cpu.pc, cpu.Machine(bus))] && Trace(table, longer, path + [mn])
            else trace[|path|] == Isa.Cpu(cpu.pc, cpu.Machine(bus)) && Refuses(table, trace[|path|], r)
  {
    ghost var s := trace[|path|];
    NextIsValid(table, s);
    var opcode := bus.Read(cpu.pc);
    mn := table[opcode].mnemonic;
    r := cpu.Step(bus, table);
    longer := trace;
    if r.Stepped? {
      TraceMore(table, trace, path, mn, r.cpu);
      longer := trace + [r.cpu];
    }
  }

  /**
   `run_until_rts`: stops after the first return that no call made since the start matches;
   until then calls never fall behind returns.
   */
  method RunUntilRts(cpu: Cpu, bus: FlatBus, table: Table, maxSteps: nat)
    returns (r: RunEnd, ghost trace: seq<Isa.Cpu>, ghost path: seq<Mnemonic>)
    requires WellFormedTable(table)
    modifies cpu, bus
    ensures Trace(table, trace, path) && trace[0] == old(Isa.Cpu(cpu.pc, cpu.Machine(bus)))
    ensures trace[|path|] == Isa.Cpu(cpu.pc, cpu.Machine(bus))
    ensures r.Returned? ==> 0 < r.steps == |path| <= maxSteps && NeverBelow(path[..|path| - 1]) && Depth(path) == -1
    ensures r.StepLimitExceeded? ==> |path| == maxSteps && NeverBelow(path)
    ensures r.Stopped? ==> |path| < maxSteps && NeverBelow(path) && Refuses(table, trace[|path|], r.why)
  {
    hide Refuses, Cpu.Machine;
    var depth := 0;
    var steps := 0;
    trace, path := [Isa.Cpu(cpu.pc, cpu.Machine(bus))], [];
    while true
      invariant steps == |path| <= maxSteps && Trace(table, trace, path)
      invariant trace[0] == old(Isa.Cpu(cpu.pc, cpu.Machine(bus)))
      invariant trace[|path|] == Isa.Cpu(cpu.pc, cpu.Machine(bus))
      invariant depth == Depth(path) && NeverBelow(path)
      decreases maxSteps - steps
    {
      if steps >= maxSteps {
        return StepLimitExceeded, trace, path;
      }
      var mn, step;
      ghost var longer;
      mn, step, longer := StepOnce(cpu, bus, table, trace, path);
      if !step.Stepped? {
        return Stopped(step), trace, path;
      }
      DepthMore(path, mn);
      assert (path + [mn])[..|path|] == path;
      trace, path := longer, path + [mn];
      steps := steps + 1;
      if mn.JSR? {
        depth := depth + 1;
      } else if mn.RTS? {
        if depth <= 0 {
          return Returned(steps), trace, path;
        }
        depth := depth - 1;
      }
    }
  }
}
