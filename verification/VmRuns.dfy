// The virtual machine running the events of a compiled program: the arrays of the machine
// go through the states of the whole-program theorems.
module VmRuns {
  import opened Words
  import opened Wrappers
  import opened Semantics
  import opened Machine
  import opened Boundaries
  import opened ExprCorrect
  import opened StmtCorrect
  import opened Analysis
  import opened Programs
  import opened Linker
  import Compiler
  import opened Runs
  import opened Layout
  import opened Pipeline
  import opened Live
  import opened Vm

  /** Slots that a handler of this program may use. */
  ghost function StackNeed(p: Program, e: nat, stackSize: nat): nat
    requires e < |p.events|
  {
    stackSize + if MissingSlot(HandledOf(p, e)) then 1 else 0
  }

  /** The state of the variables, `when` memory and messages of a machine. */
  ghost function StateOf(vm: VirtualMachine, code: seq<u16>): State
    reads vm, vm.bytecode, vm.variables
  {
    State(vm.variables[..], vm.Edges(code), vm.sent)
  }

  /** What holds at each step of a run that does not come to an open end. */
  lemma RunReady(p: Program, e: nat, stackSize: nat, st: State, n: nat)
    requires Linkable(p) && e < |p.events| && WellFormed(TreeGraph(p)) && StackSafe(TreeGraph(p), stackSize)
    requires !Escapes(HandledOf(p, e), st, n + 1)
    ensures var m := Run(ProgramWords(p), Setup(HandledOf(p, e), st), n);
            m.status.Active? ==>
              && m.pc < |ProgramWords(p)| < 65536 && Boundary(ProgramWords(p), m.pc)
              && Step(ProgramWords(p), m) == Run(ProgramWords(p), Setup(HandledOf(p, e), st), n + 1)
              && |Step(ProgramWords(p), m).stack| <= StackNeed(p, e, stackSize)
  {
    hide Linkable, ProgramWords, HandledOf, StackSafe, WellFormed, TreeGraph, Boundary, MissingSlot, Step,
         Framed, Exec, OpenEnd;
    var h := HandledOf(p, e);
    var m := Run(ProgramWords(p), Setup(h, st), n);
    if m.status.Active? {
      ProgramSafe(p, stackSize, e, st, n);
      ProgramSafe(p, stackSize, e, st, n + 1);
      WordsFit(p);
      SubCount(p, e);
      var chain :| Framed(h, chain, m);
      LiveBoundary(p, e, chain, m);
      NotYetOpen(p, e, st, n);
      var k := OneMore(ProgramWords(p), Setup(h, st), n);
    }
  }

  lemma NotYetOpen(p: Program, e: nat, st: State, n: nat)
    requires e < |p.events| && !Escapes(HandledOf(p, e), st, n + 1)
    ensures !Escapes(HandledOf(p, e), st, n)
    ensures !OpenEnd(HandledOf(p, e).g, Run(ProgramWords(p), Setup(HandledOf(p, e), st), n))
  {
    hide OpenEnd, Run, Setup, ProgramWords, NamedEvent, NamedSub, EventStarts;
  }

  lemma WordsFit(p: Program)
    requires Linkable(p)
    ensures |ProgramWords(p)| < 65536
  {
    hide ProgramWords, Linkable;
    ResolvedParts(p);
  }

  lemma SubCount(p: Program, e: nat)
    requires Linkable(p) && e < |p.events|
    ensures |HandledOf(p, e).g.calls| == |HandledOf(p, e).g.subs|
  {
  }

  /** Where the loop over AsebaVMStep leaves a machine that took n steps: at the step limit,
      a handler that is still active is interrupted. */
  function LeftAt(m: Machine, n: nat, stepsLimit: nat): Machine {
    if 0 < stepsLimit == n && m.status.Active? then m.(status := Interrupted) else m
  }

  /** AsebaDebugBareRun: the machine's arrays hold the state of the abstract run, its stack
      array is never exceeded, and it runs until the handler has halted or the step limit is
      reached. Reaching the limit is reported with the program counter, even if the last step
      was the end of the handler. The limit 0 means none; then the handler has to end. */
  method BareRun(vm: VirtualMachine, stepsLimit: nat, ghost ends: nat, ghost p: Program, ghost e: nat,
                 ghost stackSize: nat, ghost st: State)
    returns (reported: Option<nat>, ghost n: nat)
    requires Linkable(p) && e < |p.events| && WellFormed(TreeGraph(p)) && StackSafe(TreeGraph(p), stackSize)
    requires vm.Valid() && vm.Loaded(ProgramWords(p)) && vm.stack.Length >= StackNeed(p, e, stackSize)
    requires vm.View(ProgramWords(p)) == Setup(HandledOf(p, e), st)
    requires stepsLimit == 0 ==> !Run(ProgramWords(p), Setup(HandledOf(p, e), st), ends).status.Active?
    requires !Escapes(HandledOf(p, e), st, if stepsLimit > 0 then stepsLimit else ends)
    modifies vm, vm.bytecode, vm.variables, vm.stack
    ensures vm.Valid() && vm.Loaded(ProgramWords(p))
    ensures var m := Run(ProgramWords(p), Setup(HandledOf(p, e), st), n);
            && vm.View(ProgramWords(p)) == LeftAt(m, n, stepsLimit)
            && (!m.status.Active? || 0 < n == stepsLimit) && n <= (if stepsLimit > 0 then stepsLimit else ends)
            && reported == if 0 < n == stepsLimit then Some(m.pc) else None
  {
    hide Linkable, ProgramWords, HandledOf, StackSafe, WellFormed, TreeGraph, Boundary, StackNeed, Step, Run, Setup,
         Escapes;
    n := 0;
    reported := None;
    ghost var code, m0 := ProgramWords(p), Setup(HandledOf(p, e), st);
    SetupActive(p, e, st);
    RunZero(code, m0);
    if stepsLimit > 0 {
      var left := stepsLimit;
      while vm.status.Active? && left > 0
        invariant vm.Valid() && vm.Loaded(code) && n + left == stepsLimit
        invariant vm.View(code) == LeftAt(Run(code, m0, n), n, stepsLimit)
        invariant reported == if left == 0 then Some(Run(code, m0, n).pc) else None
      {
        Earlier(HandledOf(p, e), st, n + 1, if stepsLimit > 0 then stepsLimit else ends);
        RunReady(p, e, stackSize, st, n);
        vm.Step(code);
        left := left - 1;
        n := n + 1;
        if left == 0 {
          reported := Some(vm.pc);
          if vm.status.Active? { vm.status := Interrupted; }
        }
      }
    } else {
      while vm.status.Active?
        invariant vm.Valid() && vm.Loaded(code) && n <= ends && vm.View(code) == Run(code, m0, n)
        decreases ends - n
      {
        Earlier(HandledOf(p, e), st, n + 1, if stepsLimit > 0 then stepsLimit else ends);
        RunReady(p, e, stackSize, st, n);
        vm.Step(code);
        n := n + 1;
      }
    }
  }

  lemma Earlier(h: Handled, st: State, n: nat, limit: nat)
    requires !Escapes(h, st, limit) && n <= limit
    ensures !Escapes(h, st, n)
  {
    hide OpenEnd, Run;
  }

  lemma SetupActive(p: Program, e: nat, st: State)
    requires e < |p.events|
    ensures Setup(HandledOf(p, e), st).status.Active?
  {
  }

  lemma RunZero(code: seq<u16>, m: Machine)
    ensures Run(code, m, 0) == m
  {
  }

  // ---------------------------------------------------------------- dispatch

  /** AsebaVMGetEventAddress: search the event table. */
  method GetEventAddress(vm: VirtualMachine, event: nat, ghost p: Program) returns (address: nat)
    requires Linkable(p) && Ascending(Ids(p.events)) && vm.Loaded(ProgramWords(p))
    ensures forall e :: 0 <= e < |p.events| && p.events[e].id == event ==> address == EventStarts(p)[e]
    ensures event !in Ids(p.events) ==> address == 0
  {
    hide Linkable, ProgramWords, EventStarts, Boundary;
    ghost var ids, addrs := Ids(p.events), EventStarts(p);
    ghost var table := Table(ids, addrs);
    HeaderLoaded(vm, p);
    var size := vm.bytecode[0];
    var i := 1;
    while i < size
      invariant size == 2 * |ids| + 1 && i % 2 == 1 && 1 <= i <= size
      invariant forall k :: 0 <= k < (i - 1) / 2 ==> ids[k] != event
    {
      ghost var k := (i - 1) / 2;
      TableAt(ids, addrs, k);
      assert vm.bytecode[i] == table[2 * k] && vm.bytecode[i + 1] == table[2 * k + 1];
      if vm.bytecode[i] == event {
        assert forall e :: 0 <= e < |ids| ==> ids[e] == p.events[e].id;
        return vm.bytecode[i + 1];
      }
      i := i + 2;
    }
    assert forall e :: 0 <= e < |ids| ==> ids[e] == p.events[e].id;
    return 0;
  }

  /** The words of the event table are no branches, so that no run overwrites them. */
  lemma HeaderLoaded(vm: VirtualMachine, p: Program)
    requires Linkable(p) && vm.Loaded(ProgramWords(p))
    ensures 2 * |p.events| + 1 <= vm.bytecode.Length && vm.bytecode.Length > 0 && |p.events| < 30000
    ensures vm.bytecode[0] == 2 * |p.events| + 1
    ensures forall k :: 0 <= k < 2 * |p.events| ==> vm.bytecode[1 + k] == Table(Ids(p.events), EventStarts(p))[k]
    ensures forall e :: 0 <= e < |p.events| ==> Ids(p.events)[e] < 65536 && EventStarts(p)[e] < 65536
  {
    hide Linkable, ProgramWords, EventStarts, Boundary;
    var rest := TableFirst(p);
    var table := Table(Ids(p.events), EventStarts(p));
    HeaderPlain(p);
    forall k | 0 <= k < 2 * |p.events|
      ensures vm.bytecode[1 + k] == table[k]
    {
      assert ProgramWords(p)[1 + k] == table[k];
    }
  }

  lemma HeaderPlain(p: Program)
    requires Linkable(p)
    ensures U16(2 * |p.events| + 1) / 4096 != CONDITIONAL_BRANCH
    ensures forall k :: 0 <= k < 2 * |p.events| ==> Table(Ids(p.events), EventStarts(p))[k] / 4096 != CONDITIONAL_BRANCH
  {
    hide Compiler.EmittableProgram;
    var ids, es := Ids(p.events), EventCodes(p);
    var starts := EventStarts(p);
    forall e | 0 <= e < |es|
      ensures starts[e] < 4096
    {
      EventNonEmpty(p.events[e].body);
      StartsBound(es, 2 * |ids| + 1, e);
    }
    TableTransparent(ids, starts);
    forall k | 0 <= k < 2 * |p.events|
      ensures Table(ids, starts)[k] / 4096 != CONDITIONAL_BRANCH
    {
      assert Transparent(Table(ids, starts)[k]);
    }
  }

  /** AsebaVMSetupEvent: start a handler, if the program has one for the event. A handler that
      is still running is reported as killed, with its program counter. */
  method SetupEvent(vm: VirtualMachine, event: nat, ghost p: Program) returns (address: nat, reported: Option<nat>)
    requires Linkable(p) && Ascending(Ids(p.events)) && vm.Valid() && vm.Loaded(ProgramWords(p))
    modifies vm
    ensures vm.Valid() && vm.Loaded(ProgramWords(p)) && vm.sent == old(vm.sent)
    ensures forall e :: 0 <= e < |p.events| && p.events[e].id == event ==>
              address > 0 && vm.View(ProgramWords(p)) == Setup(HandledOf(p, e), old(StateOf(vm, ProgramWords(p))))
    ensures event !in Ids(p.events) ==> address == 0 && vm.View(ProgramWords(p)) == old(vm.View(ProgramWords(p)))
    ensures reported == if address > 0 && old(vm.status.Active?) then Some(old(vm.pc)) else None
  {
    hide Linkable, ProgramWords, EventStarts, Boundary, Ascending;
    address := GetEventAddress(vm, event, p);
    reported := None;
    forall e | 0 <= e < |p.events| && p.events[e].id == event
      ensures address > 0
    {
      ProgramPrepared(p, e);
    }
    if address > 0 {
      if vm.status.Active? {
        reported := Some(vm.pc);
      }
      vm.pc := address;
      vm.sp := -1;
      vm.status := Active;
      assert vm.stack[..0] == [];
    }
  }

  /** An event of a compiled program, from its arrival to the end of its handler. The machine
      is interrupted only if the handler is still running after as many steps as the limit
      allows; otherwise it has done what the tree semantics says. */
  method HandleEvent(vm: VirtualMachine, event: nat, stepsLimit: nat, ghost ends: nat, ghost p: Program, ghost e: nat,
                     ghost stackSize: nat)
    returns (reported: seq<nat>)
    requires Linkable(p) && Ascending(Ids(p.events)) && e < |p.events| && p.events[e].id == event
    requires WellFormed(TreeGraph(p)) && StackSafe(TreeGraph(p), stackSize)
    requires vm.Valid() && vm.Loaded(ProgramWords(p)) && vm.stack.Length >= StackNeed(p, e, stackSize)
    requires var m0 := Setup(HandledOf(p, e), StateOf(vm, ProgramWords(p)));
             stepsLimit == 0 ==> !Run(ProgramWords(p), m0, ends).status.Active?
    requires !Escapes(HandledOf(p, e), StateOf(vm, ProgramWords(p)), if stepsLimit > 0 then stepsLimit else ends)
    modifies vm, vm.bytecode, vm.variables, vm.stack
    ensures vm.Valid() && vm.Loaded(ProgramWords(p)) && !vm.status.Active?
    ensures vm.status.Interrupted? <==>
              var m0 := Setup(HandledOf(p, e), old(StateOf(vm, ProgramWords(p))));
              stepsLimit > 0 && Run(ProgramWords(p), m0, stepsLimit).status.Active?
    ensures !vm.status.Interrupted? ==>
              var h, fuel := HandledOf(p, e), if stepsLimit > 0 then stepsLimit else ends;
              var o := Exec(h.body, old(StateOf(vm, ProgramWords(p))), h.g.subs, false, fuel);
              Agrees(h, o, vm.View(ProgramWords(p)))
    ensures old(vm.status.Active?) ==> reported != [] && reported[0] == old(vm.pc)
    ensures vm.status.Interrupted? ==> reported != [] && reported[|reported| - 1] == vm.pc
  {
    hide Linkable, ProgramWords, HandledOf, StackSafe, WellFormed, TreeGraph, Boundary, StackNeed, Ascending, Exec,
         Run, Setup, Agrees, Escapes;
    ghost var code, m0, st := ProgramWords(p), Setup(HandledOf(p, e), StateOf(vm, ProgramWords(p))),
                              StateOf(vm, ProgramWords(p));
    var address, first := SetupEvent(vm, event, p);
    var second;
    ghost var n;
    second, n := BareRun(vm, stepsLimit, ends, p, e, stackSize, st);
    reported := (if first.Some? then [first.value] else []) + if second.Some? then [second.value] else [];
    ghost var m := Run(code, m0, n);
    if !m.status.Active? {
      HaltedAgrees(p, e, st, n, if stepsLimit > 0 then stepsLimit else ends);
      if stepsLimit > 0 { HaltedStays(code, m0, n, stepsLimit); }
      Earlier(HandledOf(p, e), st, n, if stepsLimit > 0 then stepsLimit else ends);
      HaltedStatus(p, e, st, n);
    }
  }

  /** A run is never interrupted from within. */
  lemma HaltedStatus(p: Program, e: nat, st: State, n: nat)
    requires Linkable(p) && e < |p.events| && !Run(ProgramWords(p), Setup(HandledOf(p, e), st), n).status.Active?
    requires !Escapes(HandledOf(p, e), st, n)
    ensures !Run(ProgramWords(p), Setup(HandledOf(p, e), st), n).status.Interrupted?
  {
    hide Linkable, ProgramWords, HandledOf, Exec, Run, Setup;
    HaltedAgrees(p, e, st, n, n);
  }

  /** A run that has halted after n steps has the result of the tree semantics, with more fuel too. */
  lemma HaltedAgrees(p: Program, e: nat, st: State, n: nat, limit: nat)
    requires Linkable(p) && e < |p.events| && n <= limit
    requires !Run(ProgramWords(p), Setup(HandledOf(p, e), st), n).status.Active?
    requires !Escapes(HandledOf(p, e), st, limit)
    ensures var h := HandledOf(p, e);
            Agrees(h, Exec(h.body, st, h.g.subs, false, limit), Run(ProgramWords(p), Setup(h, st), n))
  {
    hide Linkable, Exec, Run, Setup, Prepared, Escapes, Agrees;
    ProgramPrepared(p, e);
    HaltedStays(ProgramWords(p), Setup(HandledOf(p, e), st), n, limit);
    HaltedRunEnds(HandledOf(p, e), st, limit);
  }
}
