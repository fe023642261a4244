/**
 Compiler correctness: the virtual machine ends exactly when the source does, with the same result.
 */
module CompilerTheorem {
  import opened CompilerNames
  import opened CompilerSource
  import opened CompilerOrders
  import opened CompilerSim
  import opened CompilerMachine
  import opened CompilerBackend
  import IR = CompilerIR

  function Compile(main: seq<Stmt>): Program
  {
    Assemble(IR.GenMain(main).code)
  }

  /** The entry label of a compiled program is its first instruction. */
  lemma EntryPoint(main: seq<Stmt>)
    ensures MAIN_LABEL in Compile(main).labels
    ensures Start(Compile(main)) == Boundary(IR.GenMain(main).code, IR.State(0, map[]))
  {
    var ir := IR.GenMain(main).code;
    IR.MainLabelsUnique(main);
    IR.LabelIndexUnique(ir, MAIN_LABEL, 0);
    LabelAddress(ir, MAIN_LABEL);
  }

  /** The state of the machine after `n` steps of the compiled program. */
  function Execution(main: seq<Stmt>, n: nat): Status
  {
    EntryPoint(main);
    RunFor(Compile(main).code, Start(Compile(main)), n)
  }

  /** The machine result that a finished source run calls for. */
  function Expected(out: Outcome): Status
    requires out.Returned? || out.Faulted?
  {
    if out.Returned? then Halted(out.value) else Crashed(out.fault)
  }

  predicate Finished(out: Outcome) { out.Returned? || out.Faulted? }

  /** A finished source run is matched by the machine; an unfinished one keeps the machine busy at least as long. */
  lemma Forward(main: seq<Stmt>, fuel: nat) returns (n: nat)
    requires InScope(main)
    ensures Finished(RunMain(OperandsLate, main, fuel)) ==> Execution(main, n) == Expected(RunMain(OperandsLate, main, fuel))
    ensures !Finished(RunMain(OperandsLate, main, fuel)) ==> n >= fuel && Execution(main, n).Running?
  {
    hide RunFor, IR.RunFor, IR.Cost, RunMain, Compile, IR.GenMain, InScope, Assemble, Start;
    EntryPoint(main);
    var k := MainSim(main, fuel);
    n := RunSim(IR.GenMain(main).code, IR.State(0, map[]), k);
    CompileIs(main);
  }

  lemma CompileIs(main: seq<Stmt>)
    ensures Compile(main) == Assemble(IR.GenMain(main).code)
  {
  }

  lemma ExecutionMonotone(main: seq<Stmt>, a: nat, b: nat)
    requires a <= b
    ensures !Execution(main, a).Running? ==> Execution(main, b) == Execution(main, a)
    ensures Execution(main, b).Running? ==> Execution(main, a).Running?
  {
    EntryPoint(main);
    RunMonotone(Compile(main).code, Start(Compile(main)), a, b);
  }

  /** If the machine stops within `n` steps, the source stops with fuel `n + 1`, and with the same result. */
  lemma Backward(main: seq<Stmt>, n: nat)
    requires InScope(main) && !Execution(main, n).Running?
    ensures Finished(RunMain(OperandsLate, main, n + 1))
    ensures Expected(RunMain(OperandsLate, main, n + 1)) == Execution(main, n)
  {
    hide RunMain, InScope, Execution;
    var k := Forward(main, n + 1);
    if k <= n { ExecutionMonotone(main, k, n); } else { ExecutionMonotone(main, n, k); }
  }

  /** The main theorem: for every result, the source can end with it exactly when the machine does. */
  lemma CompilerCorrect(main: seq<Stmt>, r: Status)
    requires InScope(main) && !r.Running?
    ensures (exists n :: Execution(main, n) == r) <==>
            (exists fuel :: Finished(RunMain(OperandsLate, main, fuel)) && Expected(RunMain(OperandsLate, main, fuel)) == r)
  {
    hide RunMain, InScope, Execution;
    if n :| Execution(main, n) == r {
      Backward(main, n);
    }
    if fuel :| Finished(RunMain(OperandsLate, main, fuel)) && Expected(RunMain(OperandsLate, main, fuel)) == r {
      var n := Forward(main, fuel);
    }
  }

  /** No compiled program ever underflows its operand stack or jumps through an unresolved label. */
  lemma NoMachineFault(main: seq<Stmt>, n: nat)
    requires InScope(main)
    ensures Execution(main, n) != Crashed(StackUnderflow) && Execution(main, n) != Crashed(BadOperand)
  {
    if !Execution(main, n).Running? {
      Backward(main, n);
      SourceFaults(main, map[], n + 1);
    }
  }

  predicate SourceFault(f: Fault) { f == UndefinedVariable || IsDivisionFault(f) }

  lemma {:induction false} StmtFaults(st: Stmt, s: Store, fuel: nat)
    ensures ExecStmt(OperandsLate, st, s, fuel).Faulted? ==> SourceFault(ExecStmt(OperandsLate, st, s, fuel).fault)
    decreases fuel, st, 1
  {
    match st
    case VarDecl(_, init) => match init { case None => case Some(e) => FaultKinds(OperandsLate, e, s); }
    case Assign(_, e) => FaultKinds(OperandsLate, e, s);
    case Return(ret) => match ret { case None => case Some(e) => FaultKinds(OperandsLate, e, s); }
    case ExprStmt(e) => FaultKinds(OperandsLate, e, s);
    case If(c, thn, els) => FaultKinds(OperandsLate, c, s); SourceFaults(thn, s, fuel); SourceFaults(els, s, fuel);
    case While(c, body) =>
      FaultKinds(OperandsLate, c, s);
      if fuel > 0 {
        SourceFaults(body, s, fuel - 1);
        var r := ExecStmts(OperandsLate, body, s, fuel - 1);
        if r.Normal? { StmtFaults(st, r.store, fuel - 1); }
      }
  }

  lemma {:induction false} SourceFaults(ss: seq<Stmt>, s: Store, fuel: nat)
    ensures ExecStmts(OperandsLate, ss, s, fuel).Faulted? ==> SourceFault(ExecStmts(OperandsLate, ss, s, fuel).fault)
    decreases fuel, ss, 0
  {
    if ss != [] {
      StmtFaults(ss[0], s, fuel);
      var r := ExecStmt(OperandsLate, ss[0], s, fuel);
      if r.Normal? { SourceFaults(ss[1..], r.store, fuel); }
    }
  }

  // ---- Against the textbook left-to-right meaning ----

  ghost predicate MachineEnds(main: seq<Stmt>, r: Status)
  {
    exists n :: Execution(main, n) == r
  }

  ghost predicate SourceEnds(m: Order, main: seq<Stmt>, r: Status)
  {
    exists fuel :: Finished(RunMain(m, main, fuel)) && Expected(RunMain(m, main, fuel)) == r
  }

  /** The left-to-right run, given enough time, comes to such a statement. */
  ghost predicate Ever(k: Slip, main: seq<Stmt>)
  {
    exists fuel :: Reaches(k, main, map[], fuel)
  }

  /** Without its bare-variable statements the program reads an unset variable, and reads it in time. */
  ghost predicate UndefinedLater(main: seq<Stmt>)
  {
    exists fuel :: RunMain(LeftToRight, Strip(main), fuel) == Faulted(UndefinedVariable) && !Reaches(Overtake, Strip(main), map[], fuel)
  }

  lemma MachineEndsOnce(main: seq<Stmt>, r1: Status, r2: Status)
    requires MachineEnds(main, r1) && MachineEnds(main, r2) && !r1.Running? && !r2.Running?
    ensures r1 == r2
  {
    hide Execution;
    var a :| Execution(main, a) == r1;
    var b :| Execution(main, b) == r2;
    if a <= b { ExecutionMonotone(main, a, b); } else { ExecutionMonotone(main, b, a); }
  }

  lemma MachineIsLate(main: seq<Stmt>, r: Status)
    requires InScope(main) && !r.Running?
    ensures MachineEnds(main, r) <==> SourceEnds(OperandsLate, main, r)
  {
    hide InScope, Execution, RunMain;
    CompilerCorrect(main, r);
  }

  /** A program that slips reports an undefined variable left to right, and nothing else. */
  lemma SlippedSource(main: seq<Stmt>, r: Status)
    requires Ever(Overtake, main) || Ever(Drop, main)
    ensures SourceEnds(LeftToRight, main, r) <==> r == Crashed(UndefinedVariable)
  {
    hide RunMain, Reaches;
    var f: nat :| Reaches(Overtake, main, map[], f) || Reaches(Drop, main, map[], f);
    RunsDifferExactly(main, f);
    if SourceEnds(LeftToRight, main, r) {
      var g: nat :| Finished(RunMain(LeftToRight, main, g)) && Expected(RunMain(LeftToRight, main, g)) == r;
      OneOutcome(LeftToRight, main, f, g);
    }
    assert Expected(RunMain(LeftToRight, main, f)) == Crashed(UndefinedVariable);
  }

  /** A program that never slips ends alike in both orders. */
  lemma UnslippedSource(main: seq<Stmt>, r: Status)
    requires !Ever(Overtake, main) && !Ever(Drop, main)
    ensures SourceEnds(LeftToRight, main, r) <==> SourceEnds(OperandsLate, main, r)
  {
    hide RunMain, Reaches;
    forall fuel: nat ensures RunMain(LeftToRight, main, fuel) == RunMain(OperandsLate, main, fuel) {
      RunsDifferExactly(main, fuel);
    }
  }

  /** An overtaken expression makes the machine report a division where the source names a variable. */
  lemma OvertakenMachine(main: seq<Stmt>)
    requires InScope(main) && Ever(Overtake, main)
    ensures !MachineEnds(main, Crashed(UndefinedVariable))
  {
    hide InScope, Execution, RunMain, Reaches, MachineEnds;
    var f: nat :| Reaches(Overtake, main, map[], f);
    LateDivision(main, f);
    var r := Expected(RunMain(OperandsLate, main, f));
    MachineIsLate(main, r);
    if MachineEnds(main, Crashed(UndefinedVariable)) { MachineEndsOnce(main, r, Crashed(UndefinedVariable)); }
  }

  lemma LateDivision(main: seq<Stmt>, fuel: nat)
    requires Reaches(Overtake, main, map[], fuel)
    ensures var b := RunMain(OperandsLate, main, fuel); b.Faulted? && IsDivisionFault(b.fault)
  {
    VerdictStmts(main, map[], fuel);
  }

  lemma MachineUndefined(main: seq<Stmt>)
    requires InScope(main)
    ensures MachineEnds(main, Crashed(UndefinedVariable)) <==> UndefinedLater(main)
  {
    hide InScope, Execution, RunMain, Reaches, MachineEnds, Strip;
    var r := Crashed(UndefinedVariable);
    MachineIsLate(main, r);
    forall fuel: nat
      ensures RunMain(OperandsLate, main, fuel) == Faulted(UndefinedVariable) <==>
              RunMain(LeftToRight, Strip(main), fuel) == Faulted(UndefinedVariable) && !Reaches(Overtake, Strip(main), map[], fuel)
    {
      StrippedRunsDifferExactly(main, fuel);
    }
    if SourceEnds(OperandsLate, main, r) {
      var fuel: nat :| Finished(RunMain(OperandsLate, main, fuel)) && Expected(RunMain(OperandsLate, main, fuel)) == r;
      assert RunMain(OperandsLate, main, fuel) == Faulted(UndefinedVariable);
    }
    if UndefinedLater(main) {
      var fuel: nat :| RunMain(LeftToRight, Strip(main), fuel) == Faulted(UndefinedVariable) && !Reaches(Overtake, Strip(main), map[], fuel);
      assert Expected(RunMain(OperandsLate, main, fuel)) == r;
    }
  }

  /**
   The compiled program has exactly the results of the left-to-right meaning if and only if the run reaches no
   overtaken expression, and reaches an unset `x;` only when it would come to an undefined variable anyway.
   */
  lemma CompiledExactly(main: seq<Stmt>)
    requires InScope(main)
    ensures (forall r: Status | !r.Running? :: MachineEnds(main, r) <==> SourceEnds(LeftToRight, main, r)) <==>
            !Ever(Overtake, main) && (Ever(Drop, main) ==> UndefinedLater(main))
  {
    hide InScope, Ever, UndefinedLater, MachineEnds, SourceEnds;
    var undefined := Crashed(UndefinedVariable);
    MachineUndefined(main);
    if Ever(Overtake, main) { OvertakenMachine(main); }
    if Ever(Overtake, main) || Ever(Drop, main) { SlippedSource(main, undefined); }
    if !Ever(Overtake, main) && (Ever(Drop, main) ==> UndefinedLater(main)) {
      forall r: Status | !r.Running? ensures MachineEnds(main, r) <==> SourceEnds(LeftToRight, main, r) {
        if Ever(Drop, main) {
          SlippedSource(main, r);
          if MachineEnds(main, r) { MachineEndsOnce(main, r, undefined); }
        } else {
          UnslippedSource(main, r);
          MachineIsLate(main, r);
        }
      }
    }
  }

  /** A value is returned exactly as by the source without its statements `x;`. */
  lemma ReturnsStripped(main: seq<Stmt>, v: int)
    requires InScope(main)
    ensures MachineEnds(main, Halted(v)) <==> SourceEnds(LeftToRight, Strip(main), Halted(v))
  {
    hide InScope, Execution, RunMain, Reaches, MachineEnds, Strip;
    MachineIsLate(main, Halted(v));
    forall fuel: nat ensures RunMain(LeftToRight, Strip(main), fuel) == Returned(v) <==> RunMain(OperandsLate, main, fuel) == Returned(v) {
      StrippedRunsDifferExactly(main, fuel);
      StrippedSlips(main, fuel);
    }
    LateReturn(OperandsLate, main, v);
    LateReturn(LeftToRight, Strip(main), v);
  }

  lemma StrippedSlips(main: seq<Stmt>, fuel: nat)
    ensures Reaches(Overtake, Strip(main), map[], fuel) ==> RunMain(LeftToRight, Strip(main), fuel) == Faulted(UndefinedVariable)
  {
    RunsDifferExactly(Strip(main), fuel);
  }

  lemma LateReturn(m: Order, main: seq<Stmt>, v: int)
    ensures SourceEnds(m, main, Halted(v)) <==> exists fuel :: RunMain(m, main, fuel) == Returned(v)
  {
    hide RunMain;
    if SourceEnds(m, main, Halted(v)) {
      var fuel: nat :| Finished(RunMain(m, main, fuel)) && Expected(RunMain(m, main, fuel)) == Halted(v);
      assert RunMain(m, main, fuel) == Returned(v);
    }
    if fuel: nat :| RunMain(m, main, fuel) == Returned(v) {
      assert Expected(RunMain(m, main, fuel)) == Halted(v);
    }
  }

  /**
   Every value the source returns is returned by the machine; conversely unless the source stops at an unset `x;`
   and would have returned that value without it.
   */
  lemma ReturnsCorrect(main: seq<Stmt>, v: int)
    requires InScope(main)
    ensures SourceEnds(LeftToRight, main, Halted(v)) ==> MachineEnds(main, Halted(v))
    ensures (MachineEnds(main, Halted(v)) <==> SourceEnds(LeftToRight, main, Halted(v))) <==>
            !(Ever(Drop, main) && SourceEnds(LeftToRight, Strip(main), Halted(v)))
  {
    hide InScope, Ever, MachineEnds, SourceEnds, Strip;
    ReturnsStripped(main, v);
    if Ever(Overtake, main) || Ever(Drop, main) {
      SlippedSource(main, Halted(v));
      if Ever(Overtake, main) { OvertakenReturns(main, v); }
    } else {
      UnslippedSource(main, Halted(v));
      MachineIsLate(main, Halted(v));
    }
  }

  lemma OvertakenReturns(main: seq<Stmt>, v: int)
    requires InScope(main) && Ever(Overtake, main)
    ensures !MachineEnds(main, Halted(v))
  {
    hide InScope, Execution, RunMain, Reaches, MachineEnds;
    var f: nat :| Reaches(Overtake, main, map[], f);
    LateDivision(main, f);
    var r := Expected(RunMain(OperandsLate, main, f));
    MachineIsLate(main, r);
    if MachineEnds(main, Halted(v)) { MachineEndsOnce(main, r, Halted(v)); }
  }

  /** A test on the program text: order-safe and without bare-variable statements, it reports the very fault of the source. */
  lemma FaultsCorrect(main: seq<Stmt>, f: Fault)
    requires InScope(main) && ReadsKept(main) && SafeStmts(main)
    ensures MachineEnds(main, Crashed(f)) <==> SourceEnds(LeftToRight, main, Crashed(f))
  {
    hide InScope, MachineEnds, SourceEnds, Reaches;
    forall fuel: nat ensures !Reaches(Overtake, main, map[], fuel) && !Reaches(Drop, main, map[], fuel) {
      NoSlip(main, map[], fuel);
    }
    CompiledExactly(main);
  }

  function DroppingMain(): seq<Stmt>
  {
    [VarDecl("x", None), ExprStmt(Var("x")), Return(Some(IntLit(1)))]
  }

  /** The statement `x;` with x declared but unset faults in the source; its compiled form goes on and returns 1. */
  lemma BareVariableIsDropped()
    ensures InScope(DroppingMain())
    ensures RunMain(LeftToRight, DroppingMain(), 0) == Faulted(UndefinedVariable)
    ensures exists n :: Execution(DroppingMain(), n) == Halted(1)
  {
    hide Execution;
    DroppingScope();
    DroppingSource();
    var n := Forward(DroppingMain(), 0);
  }

  lemma DroppingSource()
    ensures RunMain(LeftToRight, DroppingMain(), 0) == Faulted(UndefinedVariable)
    ensures RunMain(OperandsLate, DroppingMain(), 0) == Returned(1)
  {
    var main := DroppingMain();
    var use, tail := main[1..], main[2..];
    assert use == [ExprStmt(Var("x")), Return(Some(IntLit(1)))] && use[1..] == tail == [Return(Some(IntLit(1)))];
    assert ExecStmts(OperandsLate, tail, map[], 0) == Returned(1);
    assert ExecStmts(OperandsLate, use, map[], 0) == Returned(1);
    assert ExecStmts(LeftToRight, use, map[], 0) == Faulted(UndefinedVariable);
  }

  lemma DroppingScope()
    ensures InScope(DroppingMain())
  {
  }
}
