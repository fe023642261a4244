/**
 Which variable names the compiler is correct for: exactly those that are not the name of a temporary.
 */
module CompilerScope {
  import opened CompilerNames
  import opened CompilerSource
  import opened CompilerOrders
  import opened CompilerSim
  import opened CompilerMachine
  import opened CompilerBackend
  import opened CompilerTheorem
  import IR = CompilerIR

  // ---- Programs over given names ----

  ghost predicate ExprWithin(e: Expr, names: iset<string>)
  {
    match e
    case Var(x) => x in names
    case Bin(_, l, r) => ExprWithin(l, names) && ExprWithin(r, names)
    case Un(_, e0) => ExprWithin(e0, names)
    case _ => true
  }

  ghost predicate StmtWithin(st: Stmt, names: iset<string>)
    decreases st, 1
  {
    match st
    case VarDecl(x, init) => x in names && (match init case None => true case Some(e) => ExprWithin(e, names))
    case Assign(x, e) => x in names && ExprWithin(e, names)
    case Return(ret) => (match ret case None => true case Some(e) => ExprWithin(e, names))
    case ExprStmt(e) => ExprWithin(e, names)
    case If(c, thn, els) => ExprWithin(c, names) && Within(thn, names) && Within(els, names)
    case While(c, body) => ExprWithin(c, names) && Within(body, names)
  }

  /** The program's variables are all among the given names. */
  ghost predicate Within(ss: seq<Stmt>, names: iset<string>)
    decreases ss, 0
  {
    ss == [] || (StmtWithin(ss[0], names) && Within(ss[1..], names))
  }

  /** Identifiers, none of which reads as a number or is the name of a temporary. */
  ghost predicate Clear(names: iset<string>)
  {
    (forall x :: x in names ==> !IsConstant(x)) && forall k: nat :: Temp(k) !in names
  }

  lemma {:induction false} ClearExpr(e: Expr, names: iset<string>, bound: nat)
    requires Clear(names) && ExprWithin(e, names)
    ensures ExprOk(e, bound)
  {
    match e
    case Bin(_, l, r) => ClearExpr(l, names, bound); ClearExpr(r, names, bound);
    case Un(_, e0) => ClearExpr(e0, names, bound);
    case _ =>
  }

  lemma {:induction false} ClearStmt(st: Stmt, names: iset<string>, bound: nat)
    requires Clear(names) && StmtWithin(st, names)
    ensures StmtOk(st, bound)
    decreases st, 1
  {
    match st
    case VarDecl(_, init) => match init { case None => case Some(e) => ClearExpr(e, names, bound); }
    case Assign(_, e) => ClearExpr(e, names, bound);
    case Return(ret) => match ret { case None => case Some(e) => ClearExpr(e, names, bound); }
    case ExprStmt(e) => ClearExpr(e, names, bound);
    case If(c, thn, els) =>
      ClearExpr(c, names, bound);
      ClearStmts(thn, names, bound);
      ClearStmts(els, names, bound);
    case While(c, body) =>
      ClearExpr(c, names, bound);
      ClearStmts(body, names, bound);
  }

  lemma {:induction false} ClearStmts(ss: seq<Stmt>, names: iset<string>, bound: nat)
    requires Clear(names) && Within(ss, names)
    ensures StmtsOk(ss, bound)
    decreases ss, 0
  {
    if ss != [] {
      ClearStmt(ss[0], names, bound);
      ClearStmts(ss[1..], names, bound);
    }
  }

  // ---- Sequences of statements ----

  lemma {:induction false} GenAppend(a: seq<Stmt>, b: seq<Stmt>, t: nat, l: nat)
    ensures var g := IR.GenStmts(a, t, l);
            var h := IR.GenStmts(b, g.temps, g.labels);
            IR.GenStmts(a + b, t, l) == IR.StmtGen(g.code + h.code, h.temps, h.labels)
    decreases |a|
  {
    hide IR.GenStmt;
    if a == [] {
      assert a + b == b;
    } else {
      assert (a + b)[1..] == a[1..] + b;
      var g0 := IR.GenStmt(a[0], t, l);
      GenAppend(a[1..], b, g0.temps, g0.labels);
    }
  }

  lemma {:induction false} ExecAppend(m: Order, a: seq<Stmt>, b: seq<Stmt>, s: Store, fuel: nat)
    ensures var r := ExecStmts(m, a, s, fuel);
            ExecStmts(m, a + b, s, fuel) == if r.Normal? then ExecStmts(m, b, r.store, fuel) else r
    decreases |a|
  {
    hide ExecStmt;
    if a == [] {
      assert a + b == b;
    } else {
      assert (a + b)[1..] == a[1..] + b;
      var r := ExecStmt(m, a[0], s, fuel);
      if r.Normal? { ExecAppend(m, a[1..], b, r.store, fuel); }
    }
  }

  // ---- A program for each temporary's name ----

  const One: Expr := IntLit(1)

  /** `1 + 1;` k times: it takes k temporaries and does nothing else. */
  function Padding(k: nat): seq<Stmt>
  {
    if k == 0 then [] else [ExprStmt(Bin(Add, One, One))] + Padding(k - 1)
  }

  function Setup(k: nat): seq<Stmt>
  {
    [VarDecl(Temp(k), Some(One))] + Padding(k)
  }

  function Use(x: string): seq<Stmt>
  {
    [Return(Some(Bin(Add, Bin(Add, Var(x), One), Var(x))))]
  }

  /** Declare a variable named like temporary `k`, use up the temporaries before it, and add it up. */
  function Colliding(k: nat): seq<Stmt>
  {
    Setup(k) + Use(Temp(k))
  }

  lemma PadFacts(t: nat, s: Store, bound: nat, names: iset<string>)
    ensures var pad := ExprStmt(Bin(Add, One, One));
            && IR.GenStmt(pad, t, 0).temps == t + 1 && IR.GenStmt(pad, t, 0).labels == 0
            && ExecStmt(OperandsLate, pad, s, 0) == Normal(s)
            && StmtOk(pad, bound) && StmtWithin(pad, names)
  {
    var e := Bin(Add, One, One);
    assert IR.GenExpr(One, t).temps == t;
    assert IR.GenExpr(e, t).temps == t + 1;
    assert Eval(OperandsLate, e, s) == Ok(2);
    assert ExprOk(One, bound) && ExprWithin(One, names);
    assert ExprOk(e, bound) && ExprWithin(e, names);
  }

  lemma {:induction false} PaddingGen(k: nat, t: nat)
    ensures IR.GenStmts(Padding(k), t, 0).temps == t + k && IR.GenStmts(Padding(k), t, 0).labels == 0
    decreases k
  {
    if k > 0 {
      var pad := ExprStmt(Bin(Add, One, One));
      var rest := Padding(k - 1);
      assert ([pad] + rest)[1..] == rest;
      PadFacts(t, map[], 0, iset{});
      PaddingGen(k - 1, t + 1);
    }
  }

  lemma {:induction false} PaddingRuns(k: nat, s: Store)
    ensures ExecStmts(OperandsLate, Padding(k), s, 0) == Normal(s)
  {
    if k > 0 {
      var pad := ExprStmt(Bin(Add, One, One));
      var rest := Padding(k - 1);
      assert ([pad] + rest)[1..] == rest;
      PadFacts(0, s, 0, iset{});
      PaddingRuns(k - 1, s);
    }
  }

  lemma {:induction false} PaddingWithin(k: nat, bound: nat, names: iset<string>)
    ensures StmtsOk(Padding(k), bound) && Within(Padding(k), names)
  {
    if k > 0 {
      var rest := Padding(k - 1);
      assert ([ExprStmt(Bin(Add, One, One))] + rest)[1..] == rest;
      PadFacts(0, map[], bound, names);
      PaddingWithin(k - 1, bound, names);
    }
  }

  lemma SetupFacts(k: nat)
    ensures IR.GenStmts(Setup(k), 0, 0).temps == k && IR.GenStmts(Setup(k), 0, 0).labels == 0
    ensures ExecStmts(OperandsLate, Setup(k), map[], 0) == Normal(map[Temp(k) := 1])
    ensures StmtsOk(Setup(k), k) && NameOk(Temp(k), k)
  {
    hide Temp, IsConstant;
    var decl := VarDecl(Temp(k), Some(One));
    assert Setup(k)[1..] == Padding(k);
    assert IR.GenStmt(decl, 0, 0).temps == 0;
    assert ExecStmt(OperandsLate, decl, map[], 0) == Normal(map[Temp(k) := 1]);
    PaddingGen(k, 0);
    PaddingRuns(k, map[Temp(k) := 1]);
    PaddingWithin(k, k, iset{});
    GeneratedNamesApart(k, k, 0);
    forall j: nat | j < k ensures Temp(k) != Temp(j) { if Temp(k) == Temp(j) { TempInjective(k, j); } }
  }

  lemma CollidingWithin(k: nat, names: iset<string>)
    requires Temp(k) in names
    ensures Within(Colliding(k), names)
  {
    hide Temp;
    var x := Temp(k);
    var e := Bin(Add, Var(x), One);
    assert ExprWithin(e, names) && ExprWithin(Bin(Add, e, Var(x)), names);
    assert Use(x)[1..] == [] && StmtWithin(Use(x)[0], names);
    PaddingWithin(k, k, names);
    WithinAppend(Padding(k), Use(Temp(k)), names);
    assert Colliding(k)[1..] == Padding(k) + Use(x);
  }

  lemma {:induction false} WithinAppend(a: seq<Stmt>, b: seq<Stmt>, names: iset<string>)
    requires Within(a, names) && Within(b, names)
    ensures Within(a + b, names)
    decreases |a|
  {
    if a == [] {
      assert a + b == b;
    } else {
      assert (a + b)[1..] == a[1..] + b;
      WithinAppend(a[1..], b, names);
    }
  }

  lemma CollidingSource(k: nat)
    ensures RunMain(OperandsLate, Colliding(k), 0) == Returned(3)
  {
    hide Temp, ExecStmts, Padding;
    var x := Temp(k);
    var s := map[x := 1];
    SetupFacts(k);
    ExecAppend(OperandsLate, Setup(k), Use(x), map[], 0);
    UseSource(x, s);
  }

  lemma UseSource(x: string, s: Store)
    requires Lookup(x, s) == Ok(1)
    ensures ExecStmts(OperandsLate, Use(x), s, 0) == Returned(3)
  {
    assert Eval(OperandsLate, Bin(Add, Var(x), One), s) == Ok(2);
    assert Eval(OperandsLate, Bin(Add, Bin(Add, Var(x), One), Var(x)), s) == Ok(3);
  }

  lemma UseCode(k: nat)
    ensures IR.GenStmts(Use(Temp(k)), k, 0).code ==
            [IR.BinaryIR(Temp(k), Add, Temp(k), "1"), IR.BinaryIR(Temp(k + 1), Add, Temp(k), Temp(k)), IR.ReturnIR(Some(Temp(k + 1)))]
  {
    hide Temp;
    var x := Temp(k);
    var e := Bin(Add, Var(x), One);
    assert IntToStr(1) == "1";
    assert IR.GenExpr(e, k) == IR.ExprGen(x, [IR.BinaryIR(x, Add, x, "1")], k + 1);
    assert IR.GenExpr(Bin(Add, e, Var(x)), k) ==
      IR.ExprGen(Temp(k + 1), [IR.BinaryIR(x, Add, x, "1"), IR.BinaryIR(Temp(k + 1), Add, x, x)], k + 2);
    assert Use(x)[1..] == [];
    assert IR.GenStmt(Use(x)[0], k, 0).code ==
      [IR.BinaryIR(x, Add, x, "1"), IR.BinaryIR(Temp(k + 1), Add, x, x), IR.ReturnIR(Some(Temp(k + 1)))];
  }

  /** The sum reads the variable again after the first temporary has overwritten it. */
  lemma UseRun(ir: seq<IR.IR>, q: nat, k: nat, v: Store)
    requires At(ir, q, IR.GenStmts(Use(Temp(k)), k, 0).code) && Lookup(Temp(k), v) == Ok(1)
    ensures q <= |ir| && IR.RunFor(ir, IR.State(q, v), 3) == IR.Done(4)
  {
    UseCode(k);
    var code := IR.GenStmts(Use(Temp(k)), k, 0).code;
    AtHead(ir, q, code, 0);
    AtHead(ir, q, code, 1);
    AtHead(ir, q, code, 2);
    LiteralRoundTrip(1);
    assert IntToStr(1) == "1";
    GeneratedNamesApart(k, k, 0);
    GeneratedNamesApart(k + 1, k, 0);
    hide Temp, IsConstant, IntToStr, PyInt, At, IR.GenStmts;
    var v1 := v[Temp(k) := 2];
    var v2 := v1[Temp(k + 1) := 4];
    assert IR.Step(ir, IR.State(q, v)) == IR.Running(IR.State(q + 1, v1));
    assert IR.Step(ir, IR.State(q + 1, v1)) == IR.Running(IR.State(q + 2, v2));
    assert IR.Step(ir, IR.State(q + 2, v2)) == IR.Done(4);
    assert IR.RunFor(ir, IR.State(q + 2, v2), 1) == IR.Done(4);
    assert IR.RunFor(ir, IR.State(q + 1, v1), 2) == IR.Done(4);
  }

  /** The three-address code of the colliding program ends with 4. */
  lemma CollidingRun(k: nat) returns (n: nat)
    ensures IR.RunFor(IR.GenMain(Colliding(k)).code, IR.State(0, map[]), n) == IR.Done(4)
  {
    hide Temp, IR.RunFor, IR.Cost, IR.GenStmts, IR.GenMain, At, Agree, ExecStmts, StmtsOk, NameOk, Setup, Use, IR.UniqueLabels;
    var main := Colliding(k);
    var ir := IR.GenMain(main).code;
    var g := IR.GenStmts(Setup(k), 0, 0);
    SetupFacts(k);
    MainStart(main);
    GenAppend(Setup(k), Use(Temp(k)), 0, 0);
    AtSplit(ir, 1, g.code, IR.GenStmts(Use(Temp(k)), k, 0).code);
    Nothing(k);
    var n0, v := StmtsSim(ir, 1, Setup(k), 0, 0, k, map[], map[], 0);
    var q := 1 + |g.code|;
    Agreed(map[Temp(k) := 1], v, k, Temp(k));
    UseRun(ir, q, k, v);
    StepOver(ir, 0, map[]);
    Then(ir, IR.State(0, map[]), 1, IR.State(1, map[]), n0);
    Then(ir, IR.State(0, map[]), 1 + n0, IR.State(q, v), 3);
    n := 1 + n0 + 3;
  }

  lemma Nothing(bound: nat)
    ensures Agree(map[], map[], bound)
  {
  }

  lemma Agreed(s: Store, v: Store, bound: nat, x: string)
    requires Agree(s, v, bound) && NameOk(x, bound)
    ensures Lookup(x, v) == Lookup(x, s)
  {
  }

  /** A variable named like any temporary: the source returns 3, its compiled form 4. */
  lemma Collision(k: nat)
    ensures RunMain(OperandsLate, Colliding(k), 0) == Returned(3)
    ensures exists n :: Execution(Colliding(k), n) == Halted(4)
  {
    hide RunMain, Colliding, IR.RunFor, RunFor, IR.GenMain, Compile, Assemble, Start;
    var main := Colliding(k);
    CollidingSource(k);
    var k0 := CollidingRun(k);
    EntryPoint(main);
    CompileIs(main);
    var n := RunSim(IR.GenMain(main).code, IR.State(0, map[]), k0);
    assert Execution(main, n) == Halted(4);
  }

  // ---- The exact scope ----

  /** The compiled program has exactly the results of its source. */
  ghost predicate CompiledRight(main: seq<Stmt>)
  {
    forall r: Status | !r.Running? :: MachineEnds(main, r) <==> SourceEnds(OperandsLate, main, r)
  }

  lemma CollidingIsWrong(k: nat)
    ensures !CompiledRight(Colliding(k))
  {
    hide RunMain, Colliding, Execution;
    var main := Colliding(k);
    Collision(k);
    assert MachineEnds(main, Halted(4));
    if SourceEnds(OperandsLate, main, Halted(4)) {
      var fuel: nat :| Finished(RunMain(OperandsLate, main, fuel)) && Expected(RunMain(OperandsLate, main, fuel)) == Halted(4);
      OneOutcome(OperandsLate, main, 0, fuel);
    }
  }

  lemma InScopeIsRight(main: seq<Stmt>)
    requires InScope(main)
    ensures CompiledRight(main)
  {
    hide MachineEnds, SourceEnds, InScope;
    forall r: Status | !r.Running? ensures MachineEnds(main, r) <==> SourceEnds(OperandsLate, main, r) {
      MachineIsLate(main, r);
    }
  }

  lemma ClearIsRight(main: seq<Stmt>, names: iset<string>)
    requires Clear(names) && Within(main, names)
    ensures CompiledRight(main)
  {
    hide CompiledRight;
    ClearStmts(main, names, IR.GenMain(main).temps);
    InScopeIsRight(main);
  }

  /** Every program over a set of identifiers is compiled correctly if and only if none of them names a temporary. */
  lemma ScopeExactly(names: iset<string>)
    requires forall x :: x in names ==> !IsConstant(x)
    ensures (forall main | Within(main, names) :: CompiledRight(main)) <==> forall k: nat :: Temp(k) !in names
  {
    hide CompiledRight, Within, IsConstant, Temp, Colliding;
    if k: nat :| Temp(k) in names {
      CollidingWithin(k, names);
      CollidingIsWrong(k);
    } else {
      forall main | Within(main, names) ensures CompiledRight(main) { ClearIsRight(main, names); }
    }
  }

  function CollidingMain(): seq<Stmt>
  {
    [VarDecl("t0", Some(IntLit(1))), Return(Some(Bin(Add, Bin(Add, Var("t0"), IntLit(1)), Var("t0"))))]
  }

  /** The shortest such program has a variable called t0. */
  lemma TempCollision()
    ensures !InScope(CollidingMain())
    ensures RunMain(OperandsLate, CollidingMain(), 0) == Returned(3)
    ensures exists n :: Execution(CollidingMain(), n) == Halted(4)
  {
    hide RunMain, Execution, InScope, CompiledRight;
    assert Temp(0) == "t0";
    assert CollidingMain() == Colliding(0);
    Collision(0);
    CollidingIsWrong(0);
    if InScope(CollidingMain()) { InScopeIsRight(CollidingMain()); }
  }
}
