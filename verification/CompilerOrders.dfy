/**
 When the order in which the generated code reads its operands shows: exactly the runs on which it
 reports something else than the textbook order.
 */
module CompilerOrders {
  import opened CompilerNames
  import opened CompilerSource

  // ---- Expressions ----

  predicate IsDivisionFault(f: Fault) { f == DivisionByZero || f == ModuloByZero }

  /** Evaluation reaches an unset variable whose right neighbour divides by zero before the variable is read. */
  predicate Overtaken(e: Expr, s: Store)
  {
    match e
    case Bin(_, l, r) =>
      if l.Var? && l.name !in s then
        r.Compound() && Eval(OperandsLate, r, s).Err? && IsDivisionFault(Eval(OperandsLate, r, s).fault)
      else Overtaken(l, s) || (Eval(LeftToRight, l, s).Ok? && Overtaken(r, s))
    case Un(_, e0) => Overtaken(e0, s)
    case _ => false
  }

  lemma {:induction false} FaultKinds(m: Order, e: Expr, s: Store)
    ensures Eval(m, e, s).Err? ==> Eval(m, e, s).fault == UndefinedVariable || IsDivisionFault(Eval(m, e, s).fault)
  {
    match e
    case Bin(_, l, r) => FaultKinds(m, l, s); FaultKinds(m, r, s);
    case Un(_, e0) => FaultKinds(m, e0, s);
    case _ =>
  }

  /** The two orders differ exactly on the overtaken expressions, where both fault. */
  lemma {:induction false} OrdersDifferExactly(e: Expr, s: Store)
    ensures Eval(LeftToRight, e, s) != Eval(OperandsLate, e, s) <==> Overtaken(e, s)
    ensures Overtaken(e, s) ==>
      && Eval(LeftToRight, e, s) == Err(UndefinedVariable)
      && Eval(OperandsLate, e, s).Err? && IsDivisionFault(Eval(OperandsLate, e, s).fault)
  {
    match e
    case Bin(_, l, r) =>
      OrdersDifferExactly(l, s);
      OrdersDifferExactly(r, s);
      FaultKinds(OperandsLate, r, s);
    case Un(_, e0) => OrdersDifferExactly(e0, s);
    case _ =>
  }

  predicate HasDivision(e: Expr)
  {
    match e
    case Bin(op, l, r) => op == Div || op == Mod || HasDivision(l) || HasDivision(r)
    case Un(_, e0) => HasDivision(e0)
    case _ => false
  }

  /** No bare variable stands to the left of an operand that contains a division. */
  predicate OrderSafe(e: Expr)
  {
    match e
    case Bin(_, l, r) => OrderSafe(l) && OrderSafe(r) && (l.Var? ==> !HasDivision(r))
    case Un(_, e0) => OrderSafe(e0)
    case _ => true
  }

  lemma {:induction false} NoDivisionFaults(m: Order, e: Expr, s: Store)
    requires !HasDivision(e)
    ensures Eval(m, e, s).Err? ==> Eval(m, e, s) == Err(UndefinedVariable)
  {
    match e
    case Bin(_, l, r) => NoDivisionFaults(m, l, s); NoDivisionFaults(m, r, s);
    case Un(_, e0) => NoDivisionFaults(m, e0, s);
    case _ =>
  }

  lemma {:induction false} SafeNotOvertaken(e: Expr, s: Store)
    requires OrderSafe(e)
    ensures !Overtaken(e, s)
  {
    match e
    case Bin(_, l, r) =>
      SafeNotOvertaken(l, s);
      SafeNotOvertaken(r, s);
      if !HasDivision(r) { NoDivisionFaults(OperandsLate, r, s); }
    case Un(_, e0) => SafeNotOvertaken(e0, s);
    case _ =>
  }

  /** Both orders yield a value on the same stores, and then the same value. */
  lemma OrdersAgreeOnValues(e: Expr, s: Store)
    ensures Eval(LeftToRight, e, s).Ok? <==> Eval(OperandsLate, e, s).Ok?
    ensures Eval(LeftToRight, e, s).Ok? ==> Eval(LeftToRight, e, s) == Eval(OperandsLate, e, s)
    ensures OrderSafe(e) ==> Eval(LeftToRight, e, s) == Eval(OperandsLate, e, s)
  {
    OrdersDifferExactly(e, s);
    if OrderSafe(e) { SafeNotOvertaken(e, s); }
  }

  /** `x + 1 / 0` with x unset: the textbook order reports x, the generated code the division. */
  lemma OrdersDifferOnFaults()
    ensures var e := Bin(Add, Var("x"), Bin(Div, IntLit(1), IntLit(0)));
            Eval(LeftToRight, e, map[]) == Err(UndefinedVariable)
            && Eval(OperandsLate, e, map[]) == Err(DivisionByZero)
  {
    var d := Bin(Div, IntLit(1), IntLit(0));
    assert Eval(OperandsLate, d, map[]) == Err(DivisionByZero);
  }

  // ---- Runs ----

  /** What can set the generated code apart: an overtaken expression, or an unset `x;` that it never reads. */
  datatype Slip = Overtake | Drop

  function OwnExpr(st: Stmt): Option<Expr>
  {
    match st
    case VarDecl(_, init) => init
    case Assign(_, e) => Some(e)
    case Return(ret) => ret
    case ExprStmt(e) => Some(e)
    case If(c, _, _) => Some(c)
    case While(c, _) => Some(c)
  }

  /** The statement's own expression slips. */
  predicate Slips(k: Slip, st: Stmt, s: Store)
  {
    match k
    case Overtake => OwnExpr(st).Some? && Overtaken(OwnExpr(st).value, s)
    case Drop => st.ExprStmt? && st.expr.Var? && st.expr.name !in s
  }

  predicate ReachesStmt(k: Slip, st: Stmt, s: Store, fuel: nat)
    decreases fuel, st, 1
  {
    match st
    case If(c, thn, els) =>
      || Slips(k, st, s)
      || (match Eval(LeftToRight, c, s)
          case Err(_) => false
          case Ok(v) => if v != 0 then Reaches(k, thn, s, fuel) else Reaches(k, els, s, fuel))
    case While(c, body) =>
      && fuel > 0
      && (|| Slips(k, st, s)
          || (&& Eval(LeftToRight, c, s).Ok? && Eval(LeftToRight, c, s).value != 0
              && (|| Reaches(k, body, s, fuel - 1)
                  || (match ExecStmts(LeftToRight, body, s, fuel - 1)
                      case Normal(s1) => ReachesStmt(k, st, s1, fuel - 1)
                      case _ => false))))
    case _ => Slips(k, st, s)
  }

  /** The left-to-right run comes to a statement that slips. */
  predicate Reaches(k: Slip, ss: seq<Stmt>, s: Store, fuel: nat)
    decreases fuel, ss, 0
  {
    && ss != []
    && (|| ReachesStmt(k, ss[0], s, fuel)
        || (match ExecStmt(LeftToRight, ss[0], s, fuel)
            case Normal(s1) => Reaches(k, ss[1..], s1, fuel)
            case _ => false))
  }

  /** The textbook outcome `a` and the generated code's outcome `b`, given which slips the run reaches. */
  predicate Verdict(a: Outcome, b: Outcome, overtakes: bool, drops: bool)
  {
    && (overtakes ==> a == Faulted(UndefinedVariable) && b.Faulted? && IsDivisionFault(b.fault))
    && (drops ==> a == Faulted(UndefinedVariable))
    && (!overtakes && !drops ==> a == b)
  }

  lemma {:induction false} VerdictStmt(st: Stmt, s: Store, fuel: nat)
    ensures Verdict(ExecStmt(LeftToRight, st, s, fuel), ExecStmt(OperandsLate, st, s, fuel),
                    ReachesStmt(Overtake, st, s, fuel), ReachesStmt(Drop, st, s, fuel))
    decreases fuel, st, 1
  {
    match st
    case VarDecl(_, init) => match init { case None => case Some(e) => OrdersDifferExactly(e, s); }
    case Assign(_, e) => OrdersDifferExactly(e, s);
    case Return(ret) => match ret { case None => case Some(e) => OrdersDifferExactly(e, s); }
    case ExprStmt(e) => OrdersDifferExactly(e, s);
    case If(c, thn, els) =>
      OrdersDifferExactly(c, s);
      VerdictStmts(thn, s, fuel);
      VerdictStmts(els, s, fuel);
    case While(c, body) =>
      OrdersDifferExactly(c, s);
      if fuel > 0 {
        VerdictStmts(body, s, fuel - 1);
        var r := ExecStmts(LeftToRight, body, s, fuel - 1);
        if r.Normal? { VerdictStmt(st, r.store, fuel - 1); }
      }
  }

  lemma {:induction false} VerdictStmts(ss: seq<Stmt>, s: Store, fuel: nat)
    ensures Verdict(ExecStmts(LeftToRight, ss, s, fuel), ExecStmts(OperandsLate, ss, s, fuel),
                    Reaches(Overtake, ss, s, fuel), Reaches(Drop, ss, s, fuel))
    decreases fuel, ss, 0
  {
    if ss != [] {
      VerdictStmt(ss[0], s, fuel);
      var r := ExecStmt(LeftToRight, ss[0], s, fuel);
      if r.Normal? { VerdictStmts(ss[1..], r.store, fuel); }
    }
  }

  /**
   Two runs differ exactly when an overtaken expression is reached, or an unset `x;` is reached and the
   generated code does not come to an undefined variable later on.
   */
  lemma RunsDifferExactly(main: seq<Stmt>, fuel: nat)
    ensures RunMain(LeftToRight, main, fuel) != RunMain(OperandsLate, main, fuel) <==>
            || Reaches(Overtake, main, map[], fuel)
            || (Reaches(Drop, main, map[], fuel) && RunMain(OperandsLate, main, fuel) != Faulted(UndefinedVariable))
    ensures Reaches(Overtake, main, map[], fuel) || Reaches(Drop, main, map[], fuel) ==>
            RunMain(LeftToRight, main, fuel) == Faulted(UndefinedVariable)
  {
    VerdictStmts(main, map[], fuel);
  }

  /** The statement `x;` differs exactly when x is unset. */
  lemma BareVariableDiffersExactly(x: string, s: Store, fuel: nat)
    ensures ExecStmt(LeftToRight, ExprStmt(Var(x)), s, fuel) != ExecStmt(OperandsLate, ExprStmt(Var(x)), s, fuel) <==> x !in s
  {
  }

  /** The exception is real: both report the declared but unset x, the source at `x;` and the generated code at the return. */
  lemma DropCanGoUnseen()
    ensures var main := [VarDecl("x", None), ExprStmt(Var("x")), Return(Some(Var("x")))];
            && Reaches(Drop, main, map[], 0)
            && RunMain(LeftToRight, main, 0) == RunMain(OperandsLate, main, 0) == Faulted(UndefinedVariable)
  {
    var main := [VarDecl("x", None), ExprStmt(Var("x")), Return(Some(Var("x")))];
    var use, tail := main[1..], main[2..];
    assert use == [ExprStmt(Var("x")), Return(Some(Var("x")))] && use[1..] == tail == [Return(Some(Var("x")))];
    assert ExecStmts(OperandsLate, tail, map[], 0) == Faulted(UndefinedVariable);
    assert ExecStmts(OperandsLate, use, map[], 0) == Faulted(UndefinedVariable);
    assert ExecStmts(LeftToRight, use, map[], 0) == Faulted(UndefinedVariable);
    assert Reaches(Drop, use, map[], 0);
  }

  // ---- Without the statements `x;` ----

  function StripStmt(st: Stmt): Stmt
    decreases st, 1
  {
    match st
    case If(c, thn, els) => If(c, Strip(thn), Strip(els))
    case While(c, body) => While(c, Strip(body))
    case _ => st
  }

  /** The program without its bare-variable statements. */
  function Strip(ss: seq<Stmt>): seq<Stmt>
    decreases ss, 0
  {
    if ss == [] then []
    else if ss[0].ExprStmt? && ss[0].expr.Var? then Strip(ss[1..])
    else [StripStmt(ss[0])] + Strip(ss[1..])
  }

  lemma {:induction false} StripStmtSame(st: Stmt, s: Store, fuel: nat)
    ensures ExecStmt(OperandsLate, StripStmt(st), s, fuel) == ExecStmt(OperandsLate, st, s, fuel)
    decreases fuel, st, 1
  {
    match st
    case If(c, thn, els) =>
      StripSame(thn, s, fuel);
      StripSame(els, s, fuel);
    case While(c, body) =>
      if fuel > 0 {
        StripSame(body, s, fuel - 1);
        var r := ExecStmts(OperandsLate, body, s, fuel - 1);
        if r.Normal? { StripStmtSame(st, r.store, fuel - 1); }
      }
    case _ =>
  }

  /** The generated code runs as if the bare-variable statements were not there. */
  lemma {:induction false} StripSame(ss: seq<Stmt>, s: Store, fuel: nat)
    ensures ExecStmts(OperandsLate, Strip(ss), s, fuel) == ExecStmts(OperandsLate, ss, s, fuel)
    decreases fuel, ss, 0
  {
    if ss != [] {
      StripStmtSame(ss[0], s, fuel);
      var r := ExecStmt(OperandsLate, ss[0], s, fuel);
      if r.Normal? { StripSame(ss[1..], r.store, fuel); }
      var rest := Strip(ss[1..]);
      assert ([StripStmt(ss[0])] + rest)[1..] == rest;
    }
  }

  predicate SafeStmt(st: Stmt)
    decreases st, 1
  {
    match st
    case VarDecl(_, init) => (match init case None => true case Some(e) => OrderSafe(e))
    case Assign(_, e) => OrderSafe(e)
    case Return(ret) => (match ret case None => true case Some(e) => OrderSafe(e))
    case ExprStmt(e) => OrderSafe(e)
    case If(c, thn, els) =>
      OrderSafe(c) && SafeStmts(thn) && SafeStmts(els)
    case While(c, body) => OrderSafe(c) && SafeStmts(body)
  }

  /** Every expression of the program is order-safe. */
  predicate SafeStmts(ss: seq<Stmt>)
    decreases ss, 0
  {
    ss == [] || (SafeStmt(ss[0]) && SafeStmts(ss[1..]))
  }

  predicate ReadsKeptStmt(st: Stmt)
    decreases st, 1
  {
    match st
    case ExprStmt(e) => !e.Var?
    case If(_, thn, els) => ReadsKept(thn) && ReadsKept(els)
    case While(_, body) => ReadsKept(body)
    case _ => true
  }

  /** No statement is a bare variable, whose read the generated code drops. */
  predicate ReadsKept(ss: seq<Stmt>)
    decreases ss, 0
  {
    ss == [] || (ReadsKeptStmt(ss[0]) && ReadsKept(ss[1..]))
  }

  lemma {:induction false} StripKept(ss: seq<Stmt>)
    ensures ReadsKept(Strip(ss))
    decreases ss, 0
  {
    if ss != [] {
      StripStmtKept(ss[0]);
      StripKept(ss[1..]);
      assert ([StripStmt(ss[0])] + Strip(ss[1..]))[1..] == Strip(ss[1..]);
    }
  }

  lemma {:induction false} StripStmtKept(st: Stmt)
    ensures !(st.ExprStmt? && st.expr.Var?) ==> ReadsKeptStmt(StripStmt(st))
    decreases st, 1
  {
    match st
    case If(_, thn, els) => StripKept(thn); StripKept(els);
    case While(_, body) => StripKept(body);
    case _ =>
  }

  lemma {:induction false} NoSlipStmt(st: Stmt, s: Store, fuel: nat)
    ensures ReadsKeptStmt(st) ==> !ReachesStmt(Drop, st, s, fuel)
    ensures SafeStmt(st) ==> !ReachesStmt(Overtake, st, s, fuel)
    decreases fuel, st, 1
  {
    if OwnExpr(st).Some? && OrderSafe(OwnExpr(st).value) { SafeNotOvertaken(OwnExpr(st).value, s); }
    match st
    case If(c, thn, els) =>
      NoSlip(thn, s, fuel);
      NoSlip(els, s, fuel);
    case While(c, body) =>
      if fuel > 0 {
        NoSlip(body, s, fuel - 1);
        var r := ExecStmts(LeftToRight, body, s, fuel - 1);
        if r.Normal? { NoSlipStmt(st, r.store, fuel - 1); }
      }
    case _ =>
  }

  lemma {:induction false} NoSlip(ss: seq<Stmt>, s: Store, fuel: nat)
    ensures ReadsKept(ss) ==> !Reaches(Drop, ss, s, fuel)
    ensures SafeStmts(ss) ==> !Reaches(Overtake, ss, s, fuel)
    decreases fuel, ss, 0
  {
    if ss != [] {
      NoSlipStmt(ss[0], s, fuel);
      var r := ExecStmt(LeftToRight, ss[0], s, fuel);
      if r.Normal? { NoSlip(ss[1..], r.store, fuel); }
    }
  }

  /** The generated code against the stripped source: the overtaken expressions are all that is left. */
  lemma StrippedRunsDifferExactly(main: seq<Stmt>, fuel: nat)
    ensures RunMain(LeftToRight, Strip(main), fuel) != RunMain(OperandsLate, main, fuel) <==> Reaches(Overtake, Strip(main), map[], fuel)
    ensures Reaches(Overtake, Strip(main), map[], fuel) ==> RunMain(OperandsLate, main, fuel).Faulted? && IsDivisionFault(RunMain(OperandsLate, main, fuel).fault)
  {
    StripSame(main, map[], fuel);
    StripKept(main);
    NoSlip(Strip(main), map[], fuel);
    VerdictStmts(Strip(main), map[], fuel);
  }

  /** The generated code's outcome against the textbook one, for a program with the given properties. */
  predicate SameUpToFaults(a: Outcome, b: Outcome, kept: bool, safe: bool)
  {
    && (!a.Faulted? || (kept && safe) ==> a == b)
    && (kept ==> (a.Faulted? <==> b.Faulted?))
  }

  /**
   A run that does not fault is the same in both orders.  Without bare-variable statements the two
   fault on the same runs, and an order-safe program also reports the same fault.
   */
  lemma OrdersAgree(ss: seq<Stmt>, s: Store, fuel: nat)
    ensures SameUpToFaults(ExecStmts(LeftToRight, ss, s, fuel), ExecStmts(OperandsLate, ss, s, fuel), ReadsKept(ss), SafeStmts(ss))
  {
    VerdictStmts(ss, s, fuel);
    NoSlip(ss, s, fuel);
  }

  // ---- More fuel changes nothing once a run has ended ----

  lemma {:induction false} FuelKeepsStmt(m: Order, st: Stmt, s: Store, a: nat, b: nat)
    requires a <= b && !ExecStmt(m, st, s, a).OutOfFuel?
    ensures ExecStmt(m, st, s, b) == ExecStmt(m, st, s, a)
    decreases a, st, 1
  {
    match st
    case If(c, thn, els) =>
      var v := Eval(m, c, s);
      if v.Ok? { if v.value != 0 { FuelKeeps(m, thn, s, a, b); } else { FuelKeeps(m, els, s, a, b); } }
    case While(c, body) =>
      var v := Eval(m, c, s);
      if v.Ok? && v.value != 0 {
        FuelKeeps(m, body, s, a - 1, b - 1);
        var r := ExecStmts(m, body, s, a - 1);
        if r.Normal? { FuelKeepsStmt(m, st, r.store, a - 1, b - 1); }
      }
    case _ =>
  }

  lemma {:induction false} FuelKeeps(m: Order, ss: seq<Stmt>, s: Store, a: nat, b: nat)
    requires a <= b && !ExecStmts(m, ss, s, a).OutOfFuel?
    ensures ExecStmts(m, ss, s, b) == ExecStmts(m, ss, s, a)
    decreases a, ss, 0
  {
    if ss != [] {
      FuelKeepsStmt(m, ss[0], s, a, b);
      var r := ExecStmt(m, ss[0], s, a);
      if r.Normal? { FuelKeeps(m, ss[1..], r.store, a, b); }
    }
  }

  /** A program has one outcome, whatever fuel it is found with. */
  lemma OneOutcome(m: Order, main: seq<Stmt>, a: nat, b: nat)
    requires !RunMain(m, main, a).OutOfFuel? && !RunMain(m, main, b).OutOfFuel?
    ensures RunMain(m, main, a) == RunMain(m, main, b)
  {
    if a <= b { FuelKeeps(m, main, map[], a, b); } else { FuelKeeps(m, main, map[], b, a); }
  }
}
