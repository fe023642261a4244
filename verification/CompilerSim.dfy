/**
 Source to three-address code: running the generated code does what the statement means.
 */
module CompilerSim {
  import opened CompilerNames
  import opened CompilerSource
  import opened CompilerIR

  // ---- Which programs: no user name is read as a constant or is one of the temporaries used ----

  predicate NameOk(x: string, bound: nat)
  {
    !IsConstant(x) && forall k :: 0 <= k < bound ==> x != Temp(k)
  }

  predicate ExprOk(e: Expr, bound: nat)
  {
    match e
    case Var(x) => NameOk(x, bound)
    case Bin(_, l, r) => ExprOk(l, bound) && ExprOk(r, bound)
    case Un(_, e0) => ExprOk(e0, bound)
    case _ => true
  }

  predicate StmtOk(st: Stmt, bound: nat)
    decreases st, 1
  {
    match st
    case VarDecl(x, init) => NameOk(x, bound) && (match init case None => true case Some(e) => ExprOk(e, bound))
    case Assign(x, e) => NameOk(x, bound) && ExprOk(e, bound)
    case Return(ret) => (match ret case None => true case Some(e) => ExprOk(e, bound))
    case ExprStmt(e) => ExprOk(e, bound)
    case If(c, thn, els) => ExprOk(c, bound) && StmtsOk(thn, bound) && StmtsOk(els, bound)
    case While(c, body) => ExprOk(c, bound) && StmtsOk(body, bound)
  }

  predicate StmtsOk(ss: seq<Stmt>, bound: nat)
    decreases ss, 0
  {
    ss == [] || (StmtOk(ss[0], bound) && StmtsOk(ss[1..], bound))
  }

  /** A program whose names keep clear of the temporaries its own compilation allocates. */
  predicate InScope(main: seq<Stmt>)
  {
    StmtsOk(main, GenMain(main).temps)
  }

  // ---- Stores ----

  /** The machine store agrees with the source store on every name that is not a temporary. */
  ghost predicate Agree(s: Store, v: Store, bound: nat)
  {
    forall x :: NameOk(x, bound) ==> Lookup(x, s) == Lookup(x, v)
  }

  ghost predicate TempIn(x: string, lo: nat, hi: nat)
  {
    exists k :: lo <= k < hi && x == Temp(k)
  }

  ghost predicate SameOutside(v: Store, v': Store, lo: nat, hi: nat)
  {
    forall x :: !TempIn(x, lo, hi) ==> Lookup(x, v) == Lookup(x, v')
  }

  lemma AgreeAfter(s: Store, v: Store, v': Store, bound: nat, lo: nat, hi: nat)
    requires Agree(s, v, bound) && SameOutside(v, v', lo, hi) && hi <= bound
    ensures Agree(s, v', bound)
  {
    forall x | NameOk(x, bound) ensures Lookup(x, s) == Lookup(x, v') {
      assert !TempIn(x, lo, hi);
    }
  }

  lemma SameOutsideTrans(a: Store, b: Store, c: Store, lo: nat, mid: nat, hi: nat)
    requires lo <= mid <= hi && SameOutside(a, b, lo, mid) && SameOutside(b, c, mid, hi)
    ensures SameOutside(a, c, lo, hi)
  {
    forall x | !TempIn(x, lo, hi) ensures Lookup(x, a) == Lookup(x, c) {
      assert !TempIn(x, lo, mid) && !TempIn(x, mid, hi);
    }
  }

  lemma SetTemp(v: Store, k: nat, n: int)
    ensures SameOutside(v, v[Temp(k) := n], k, k + 1)
  {
    forall x | !TempIn(x, k, k + 1) ensures Lookup(x, v) == Lookup(x, v[Temp(k) := n]) {
      assert x != Temp(k);
    }
  }

  lemma SetUser(s: Store, v: Store, bound: nat, x: string, n: int)
    requires Agree(s, v, bound)
    ensures Agree(s[x := n], v[x := n], bound)
  {
    forall y | NameOk(y, bound) ensures Lookup(y, s[x := n]) == Lookup(y, v[x := n]) {
      assert Lookup(y, s) == Lookup(y, v);
    }
  }

  // ---- Code placement ----

  predicate At(ir: seq<IR>, p: nat, code: seq<IR>)
  {
    p + |code| <= |ir| && ir[p..p + |code|] == code
  }

  lemma AtSplit(ir: seq<IR>, p: nat, a: seq<IR>, b: seq<IR>)
    requires At(ir, p, a + b)
    ensures At(ir, p, a) && At(ir, p + |a|, b)
  {
    assert ir[p..p + |a|] == (a + b)[..|a|] == a;
    assert ir[p + |a|..p + |a| + |b|] == (a + b)[|a|..] == b;
  }

  lemma AtHead(ir: seq<IR>, p: nat, code: seq<IR>, i: nat)
    requires At(ir, p, code) && i < |code|
    ensures p + i < |ir| && ir[p + i] == code[i]
  {
    assert ir[p..p + |code|][i] == code[i];
  }

  /** Continue a run by `b` more steps. */
  lemma Then(ir: seq<IR>, st: State, a: nat, mid: State, b: nat)
    requires st.pc <= |ir| && RunFor(ir, st, a) == Running(mid)
    ensures mid.pc <= |ir|
    ensures RunFor(ir, st, a + b) == RunFor(ir, mid, b)
    ensures Cost(ir, st, a + b) == Cost(ir, st, a) + Cost(ir, mid, b)
  {
    RunCompose(ir, st, a, b);
  }

  /** Code of any length can be at `p` only within the program; no step has been taken yet. */
  lemma Here(ir: seq<IR>, p: nat, code: seq<IR>, v: Store)
    requires At(ir, p, code)
    ensures p <= |ir| && RunFor(ir, State(p, v), 0) == Running(State(p, v)) && Cost(ir, State(p, v), 0) == 0
  {
  }

  // ---- Expressions ----

  /** The operand an expression leaves: a literal, its own variable, or a fresh temporary. */
  lemma OperandStable(e: Expr, t: nat, bound: nat, v: Store, v': Store, hi: nat)
    requires ExprOk(e, bound) && GenExpr(e, t).temps <= hi <= bound
    requires SameOutside(v, v', GenExpr(e, t).temps, hi)
    ensures OperandValue(GenExpr(e, t).result, v) == OperandValue(GenExpr(e, t).result, v')
  {
    var g := GenExpr(e, t);
    if !IsConstant(g.result) {
      assert !TempIn(g.result, g.temps, hi) by {
        if TempIn(g.result, g.temps, hi) {
          var k :| g.temps <= k < hi && g.result == Temp(k);
          match e
          case IntLit(n) => LiteralRoundTrip(n);
          case BoolLit(b) =>
          case Var(x) =>
          case Bin(_, l, r) => TempInjective(g.temps - 1, k);
          case Un(_, _) => TempInjective(g.temps - 1, k);
        }
      }
    }
  }

  lemma LeafValue(e: Expr, t: nat, bound: nat, s: Store, v: Store)
    requires !e.Compound() && ExprOk(e, bound) && Agree(s, v, bound)
    ensures OperandValue(GenExpr(e, t).result, v) == Eval(OperandsLate, e, s)
  {
    match e
    case IntLit(n) => LiteralRoundTrip(n);
    case BoolLit(b) =>
      LiteralRoundTrip(if b then 1 else 0);
      assert IntToStr(1) == "1" && IntToStr(0) == "0";
    case Var(x) =>
  }

  /** Whether the code of `e` itself faults; a bare operand is only read by whoever uses it. */
  predicate CodeFaults(e: Expr, s: Store)
  {
    e.Compound() && Eval(OperandsLate, e, s).Err?
  }

  ghost predicate ExprSimulates(ir: seq<IR>, p: nat, e: Expr, t: nat, s: Store, v: Store, n: nat, v': Store)
    requires p <= |ir|
  {
    if CodeFaults(e, s) then RunFor(ir, State(p, v), n) == Failed(Eval(OperandsLate, e, s).fault)
    else
      && RunFor(ir, State(p, v), n) == Running(State(p + |GenExpr(e, t).code|, v'))
      && SameOutside(v, v', t, GenExpr(e, t).temps)
      && OperandValue(GenExpr(e, t).result, v') == Eval(OperandsLate, e, s)
  }

  /**
   The code of `e` either faults as `e` does, or runs to its end with the value of `e` readable
   from the result operand, having touched only its own temporaries.
   */
  lemma {:induction false} ExprSim(ir: seq<IR>, p: nat, e: Expr, t: nat, bound: nat, s: Store, v: Store)
    returns (n: nat, v': Store)
    requires ExprOk(e, bound) && GenExpr(e, t).temps <= bound
    requires At(ir, p, GenExpr(e, t).code) && Agree(s, v, bound)
    ensures ExprSimulates(ir, p, e, t, s, v, n, v')
    decreases e, 1
  {
    match e
    case Un(_, _) => n, v' := UnSim(ir, p, e, t, bound, s, v);
    case Bin(_, _, _) => n, v' := BinSim(ir, p, e, t, bound, s, v);
    case _ =>
      n, v' := 0, v;
      LeafValue(e, t, bound, s, v);
  }

  lemma {:induction false} UnSim(ir: seq<IR>, p: nat, e: Expr, t: nat, bound: nat, s: Store, v: Store)
    returns (n: nat, v': Store)
    requires e.Un? && ExprOk(e, bound) && GenExpr(e, t).temps <= bound
    requires At(ir, p, GenExpr(e, t).code) && Agree(s, v, bound)
    ensures ExprSimulates(ir, p, e, t, s, v, n, v')
    decreases e, 0
  {
    hide RunFor, Cost, Agree, NameOk, At, LabelIndex, IsConstant, OperandValue, SameOutside, NatToStr, ApplyUn, StripMinus;
    var g0 := GenExpr(e.operand, t);
    var last := UnaryIR(Temp(g0.temps), e.uop, g0.result);
    AtSplit(ir, p, g0.code, [last]);
    n, v' := ExprSim(ir, p, e.operand, t, bound, s, v);
    if !CodeFaults(e.operand, s) {
      AtHead(ir, p + |g0.code|, [last], 0);
      n, v' := UseOperands(ir, p, e, t, s, v, n, v', g0.temps, p + |g0.code|);
    }
  }

  lemma {:induction false} BinSim(ir: seq<IR>, p: nat, e: Expr, t: nat, bound: nat, s: Store, v: Store)
    returns (n: nat, v': Store)
    requires e.Bin? && ExprOk(e, bound) && GenExpr(e, t).temps <= bound
    requires At(ir, p, GenExpr(e, t).code) && Agree(s, v, bound)
    ensures ExprSimulates(ir, p, e, t, s, v, n, v')
    decreases e, 0
  {
    hide RunFor, Cost, Agree, NameOk, At, LabelIndex, IsConstant, OperandValue, SameOutside, NatToStr, ApplyBin, StripMinus, Step, Temp;
    var gl := GenExpr(e.left, t);
    var gr := GenExpr(e.right, gl.temps);
    var last := BinaryIR(Temp(gr.temps), e.op, gl.result, gr.result);
    AtSplit(ir, p, gl.code + gr.code, [last]);
    AtSplit(ir, p, gl.code, gr.code);
    var v1;
    n, v1 := ExprSim(ir, p, e.left, t, bound, s, v);
    v' := v1;
    if !CodeFaults(e.left, s) {
      AgreeAfter(s, v, v1, bound, t, gl.temps);
      var mid := State(p + |gl.code|, v1);
      var n2;
      n2, v' := ExprSim(ir, mid.pc, e.right, gl.temps, bound, s, v1);
      Then(ir, State(p, v), n, mid, n2);
      n := n + n2;
      if !CodeFaults(e.right, s) {
        OperandStable(e.left, t, bound, v1, v', gr.temps);
        SameOutsideTrans(v, v1, v', t, gl.temps, gr.temps);
        AtHead(ir, p + |gl.code + gr.code|, [last], 0);
        n, v' := UseOperands(ir, p, e, t, s, v, n, v', gr.temps, p + |gl.code + gr.code|);
      }
    }
  }

  /** The closing instruction of a compound expression, once its operands are in place. */
  lemma UseOperands(ir: seq<IR>, p: nat, e: Expr, t: nat, s: Store, v0: Store, n0: nat, v: Store, k: nat, q: nat)
    returns (n: nat, v': Store)
    requires e.Compound() && GenExpr(e, t).temps == k + 1 && GenExpr(e, t).result == Temp(k) && t <= k
    requires p <= q < |ir| && q + 1 == p + |GenExpr(e, t).code| && SameOutside(v0, v, t, k)
    requires RunFor(ir, State(p, v0), n0) == Running(State(q, v))
    requires ir[q].BinaryIR? || ir[q].UnaryIR?
    requires ir[q].dest == Temp(k)
    requires Eval(OperandsLate, e, s) == if ir[q].BinaryIR? then BinaryResult(ir[q], v) else UnaryResult(ir[q], v)
    ensures ExprSimulates(ir, p, e, t, s, v0, n, v')
  {
    hide RunFor, Cost, Eval, GenExpr, BinaryResult, UnaryResult, NatToStr, SameOutside, OperandValue;
    Then(ir, State(p, v0), n0, State(q, v), 1);
    RunStep(ir, State(q, v));
    n := n0 + 1;
    v' := LastTemp(e, k, v0, v, t, s);
  }

  /** The store after the instruction that sets the result temporary of a compound expression. */
  lemma LastTemp(e: Expr, k: nat, v0: Store, v: Store, t: nat, s: Store) returns (v': Store)
    requires e.Compound() && GenExpr(e, t).temps == k + 1 && GenExpr(e, t).result == Temp(k)
    requires t <= k && SameOutside(v0, v, t, k)
    ensures Eval(OperandsLate, e, s).Ok? ==>
              && v' == v[Temp(k) := Eval(OperandsLate, e, s).value]
              && SameOutside(v0, v', t, k + 1)
              && OperandValue(Temp(k), v') == Eval(OperandsLate, e, s)
  {
    v' := v;
    var r := Eval(OperandsLate, e, s);
    if r.Ok? {
      v' := v[Temp(k) := r.value];
      SetTemp(v, k, r.value);
      SameOutsideTrans(v0, v, v', t, k, k + 1);
      GeneratedNamesApart(k, k, 0);
    }
  }

  // ---- Statements ----

  /** Evaluate an expression, then execute the one instruction that uses its operand. */
  lemma EvalThenUse(ir: seq<IR>, p: nat, e: Expr, t: nat, bound: nat, s: Store, v: Store, use: IR)
    returns (n: nat, v': Store)
    requires ExprOk(e, bound) && GenExpr(e, t).temps <= bound
    requires At(ir, p, GenExpr(e, t).code + [use]) && Agree(s, v, bound)
    ensures p + |GenExpr(e, t).code| < |ir| && ir[p + |GenExpr(e, t).code|] == use
    ensures CodeFaults(e, s) ==> RunFor(ir, State(p, v), n) == Failed(Eval(OperandsLate, e, s).fault)
    ensures !CodeFaults(e, s) ==>
              && n > 0 && Agree(s, v', bound)
              && OperandValue(GenExpr(e, t).result, v') == Eval(OperandsLate, e, s)
              && RunFor(ir, State(p, v), n) == Step(ir, State(p + |GenExpr(e, t).code|, v'))
              && (Step(ir, State(p + |GenExpr(e, t).code|, v')).Running? ==> Cost(ir, State(p, v), n) >= Width(use))
  {
    hide RunFor, Cost, Agree, NameOk, UniqueLabels, LabelIndex, Eval, GenExpr, Label, ExprOk, IsConstant, OperandValue, SameOutside, Step;
    var g := GenExpr(e, t);
    AtSplit(ir, p, g.code, [use]);
    AtHead(ir, p + |g.code|, [use], 0);
    n, v' := ExprSim(ir, p, e, t, bound, s, v);
    if !CodeFaults(e, s) {
      AgreeAfter(s, v, v', bound, t, g.temps);
      var mid := State(p + |g.code|, v');
      Then(ir, State(p, v), n, mid, 1);
      RunStep(ir, mid);
      n := n + 1;
    }
  }

  /** What a run of the code at `p..q` must do, given the outcome of the source. */
  ghost predicate Simulates(ir: seq<IR>, p: nat, q: nat, v: Store, out: Outcome, fuel: nat, bound: nat, n: nat, v': Store)
    requires p <= |ir|
  {
    var r := RunFor(ir, State(p, v), n);
    match out
    case Normal(s') => r == Running(State(q, v')) && Agree(s', v', bound)
    case Returned(x) => r == Done(x)
    case Faulted(f) => r == Failed(f)
    case OutOfFuel => r.Running? && Cost(ir, State(p, v), n) >= fuel
  }

  /** Prefix a simulated run by a run that leads to its start. */
  lemma Prepend(ir: seq<IR>, p: nat, v: Store, a: nat, mid: State, q: nat, out: Outcome,
                fuel: nat, fuel': nat, bound: nat, b: nat, v': Store)
    requires p <= |ir| && mid.pc <= |ir| && RunFor(ir, State(p, v), a) == Running(mid)
    requires Simulates(ir, mid.pc, q, mid.vars, out, fuel', bound, b, v')
    requires Cost(ir, State(p, v), a) + fuel' >= fuel
    ensures Simulates(ir, p, q, v, out, fuel, bound, a + b, v')
  {
    assert mid == State(mid.pc, mid.vars);
    Then(ir, State(p, v), a, mid, b);
  }

  /** Extend a normally ending run by steps that only move the program counter. */
  lemma Append(ir: seq<IR>, p: nat, v: Store, q: nat, out: Outcome, fuel: nat, bound: nat,
               n: nat, v': Store, q': nat, k: nat) returns (n': nat)
    requires p <= |ir| && q <= |ir|
    requires Simulates(ir, p, q, v, out, fuel, bound, n, v')
    requires out.Normal? ==> RunFor(ir, State(q, v'), k) == Running(State(q', v'))
    ensures Simulates(ir, p, q', v, out, fuel, bound, n', v')
  {
    n' := n;
    if out.Normal? {
      Then(ir, State(p, v), n, State(q, v'), k);
      n' := n + k;
    }
  }

  lemma StepOver(ir: seq<IR>, p: nat, v: Store)
    requires p < |ir| && ir[p].LabelIR?
    ensures RunFor(ir, State(p, v), 1) == Running(State(p + 1, v))
  {
    RunStep(ir, State(p, v));
  }

  /** A jump to a placed label lands just behind it. */
  lemma JumpTo(ir: seq<IR>, p: nat, v: Store, l: string, i: nat)
    requires UniqueLabels(ir) && p < |ir| && ir[p] == JumpIR(l)
    requires i < |ir| && ir[i] == LabelIR(l)
    ensures RunFor(ir, State(p, v), 2) == Running(State(i + 1, v))
    ensures Cost(ir, State(p, v), 2) >= 1
  {
    LabelIndexUnique(ir, l, i);
    RunStep(ir, State(p, v));
    Then(ir, State(p, v), 1, State(i, v), 1);
    StepOver(ir, i, v);
  }

  lemma {:induction false} StmtSim(ir: seq<IR>, p: nat, st: Stmt, t: nat, l: nat, bound: nat, s: Store, v: Store, fuel: nat)
    returns (n: nat, v': Store)
    requires UniqueLabels(ir) && StmtOk(st, bound) && GenStmt(st, t, l).temps <= bound
    requires At(ir, p, GenStmt(st, t, l).code) && Agree(s, v, bound)
    ensures Simulates(ir, p, p + |GenStmt(st, t, l).code|, v, ExecStmt(OperandsLate, st, s, fuel), fuel, bound, n, v')
    decreases fuel, st, 1
  {
    hide UniqueLabels, LabelIndex, GenExpr, Agree, ExprOk, NameOk, NatToStr, Label, Eval;
    match st
    case VarDecl(x, None) => n, v' := 0, v;
    case VarDecl(x, Some(e)) => n, v' := StoreSim(ir, p, x, e, t, bound, s, v);
    case Assign(x, e) => n, v' := StoreSim(ir, p, x, e, t, bound, s, v);
    case Return(_) => n, v' := ReturnSim(ir, p, st, t, l, bound, s, v, fuel);
    case ExprStmt(e) =>
      n, v' := ExprSim(ir, p, e, t, bound, s, v);
      if !CodeFaults(e, s) { AgreeAfter(s, v, v', bound, t, GenExpr(e, t).temps); }
    case If(c, thn, els) => n, v' := IfSim(ir, p, st, t, l, bound, s, v, fuel);
    case While(c, body) => n, v' := WhileSim(ir, p, st, t, l, bound, s, v, fuel);
  }

  lemma ReturnSim(ir: seq<IR>, p: nat, st: Stmt, t: nat, l: nat, bound: nat, s: Store, v: Store, fuel: nat)
    returns (n: nat, v': Store)
    requires st.Return? && StmtOk(st, bound) && GenStmt(st, t, l).temps <= bound
    requires At(ir, p, GenStmt(st, t, l).code) && Agree(s, v, bound)
    ensures Simulates(ir, p, p + |GenStmt(st, t, l).code|, v, ExecStmt(OperandsLate, st, s, fuel), fuel, bound, n, v')
  {
    hide UniqueLabels, LabelIndex, GenExpr, Agree, ExprOk, NatToStr, Label, Eval;
    match st
    case Return(None) =>
      AtHead(ir, p, [ReturnIR(None)], 0);
      n, v' := 1, v;
      RunStep(ir, State(p, v));
    case Return(Some(e)) =>
      n, v' := EvalThenUse(ir, p, e, t, bound, s, v, ReturnIR(Some(GenExpr(e, t).result)));
  }

  /** From `p`, the condition whose code lies at `c0` is evaluated and decides where control goes. */
  ghost predicate Branches(ir: seq<IR>, p: nat, c0: nat, c: Expr, t: nat, bound: nat, s: Store, v: Store, target: string, n: nat, v': Store)
    requires p <= |ir| && LabelIndex(ir, target).Some?
  {
    match Eval(OperandsLate, c, s)
    case Err(f) => RunFor(ir, State(p, v), n) == Failed(f)
    case Ok(x) =>
      && Agree(s, v', bound) && Cost(ir, State(p, v), n) >= 2
      && RunFor(ir, State(p, v), n) ==
           Running(State(if x != 0 then LabelIndex(ir, target).value else c0 + 1 + |GenExpr(c, t).code|, v'))
  }

  lemma BranchSim(ir: seq<IR>, p: nat, c: Expr, t: nat, bound: nat, s: Store, v: Store, target: string)
    returns (n: nat, v': Store)
    requires ExprOk(c, bound) && GenExpr(c, t).temps <= bound && Agree(s, v, bound)
    requires At(ir, p, GenExpr(c, t).code + [CondJumpIR(GenExpr(c, t).result, target)])
    requires LabelIndex(ir, target).Some?
    ensures Branches(ir, p, p, c, t, bound, s, v, target, n, v')
  {
    hide RunFor, Cost, Agree, At, LabelIndex, Eval, GenExpr, ExprOk, OperandValue;
    n, v' := EvalThenUse(ir, p, c, t, bound, s, v, CondJumpIR(GenExpr(c, t).result, target));
  }

  lemma StoreSim(ir: seq<IR>, p: nat, x: string, e: Expr, t: nat, bound: nat, s: Store, v: Store)
    returns (n: nat, v': Store)
    requires NameOk(x, bound) && ExprOk(e, bound) && GenExpr(e, t).temps <= bound
    requires At(ir, p, GenExpr(e, t).code + [CopyIR(x, GenExpr(e, t).result)]) && Agree(s, v, bound)
    ensures var r := Eval(OperandsLate, e, s);
            match r
            case Err(f) => RunFor(ir, State(p, v), n) == Failed(f)
            case Ok(a) => RunFor(ir, State(p, v), n) == Running(State(p + |GenExpr(e, t).code| + 1, v'))
                          && Agree(s[x := a], v', bound)
  {
    hide RunFor, Cost, Agree, NameOk, UniqueLabels, LabelIndex, Eval, GenExpr, Label, ExprOk, IsConstant, SameOutside, NatToStr;
    var r := Eval(OperandsLate, e, s);
    n, v' := EvalThenUse(ir, p, e, t, bound, s, v, CopyIR(x, GenExpr(e, t).result));
    if r.Ok? {
      SetUser(s, v', bound, x, r.value);
      v' := v'[x := r.value];
    }
  }

  /** Where the pieces of an `if` lie. */
  lemma IfLayout(ir: seq<IR>, p: nat, gc: ExprGen, els: seq<IR>, thn: seq<IR>, l: nat)
    requires At(ir, p, IfCode(gc, els, thn, l))
    ensures var q := p + |gc.code|;
            && |IfCode(gc, els, thn, l)| == |gc.code| + |els| + |thn| + 4
            && At(ir, p, gc.code + [CondJumpIR(gc.result, Label(l))])
            && At(ir, q + 1, els)
            && At(ir, q + 1 + |els|, [JumpIR(Label(l + 2)), LabelIR(Label(l))])
            && At(ir, q + 3 + |els|, thn)
            && At(ir, q + 3 + |els| + |thn|, [LabelIR(Label(l + 2))])
  {
    var cj := [CondJumpIR(gc.result, Label(l))];
    var js := [JumpIR(Label(l + 2)), LabelIR(Label(l))];
    var a := thn + [LabelIR(Label(l + 2))];
    var b := js + a;
    var c := els + b;
    assert IfCode(gc, els, thn, l) == (gc.code + cj) + c;
    AtSplit(ir, p, gc.code + cj, c);
    AtSplit(ir, p + |gc.code| + 1, els, b);
    AtSplit(ir, p + |gc.code| + 1 + |els|, js, a);
    AtSplit(ir, p + |gc.code| + 3 + |els|, thn, [LabelIR(Label(l + 2))]);
  }

  /** The labels and jumps of an `if`, at their places. */
  lemma IfPlaces(ir: seq<IR>, p: nat, gc: ExprGen, els: seq<IR>, thn: seq<IR>, l: nat)
    requires UniqueLabels(ir) && At(ir, p, IfCode(gc, els, thn, l))
    ensures var q := p + |gc.code|;
            var end := q + 4 + |els| + |thn|;
            && end <= |ir| && end == p + |IfCode(gc, els, thn, l)|
            && At(ir, p, gc.code + [CondJumpIR(gc.result, Label(l))])
            && At(ir, q + 1, els)
            && ir[q + 1 + |els|] == JumpIR(Label(l + 2))
            && ir[q + 2 + |els|] == LabelIR(Label(l)) && LabelIndex(ir, Label(l)) == Some(q + 2 + |els|)
            && At(ir, q + 3 + |els|, thn)
            && ir[end - 1] == LabelIR(Label(l + 2))
  {
    hide UniqueLabels, LabelIndex, At, Label;
    var q := p + |gc.code|;
    IfLayout(ir, p, gc, els, thn, l);
    AtHead(ir, q + 1 + |els|, [JumpIR(Label(l + 2)), LabelIR(Label(l))], 0);
    AtHead(ir, q + 1 + |els|, [JumpIR(Label(l + 2)), LabelIR(Label(l))], 1);
    AtHead(ir, q + 3 + |els| + |thn|, [LabelIR(Label(l + 2))], 0);
    LabelIndexUnique(ir, Label(l), q + 2 + |els|);
  }

  lemma {:induction false} IfSim(ir: seq<IR>, p: nat, st: Stmt, t: nat, l: nat, bound: nat, s: Store, v: Store, fuel: nat)
    returns (n: nat, v': Store)
    requires st.If?
    requires UniqueLabels(ir) && StmtOk(st, bound) && GenStmt(st, t, l).temps <= bound
    requires At(ir, p, GenStmt(st, t, l).code) && Agree(s, v, bound)
    ensures Simulates(ir, p, p + |GenStmt(st, t, l).code|, v, ExecStmt(OperandsLate, st, s, fuel), fuel, bound, n, v')
    decreases fuel, st, 0
  {
    hide RunFor, Cost, Agree, NameOk, UniqueLabels, At, LabelIndex, Eval, GenExpr, Label, ExprOk, IsConstant, OperandValue;
    var gc := GenExpr(st.cond, t);
    var ge := GenStmts(st.els, gc.temps, l + 3);
    var gt := GenStmts(st.thn, ge.temps, ge.labels);
    var q := p + |gc.code|;
    var end := q + 4 + |ge.code| + |gt.code|;
    IfPlaces(ir, p, gc, ge.code, gt.code, l);
    var cv := Eval(OperandsLate, st.cond, s);
    var n0, v0 := BranchSim(ir, p, st.cond, t, bound, s, v, Label(l));
    if cv.Err? {
      n, v' := n0, v0;
    } else if cv.value != 0 {
      var n1;
      n1, v' := ThenSim(ir, q + 2 + |ge.code|, st.thn, ge.temps, ge.labels, bound, s, v0, fuel);
      Prepend(ir, p, v, n0, State(q + 2 + |ge.code|, v0), end, ExecStmts(OperandsLate, st.thn, s, fuel), fuel, fuel, bound, n1, v');
      n := n0 + n1;
    } else {
      var n1;
      n1, v' := ElseSim(ir, q + 1, st.els, gc.temps, l + 3, bound, s, v0, fuel, Label(l + 2), end - 1);
      Prepend(ir, p, v, n0, State(q + 1, v0), end, ExecStmts(OperandsLate, st.els, s, fuel), fuel, fuel, bound, n1, v');
      n := n0 + n1;
    }
  }

  /** The then part, entered at its label and left over the end label. */
  lemma {:induction false} ThenSim(ir: seq<IR>, p: nat, ss: seq<Stmt>, t: nat, l: nat, bound: nat, s: Store, v: Store, fuel: nat)
    returns (n: nat, v': Store)
    requires UniqueLabels(ir) && StmtsOk(ss, bound) && GenStmts(ss, t, l).temps <= bound && Agree(s, v, bound)
    requires p < |ir| && ir[p].LabelIR? && At(ir, p + 1, GenStmts(ss, t, l).code)
    requires p + 1 + |GenStmts(ss, t, l).code| < |ir| && ir[p + 1 + |GenStmts(ss, t, l).code|].LabelIR?
    ensures Simulates(ir, p, p + 2 + |GenStmts(ss, t, l).code|, v, ExecStmts(OperandsLate, ss, s, fuel), fuel, bound, n, v')
    decreases fuel, ss, 1
  {
    hide RunFor, Cost, Agree, UniqueLabels, At, StmtsOk, GenStmts, ExecStmts, Simulates;
    var q := p + 1 + |GenStmts(ss, t, l).code|;
    var out := ExecStmts(OperandsLate, ss, s, fuel);
    n, v' := StmtsSim(ir, p + 1, ss, t, l, bound, s, v, fuel);
    StepOver(ir, q, v');
    n := Append(ir, p + 1, v, q, out, fuel, bound, n, v', q + 1, 1);
    StepOver(ir, p, v);
    Prepend(ir, p, v, 1, State(p + 1, v), q + 1, out, fuel, fuel, bound, n, v');
    n := 1 + n;
  }

  /** The else part, left by the jump to the end label. */
  lemma {:induction false} ElseSim(ir: seq<IR>, p: nat, ss: seq<Stmt>, t: nat, l: nat, bound: nat, s: Store, v: Store, fuel: nat,
                                   target: string, end: nat)
    returns (n: nat, v': Store)
    requires UniqueLabels(ir) && StmtsOk(ss, bound) && GenStmts(ss, t, l).temps <= bound && Agree(s, v, bound)
    requires At(ir, p, GenStmts(ss, t, l).code)
    requires p + |GenStmts(ss, t, l).code| < |ir| && ir[p + |GenStmts(ss, t, l).code|] == JumpIR(target)
    requires end < |ir| && ir[end] == LabelIR(target)
    ensures Simulates(ir, p, end + 1, v, ExecStmts(OperandsLate, ss, s, fuel), fuel, bound, n, v')
    decreases fuel, ss, 1
  {
    hide RunFor, Cost, Agree, UniqueLabels, At, StmtsOk, GenStmts, ExecStmts, Simulates;
    var q := p + |GenStmts(ss, t, l).code|;
    n, v' := StmtsSim(ir, p, ss, t, l, bound, s, v, fuel);
    JumpTo(ir, q, v', target, end);
    n := Append(ir, p, v, q, ExecStmts(OperandsLate, ss, s, fuel), fuel, bound, n, v', end + 1, 2);
  }

  /** Where the pieces of a `while` lie. */
  lemma WhileLayout(ir: seq<IR>, p: nat, gc: ExprGen, body: seq<IR>, l: nat)
    requires At(ir, p, WhileCode(gc, body, l))
    ensures var q := p + 1 + |gc.code|;
            && |WhileCode(gc, body, l)| == |gc.code| + |body| + 6
            && At(ir, p, [LabelIR(Label(l))])
            && At(ir, p + 1, gc.code + [CondJumpIR(gc.result, Label(l + 1))])
            && At(ir, q + 1, [JumpIR(Label(l + 2)), LabelIR(Label(l + 1))])
            && At(ir, q + 3, body)
            && At(ir, q + 3 + |body|, [JumpIR(Label(l)), LabelIR(Label(l + 2))])
  {
    var cj := [CondJumpIR(gc.result, Label(l + 1))];
    var js := [JumpIR(Label(l + 2)), LabelIR(Label(l + 1))];
    var tail := [JumpIR(Label(l)), LabelIR(Label(l + 2))];
    var b := js + (body + tail);
    var c := (gc.code + cj) + b;
    assert [CondJumpIR(gc.result, Label(l + 1)), JumpIR(Label(l + 2)), LabelIR(Label(l + 1))] == cj + js;
    assert WhileCode(gc, body, l) == [LabelIR(Label(l))] + c;
    AtSplit(ir, p, [LabelIR(Label(l))], c);
    AtSplit(ir, p + 1, gc.code + cj, b);
    AtSplit(ir, p + 2 + |gc.code|, js, body + tail);
    AtSplit(ir, p + 4 + |gc.code|, body, tail);
  }

  lemma {:induction false} WhileSim(ir: seq<IR>, p: nat, st: Stmt, t: nat, l: nat, bound: nat, s: Store, v: Store, fuel: nat)
    returns (n: nat, v': Store)
    requires st.While?
    requires UniqueLabels(ir) && StmtOk(st, bound) && GenStmt(st, t, l).temps <= bound
    requires At(ir, p, GenStmt(st, t, l).code) && Agree(s, v, bound)
    ensures Simulates(ir, p, p + |GenStmt(st, t, l).code|, v, ExecStmt(OperandsLate, st, s, fuel), fuel, bound, n, v')
    decreases fuel, st, 0
  {
    hide RunFor, Cost, Agree, NameOk, UniqueLabels, At, LabelIndex, Eval, GenExpr, Label, ExprOk, IsConstant, OperandValue, Step;
    Here(ir, p, GenStmt(st, t, l).code, v);
    if fuel == 0 {
      n, v' := 0, v;
      return;
    }
    var gc := GenExpr(st.cond, t);
    var gb := GenStmts(st.body, gc.temps, l + 3);
    var q := p + 1 + |gc.code|;
    var end := q + 5 + |gb.code|;
    WhilePlaces(ir, p, gc, gb.code, l);
    var n1, v1 := TestSim(ir, p, st.cond, t, bound, s, v, Label(l + 1));
    var cv := Eval(OperandsLate, st.cond, s);
    if cv.Err? {
      n, v' := n1, v1;
    } else if cv.value == 0 {
      JumpTo(ir, q + 1, v1, Label(l + 2), end - 1);
      Then(ir, State(p, v), n1, State(q + 1, v1), 2);
      n, v' := n1 + 2, v1;
    } else {
      n, v' := EnterLoop(ir, p, st, t, l, bound, s, v1, fuel);
      Prepend(ir, p, v, n1, State(q + 2, v1), end, ExecStmt(OperandsLate, st, s, fuel), fuel, fuel - 1, bound, n, v');
      n := n1 + n;
    }
  }

  /** Step over the body label, then run the body and the rest of the loop. */
  lemma {:induction false} EnterLoop(ir: seq<IR>, p: nat, st: Stmt, t: nat, l: nat, bound: nat, s: Store, v: Store, fuel: nat)
    returns (n: nat, v': Store)
    requires st.While? && fuel > 0
    requires UniqueLabels(ir) && StmtOk(st, bound) && GenStmt(st, t, l).temps <= bound
    requires At(ir, p, GenStmt(st, t, l).code) && Agree(s, v, bound)
    requires Eval(OperandsLate, st.cond, s).Ok? && Eval(OperandsLate, st.cond, s).value != 0
    requires p + 3 + |GenExpr(st.cond, t).code| < |ir| && ir[p + 3 + |GenExpr(st.cond, t).code|].LabelIR?
    ensures Simulates(ir, p + 3 + |GenExpr(st.cond, t).code|, p + |GenStmt(st, t, l).code|, v,
                      ExecStmt(OperandsLate, st, s, fuel), fuel - 1, bound, n, v')
    decreases fuel - 1, st, 3
  {
    hide RunFor, Cost, Agree, UniqueLabels, At, Eval, GenExpr, StmtOk, GenStmt, ExecStmt, Simulates;
    var b := p + 3 + |GenExpr(st.cond, t).code|;
    StepOver(ir, b, v);
    n, v' := LoopSim(ir, p, st, t, l, bound, s, v, fuel);
    Prepend(ir, b, v, 1, State(b + 1, v), p + |GenStmt(st, t, l).code|, ExecStmt(OperandsLate, st, s, fuel), fuel - 1, fuel - 1, bound, n, v');
    n := 1 + n;
  }

  /** The labels and jumps of a `while`, at their places. */
  lemma WhilePlaces(ir: seq<IR>, p: nat, gc: ExprGen, body: seq<IR>, l: nat)
    requires UniqueLabels(ir) && At(ir, p, WhileCode(gc, body, l))
    ensures var q := p + 1 + |gc.code|;
            var end := q + 5 + |body|;
            && end <= |ir| && end == p + |WhileCode(gc, body, l)|
            && ir[p] == LabelIR(Label(l))
            && At(ir, p + 1, gc.code + [CondJumpIR(gc.result, Label(l + 1))])
            && ir[q + 1] == JumpIR(Label(l + 2))
            && ir[q + 2] == LabelIR(Label(l + 1)) && LabelIndex(ir, Label(l + 1)) == Some(q + 2)
            && At(ir, q + 3, body)
            && ir[end - 2] == JumpIR(Label(l)) && LabelIndex(ir, Label(l)) == Some(p)
            && ir[end - 1] == LabelIR(Label(l + 2))
  {
    hide UniqueLabels, LabelIndex, At, Label;
    var q := p + 1 + |gc.code|;
    var end := q + 5 + |body|;
    WhileLayout(ir, p, gc, body, l);
    AtHead(ir, p, [LabelIR(Label(l))], 0);
    AtHead(ir, q + 1, [JumpIR(Label(l + 2)), LabelIR(Label(l + 1))], 0);
    AtHead(ir, q + 1, [JumpIR(Label(l + 2)), LabelIR(Label(l + 1))], 1);
    AtHead(ir, end - 2, [JumpIR(Label(l)), LabelIR(Label(l + 2))], 0);
    AtHead(ir, end - 2, [JumpIR(Label(l)), LabelIR(Label(l + 2))], 1);
    LabelIndexUnique(ir, Label(l), p);
    LabelIndexUnique(ir, Label(l + 1), q + 2);
  }

  /** The loop test: past the start label, evaluate, and take or skip the conditional jump. */
  lemma TestSim(ir: seq<IR>, p: nat, c: Expr, t: nat, bound: nat, s: Store, v: Store, target: string)
    returns (n: nat, v': Store)
    requires p < |ir| && ir[p].LabelIR?
    requires ExprOk(c, bound) && GenExpr(c, t).temps <= bound && Agree(s, v, bound)
    requires At(ir, p + 1, GenExpr(c, t).code + [CondJumpIR(GenExpr(c, t).result, target)])
    requires LabelIndex(ir, target).Some?
    ensures Branches(ir, p, p + 1, c, t, bound, s, v, target, n, v')
  {
    hide RunFor, Cost, Agree, At, LabelIndex, Eval, GenExpr, ExprOk;
    StepOver(ir, p, v);
    var n0;
    n0, v' := BranchSim(ir, p + 1, c, t, bound, s, v, target);
    Then(ir, State(p, v), 1, State(p + 1, v), n0);
    n := 1 + n0;
  }

  /** One iteration of the body, the jump back, and the rest of the loop. */
  lemma {:induction false} LoopSim(ir: seq<IR>, p: nat, st: Stmt, t: nat, l: nat, bound: nat, s: Store, v: Store, fuel: nat)
    returns (n: nat, v': Store)
    requires st.While? && fuel > 0
    requires UniqueLabels(ir) && StmtOk(st, bound) && GenStmt(st, t, l).temps <= bound
    requires At(ir, p, GenStmt(st, t, l).code) && Agree(s, v, bound)
    requires Eval(OperandsLate, st.cond, s).Ok? && Eval(OperandsLate, st.cond, s).value != 0
    ensures p + 4 + |GenExpr(st.cond, t).code| <= |ir|
    ensures Simulates(ir, p + 4 + |GenExpr(st.cond, t).code|, p + |GenStmt(st, t, l).code|, v,
                      ExecStmt(OperandsLate, st, s, fuel), fuel - 1, bound, n, v')
    decreases fuel - 1, st, 2
  {
    hide RunFor, Cost, Agree, NameOk, UniqueLabels, At, LabelIndex, Eval, GenExpr, Label, ExprOk, IsConstant, OperandValue;
    var gc := GenExpr(st.cond, t);
    var gb := GenStmts(st.body, gc.temps, l + 3);
    var b := p + 4 + |gc.code|;
    var end := b + 2 + |gb.code|;
    WhilePlaces(ir, p, gc, gb.code, l);
    n, v' := StmtsSim(ir, b, st.body, gc.temps, l + 3, bound, s, v, fuel - 1);
    var out := ExecStmts(OperandsLate, st.body, s, fuel - 1);
    if out.Normal? {
      RunStep(ir, State(end - 2, v'));
      Then(ir, State(b, v), n, State(end - 2, v'), 1);
      var n2, v2 := StmtSim(ir, p, st, t, l, bound, out.store, v', fuel - 1);
      Prepend(ir, b, v, n + 1, State(p, v'), end, ExecStmt(OperandsLate, st, out.store, fuel - 1), fuel - 1, fuel - 1, bound, n2, v2);
      n, v' := n + 1 + n2, v2;
    }
  }

  lemma {:induction false} StmtsSim(ir: seq<IR>, p: nat, ss: seq<Stmt>, t: nat, l: nat, bound: nat, s: Store, v: Store, fuel: nat)
    returns (n: nat, v': Store)
    requires UniqueLabels(ir) && StmtsOk(ss, bound) && GenStmts(ss, t, l).temps <= bound
    requires At(ir, p, GenStmts(ss, t, l).code) && Agree(s, v, bound)
    ensures Simulates(ir, p, p + |GenStmts(ss, t, l).code|, v, ExecStmts(OperandsLate, ss, s, fuel), fuel, bound, n, v')
    decreases fuel, ss, 0
  {
    hide RunFor, Cost, Agree, NameOk, UniqueLabels, At, LabelIndex, Eval, GenExpr, Label, ExprOk, IsConstant, OperandValue;
    Here(ir, p, GenStmts(ss, t, l).code, v);
    if ss == [] {
      n, v' := 0, v;
    } else {
      var g0 := GenStmt(ss[0], t, l);
      var g1 := GenStmts(ss[1..], g0.temps, g0.labels);
      AtSplit(ir, p, g0.code, g1.code);
      n, v' := StmtSim(ir, p, ss[0], t, l, bound, s, v, fuel);
      var out := ExecStmt(OperandsLate, ss[0], s, fuel);
      if out.Normal? {
        var mid := State(p + |g0.code|, v');
        var n2, v2 := StmtsSim(ir, mid.pc, ss[1..], g0.temps, g0.labels, bound, out.store, v', fuel);
        Prepend(ir, p, v, n, mid, p + |g0.code + g1.code|, ExecStmts(OperandsLate, ss[1..], out.store, fuel), fuel, fuel, bound, n2, v2);
        n, v' := n + n2, v2;
      }
    }
  }

  lemma MainStart(main: seq<Stmt>)
    ensures var ir := GenMain(main).code;
            var g := GenStmts(main, 0, 0);
            && UniqueLabels(ir) && At(ir, 1, g.code) && |ir| == 1 + |g.code| && ir[0].LabelIR?
            && GenMain(main).temps == g.temps && Agree(map[], map[], g.temps)
  {
    MainLabelsUnique(main);
  }

  /** Entering at the label of `main`, the generated program ends as the source does, or keeps running. */
  lemma MainSim(main: seq<Stmt>, fuel: nat) returns (n: nat)
    requires InScope(main)
    ensures var ir := GenMain(main).code;
            var r := RunFor(ir, State(0, map[]), n);
            match RunMain(OperandsLate, main, fuel)
            case Returned(x) => r == Done(x)
            case Faulted(f) => r == Failed(f)
            case OutOfFuel => r.Running? && Cost(ir, State(0, map[]), n) >= fuel
            case Normal(_) => false
  {
    hide RunFor, Cost, Agree, UniqueLabels, At, GenStmts, GenMain, ExecStmts, StmtsOk, NameOk;
    var ir := GenMain(main).code;
    var g := GenStmts(main, 0, 0);
    MainStart(main);
    StepOver(ir, 0, map[]);
    var n0, v' := StmtsSim(ir, 1, main, 0, 0, g.temps, map[], map[], fuel);
    var out := ExecStmts(OperandsLate, main, map[], fuel);
    Prepend(ir, 0, map[], 1, State(1, map[]), |ir|, out, fuel, fuel, g.temps, n0, v');
    n := 1 + n0;
    if out.Normal? {
      Then(ir, State(0, map[]), n, State(|ir|, v'), 1);
      RunStep(ir, State(|ir|, v'));
      n := n + 1;
    }
  }
}
