/**
 Three-address code: the IR generator as functions, and an abstract machine for its output.
 */
module CompilerIR {
  import opened CompilerNames
  import opened CompilerSource

  datatype IR =
    | BinaryIR(dest: string, op: BinOp, left: string, right: string)
    | UnaryIR(dest: string, uop: UnOp, operand: string)
    | CopyIR(dest: string, source: string)
    | LabelIR(lbl: string)
    | JumpIR(target: string)
    | CondJumpIR(cond: string, target: string)
    | ReturnIR(value: Option<string>)

  // ---- Generation ----

  datatype ExprGen = ExprGen(result: string, code: seq<IR>, temps: nat)
  datatype StmtGen = StmtGen(code: seq<IR>, temps: nat, labels: nat)

  /** Code for `e` when `t` temporaries are already taken, and the operand that then holds its value. */
  function GenExpr(e: Expr, t: nat): (g: ExprGen)
    ensures g.temps >= t
  {
    match e
    case IntLit(n) => ExprGen(IntToStr(n), [], t)
    case BoolLit(b) => ExprGen(if b then "1" else "0", [], t)
    case Var(x) => ExprGen(x, [], t)
    case Bin(op, l, r) =>
      var gl := GenExpr(l, t);
      var gr := GenExpr(r, gl.temps);
      ExprGen(Temp(gr.temps), gl.code + gr.code + [BinaryIR(Temp(gr.temps), op, gl.result, gr.result)], gr.temps + 1)
    case Un(op, e0) =>
      var g0 := GenExpr(e0, t);
      ExprGen(Temp(g0.temps), g0.code + [UnaryIR(Temp(g0.temps), op, g0.result)], g0.temps + 1)
  }

  function GenStmt(st: Stmt, t: nat, l: nat): (g: StmtGen)
    ensures g.temps >= t && g.labels >= l
    decreases st, 1
  {
    match st
    case VarDecl(x, None) => StmtGen([], t, l)
    case VarDecl(x, Some(e)) =>
      var g := GenExpr(e, t);
      StmtGen(g.code + [CopyIR(x, g.result)], g.temps, l)
    case Assign(x, e) =>
      var g := GenExpr(e, t);
      StmtGen(g.code + [CopyIR(x, g.result)], g.temps, l)
    case Return(None) => StmtGen([ReturnIR(None)], t, l)
    case Return(Some(e)) =>
      var g := GenExpr(e, t);
      StmtGen(g.code + [ReturnIR(Some(g.result))], g.temps, l)
    case ExprStmt(e) =>
      var g := GenExpr(e, t);
      StmtGen(g.code, g.temps, l)
    case If(c, thn, els) =>
      var gc := GenExpr(c, t);
      var ge := GenStmts(els, gc.temps, l + 3);
      var gt := GenStmts(thn, ge.temps, ge.labels);
      StmtGen(IfCode(gc, ge.code, gt.code, l), gt.temps, gt.labels)
    case While(c, body) =>
      var gc := GenExpr(c, t);
      var gb := GenStmts(body, gc.temps, l + 3);
      StmtGen(WhileCode(gc, gb.code, l), gb.temps, gb.labels)
  }

  function GenStmts(ss: seq<Stmt>, t: nat, l: nat): (g: StmtGen)
    ensures g.temps >= t && g.labels >= l
    decreases ss, 0
  {
    if ss == [] then StmtGen([], t, l)
    else
      var g0 := GenStmt(ss[0], t, l);
      var g1 := GenStmts(ss[1..], g0.temps, g0.labels);
      StmtGen(g0.code + g1.code, g1.temps, g1.labels)
  }

  /** Then-label `l`, else-label `l + 1` (never placed), end-label `l + 2`. */
  function IfCode(gc: ExprGen, els: seq<IR>, thn: seq<IR>, l: nat): seq<IR>
  {
    gc.code + ([CondJumpIR(gc.result, Label(l))] + (els + ([JumpIR(Label(l + 2)), LabelIR(Label(l))] + (thn + [LabelIR(Label(l + 2))]))))
  }

  /** Start-label `l`, body-label `l + 1`, end-label `l + 2`. */
  function WhileCode(gc: ExprGen, body: seq<IR>, l: nat): seq<IR>
  {
    [LabelIR(Label(l))] + (gc.code + ([CondJumpIR(gc.result, Label(l + 1)), JumpIR(Label(l + 2)), LabelIR(Label(l + 1))]
      + (body + [JumpIR(Label(l)), LabelIR(Label(l + 2))])))
  }

  /** The whole program: the entry label followed by the body of `main`. */
  function GenMain(main: seq<Stmt>): StmtGen
  {
    var g := GenStmts(main, 0, 0);
    StmtGen([LabelIR(MAIN_LABEL)] + g.code, g.temps, g.labels)
  }

  // ---- Labels ----

  predicate UniqueLabels(ir: seq<IR>)
  {
    forall i, j :: 0 <= i < j < |ir| && ir[i].LabelIR? && ir[j].LabelIR? ==> ir[i].lbl != ir[j].lbl
  }

  predicate LabelIn(x: string, lo: nat, hi: nat)
  {
    exists k :: lo <= k < hi && x == Label(k)
  }

  predicate LabelsWithin(ir: seq<IR>, lo: nat, hi: nat)
  {
    forall i :: 0 <= i < |ir| && ir[i].LabelIR? ==> LabelIn(ir[i].lbl, lo, hi)
  }

  lemma LabelsDisjoint(a: seq<IR>, b: seq<IR>, lo: nat, mid: nat, hi: nat)
    requires lo <= mid <= hi
    requires LabelsWithin(a, lo, mid) && UniqueLabels(a)
    requires LabelsWithin(b, mid, hi) && UniqueLabels(b)
    ensures LabelsWithin(a + b, lo, hi) && UniqueLabels(a + b)
    ensures LabelsWithin(b + a, lo, hi) && UniqueLabels(b + a)
  {
    forall i, j | 0 <= i < |a| && 0 <= j < |b| && a[i].LabelIR? && b[j].LabelIR?
      ensures a[i].lbl != b[j].lbl
    {
      var p :| lo <= p < mid && a[i].lbl == Label(p);
      var q :| mid <= q < hi && b[j].lbl == Label(q);
      if Label(p) == Label(q) { LabelInjective(p, q); }
    }
  }

  lemma OneLabel(k: nat)
    ensures LabelsWithin([LabelIR(Label(k))], k, k + 1)
    ensures UniqueLabels([LabelIR(Label(k))])
  {
  }

  lemma {:induction false} ExprHasNoLabels(e: Expr, t: nat)
    ensures forall i :: 0 <= i < |GenExpr(e, t).code| ==> !GenExpr(e, t).code[i].LabelIR?
    ensures forall i :: 0 <= i < |GenExpr(e, t).code| ==> !GenExpr(e, t).code[i].JumpIR? && !GenExpr(e, t).code[i].CondJumpIR?
  {
    match e
    case Bin(_, l, r) =>
      ExprHasNoLabels(l, t);
      ExprHasNoLabels(r, GenExpr(l, t).temps);
    case Un(_, e0) => ExprHasNoLabels(e0, t);
    case _ =>
  }

  lemma {:induction false} StmtLabels(st: Stmt, t: nat, l: nat)
    ensures LabelsWithin(GenStmt(st, t, l).code, l, GenStmt(st, t, l).labels)
    ensures UniqueLabels(GenStmt(st, t, l).code)
    decreases st, 1
  {
    match st
    case VarDecl(_, init) => match init { case None => case Some(e) => ExprHasNoLabels(e, t); }
    case Assign(_, e) => ExprHasNoLabels(e, t);
    case Return(ret) => match ret { case None => case Some(e) => ExprHasNoLabels(e, t); }
    case ExprStmt(e) => ExprHasNoLabels(e, t);
    case If(c, thn, els) =>
      var gc := GenExpr(c, t);
      var ge := GenStmts(els, gc.temps, l + 3);
      var gt := GenStmts(thn, ge.temps, ge.labels);
      ExprHasNoLabels(c, t);
      StmtsLabels(els, gc.temps, l + 3);
      StmtsLabels(thn, ge.temps, ge.labels);
      IfLabels(gc, ge.code, gt.code, l, ge.labels, gt.labels);
    case While(c, body) =>
      var gc := GenExpr(c, t);
      var gb := GenStmts(body, gc.temps, l + 3);
      ExprHasNoLabels(c, t);
      StmtsLabels(body, gc.temps, l + 3);
      WhileLabels(gc, gb.code, l, gb.labels);
  }

  lemma {:induction false} StmtsLabels(ss: seq<Stmt>, t: nat, l: nat)
    ensures LabelsWithin(GenStmts(ss, t, l).code, l, GenStmts(ss, t, l).labels)
    ensures UniqueLabels(GenStmts(ss, t, l).code)
    decreases ss, 0
  {
    if ss != [] {
      var g0 := GenStmt(ss[0], t, l);
      var g1 := GenStmts(ss[1..], g0.temps, g0.labels);
      StmtLabels(ss[0], t, l);
      StmtsLabels(ss[1..], g0.temps, g0.labels);
      LabelsDisjoint(g0.code, g1.code, l, g0.labels, g1.labels);
    }
  }

  predicate NoLabels(ir: seq<IR>)
  {
    forall i :: 0 <= i < |ir| ==> !ir[i].LabelIR?
  }

  lemma PrefixNoLabels(a: seq<IR>, b: seq<IR>, lo: nat, hi: nat)
    requires NoLabels(a) && LabelsWithin(b, lo, hi) && UniqueLabels(b)
    ensures LabelsWithin(a + b, lo, hi) && UniqueLabels(a + b)
  {
  }

  lemma IfLabels(gc: ExprGen, els: seq<IR>, thn: seq<IR>, l: nat, mid: nat, hi: nat)
    requires NoLabels(gc.code)
    requires l + 3 <= mid <= hi
    requires LabelsWithin(els, l + 3, mid) && UniqueLabels(els)
    requires LabelsWithin(thn, mid, hi) && UniqueLabels(thn)
    ensures LabelsWithin(IfCode(gc, els, thn, l), l, hi) && UniqueLabels(IfCode(gc, els, thn, l))
  {
    var endL := [LabelIR(Label(l + 2))];
    var a := thn + endL;
    OneLabel(l + 2);
    Widen(endL, l + 2, l + 3, l + 2, mid);
    LabelsDisjoint(endL, thn, l + 2, mid, hi);
    var thenL := [LabelIR(Label(l))];
    OneLabel(l);
    Widen(thenL, l, l + 1, l, l + 2);
    LabelsDisjoint(thenL, a, l, l + 2, hi);
    var jump := [JumpIR(Label(l + 2))];
    PrefixNoLabels(jump, thenL + a, l, hi);
    var b := [JumpIR(Label(l + 2)), LabelIR(Label(l))] + a;
    assert b == jump + (thenL + a);
    SplitInterleave(els, b, l, mid, hi, thn);
    PrefixNoLabels([CondJumpIR(gc.result, Label(l))], els + b, l, hi);
    PrefixNoLabels(gc.code, [CondJumpIR(gc.result, Label(l))] + (els + b), l, hi);
  }

  lemma Widen(a: seq<IR>, lo: nat, hi: nat, lo': nat, hi': nat)
    requires LabelsWithin(a, lo, hi) && lo' <= lo && hi <= hi'
    ensures LabelsWithin(a, lo', hi')
  {
    forall i | 0 <= i < |a| && a[i].LabelIR? ensures LabelIn(a[i].lbl, lo', hi') {
      var k :| lo <= k < hi && a[i].lbl == Label(k);
    }
  }

  /** The else part sits between the if's own labels and the then part, so its labels clash with neither. */
  lemma SplitInterleave(els: seq<IR>, b: seq<IR>, l: nat, mid: nat, hi: nat, thn: seq<IR>)
    requires l + 3 <= mid <= hi
    requires LabelsWithin(els, l + 3, mid) && UniqueLabels(els)
    requires LabelsWithin(thn, mid, hi)
    requires b == [JumpIR(Label(l + 2)), LabelIR(Label(l))] + (thn + [LabelIR(Label(l + 2))])
    requires LabelsWithin(b, l, hi) && UniqueLabels(b)
    ensures LabelsWithin(els + b, l, hi) && UniqueLabels(els + b)
  {
    Widen(els, l + 3, mid, l, hi);
    forall i, j | 0 <= i < |els| && 0 <= j < |b| && els[i].LabelIR? && b[j].LabelIR?
      ensures els[i].lbl != b[j].lbl
    {
      var p :| l + 3 <= p < mid && els[i].lbl == Label(p);
      if els[i].lbl == b[j].lbl {
        if j == 1 { LabelInjective(p, l); }
        else if j == |b| - 1 { LabelInjective(p, l + 2); }
        else {
          assert b[j] == thn[j - 2];
          var q :| mid <= q < hi && thn[j - 2].lbl == Label(q);
          LabelInjective(p, q);
        }
      }
    }
  }

  lemma WhileLabels(gc: ExprGen, body: seq<IR>, l: nat, hi: nat)
    requires NoLabels(gc.code)
    requires l + 3 <= hi
    requires LabelsWithin(body, l + 3, hi) && UniqueLabels(body)
    ensures LabelsWithin(WhileCode(gc, body, l), l, hi) && UniqueLabels(WhileCode(gc, body, l))
  {
    var endL := [LabelIR(Label(l + 2))];
    OneLabel(l + 2);
    PrefixNoLabels([JumpIR(Label(l))], endL, l + 2, l + 3);
    var tail := [JumpIR(Label(l)), LabelIR(Label(l + 2))];
    assert tail == [JumpIR(Label(l))] + endL;
    LabelsDisjoint(tail, body, l + 2, l + 3, hi);
    var bodyL := [LabelIR(Label(l + 1))];
    OneLabel(l + 1);
    LabelsDisjoint(bodyL, body + tail, l + 1, l + 2, hi);
    var jumps := [CondJumpIR(gc.result, Label(l + 1)), JumpIR(Label(l + 2))];
    PrefixNoLabels(jumps, bodyL + (body + tail), l + 1, hi);
    var rest := [CondJumpIR(gc.result, Label(l + 1)), JumpIR(Label(l + 2)), LabelIR(Label(l + 1))] + (body + tail);
    assert rest == jumps + (bodyL + (body + tail));
    PrefixNoLabels(gc.code, rest, l + 1, hi);
    var startL := [LabelIR(Label(l))];
    OneLabel(l);
    LabelsDisjoint(startL, gc.code + rest, l, l + 1, hi);
  }

  /** Every label of a generated program is placed exactly once. */
  lemma MainLabelsUnique(main: seq<Stmt>)
    ensures UniqueLabels(GenMain(main).code)
  {
    var g := GenStmts(main, 0, 0);
    StmtsLabels(main, 0, 0);
    forall i | 0 <= i < |g.code| && g.code[i].LabelIR? ensures g.code[i].lbl != MAIN_LABEL {
      var k :| 0 <= k < g.labels && g.code[i].lbl == Label(k);
      GeneratedNamesApart(k, k, 0);
    }
    var c := GenMain(main).code;
    forall i, j | 0 <= i < j < |c| && c[i].LabelIR? && c[j].LabelIR? ensures c[i].lbl != c[j].lbl {
      assert c[j] == g.code[j - 1];
      if i > 0 { assert c[i] == g.code[i - 1]; }
    }
  }

  // ---- The abstract machine ----

  datatype State = State(pc: nat, vars: Store)
  datatype Run = Running(state: State) | Done(value: int) | Failed(fault: Fault) | NoSuchLabel

  /** Where label `l` is placed; a label dictionary keeps the last placement. */
  function LabelIndex(ir: seq<IR>, l: string): (r: Option<nat>)
    ensures r.Some? ==> r.value < |ir| && ir[r.value] == LabelIR(l)
  {
    if ir == [] then None
    else if ir[|ir| - 1] == LabelIR(l) then Some(|ir| - 1)
    else LabelIndex(ir[..|ir| - 1], l)
  }

  lemma {:induction false} LabelIndexUnique(ir: seq<IR>, l: string, i: nat)
    requires UniqueLabels(ir) && i < |ir| && ir[i] == LabelIR(l)
    ensures LabelIndex(ir, l) == Some(i)
  {
    if i != |ir| - 1 {
      LabelIndexUnique(ir[..|ir| - 1], l, i);
    }
  }

  function OperandValue(v: string, vars: Store): Result
  {
    if IsConstant(v) then Ok(ConstantOf(v)) else Lookup(v, vars)
  }

  function Goto(ir: seq<IR>, l: string, vars: Store): (r: Run)
    ensures r.Running? ==> r.state.pc < |ir|
  {
    match LabelIndex(ir, l) case Some(i) => Running(State(i, vars)) case None => NoSuchLabel
  }

  function Assigned(r: Result, st: State, dest: string): Run
  {
    match r case Ok(v) => Running(State(st.pc + 1, st.vars[dest := v])) case Err(f) => Failed(f)
  }

  function BinaryResult(i: IR, vars: Store): Result
    requires i.BinaryIR?
  {
    var a :- OperandValue(i.left, vars);
    var b :- OperandValue(i.right, vars);
    ApplyBin(i.op, a, b)
  }

  function UnaryResult(i: IR, vars: Store): Result
    requires i.UnaryIR?
  {
    var a :- OperandValue(i.operand, vars);
    Ok(ApplyUn(i.uop, a))
  }

  function Step(ir: seq<IR>, st: State): (r: Run)
    requires st.pc <= |ir|
    ensures r.Running? ==> r.state.pc <= |ir|
  {
    if st.pc == |ir| then Done(0)
    else match ir[st.pc]
      case BinaryIR(d, _, _, _) => Assigned(BinaryResult(ir[st.pc], st.vars), st, d)
      case UnaryIR(d, _, _) => Assigned(UnaryResult(ir[st.pc], st.vars), st, d)
      case CopyIR(d, s) => Assigned(OperandValue(s, st.vars), st, d)
      case LabelIR(_) => Running(State(st.pc + 1, st.vars))
      case JumpIR(l) => Goto(ir, l, st.vars)
      case CondJumpIR(c, l) =>
        (match OperandValue(c, st.vars)
         case Err(f) => Failed(f)
         case Ok(v) => if v != 0 then Goto(ir, l, st.vars) else Running(State(st.pc + 1, st.vars)))
      case ReturnIR(None) => Done(0)
      case ReturnIR(Some(v)) =>
        (match OperandValue(v, st.vars) case Ok(n) => Done(n) case Err(f) => Failed(f))
  }

  function RunFor(ir: seq<IR>, st: State, n: nat): (r: Run)
    requires st.pc <= |ir|
    ensures r.Running? ==> r.state.pc <= |ir|
    decreases n
  {
    if n == 0 then Running(st)
    else match Step(ir, st)
      case Running(st1) => RunFor(ir, st1, n - 1)
      case other => other
  }

  /** How many machine instructions an IR instruction becomes; a label becomes none. */
  function Width(i: IR): nat
  {
    match i
    case BinaryIR(_, _, _, _) => 4
    case UnaryIR(_, _, _) => 3
    case CopyIR(_, _) => 2
    case LabelIR(_) => 0
    case JumpIR(_) => 1
    case CondJumpIR(_, _) => 2
    case ReturnIR(None) => 1
    case ReturnIR(Some(_)) => 2
  }

  /** The number of machine instructions behind the first `n` IR steps, while they keep running. */
  function Cost(ir: seq<IR>, st: State, n: nat): nat
    requires st.pc <= |ir|
    decreases n
  {
    if n == 0 || !Step(ir, st).Running? then 0
    else (if st.pc < |ir| then Width(ir[st.pc]) else 0) + Cost(ir, Step(ir, st).state, n - 1)
  }

  lemma {:induction false} RunCompose(ir: seq<IR>, st: State, a: nat, b: nat)
    requires st.pc <= |ir| && RunFor(ir, st, a).Running?
    ensures RunFor(ir, st, a + b) == RunFor(ir, RunFor(ir, st, a).state, b)
    ensures Cost(ir, st, a + b) == Cost(ir, st, a) + Cost(ir, RunFor(ir, st, a).state, b)
    decreases a
  {
    if a > 0 {
      RunCompose(ir, Step(ir, st).state, a - 1, b);
    }
  }

  lemma RunStep(ir: seq<IR>, st: State)
    requires st.pc <= |ir|
    ensures RunFor(ir, st, 1) == Step(ir, st)
    ensures Step(ir, st).Running? && st.pc < |ir| ==> Cost(ir, st, 1) == Width(ir[st.pc])
  {
    if Step(ir, st).Running? {
      assert RunFor(ir, Step(ir, st).state, 0) == Step(ir, st);
      assert Cost(ir, Step(ir, st).state, 0) == 0;
    }
  }
}
