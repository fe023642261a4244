/**
 SimpleLang: abstract syntax and reference meaning.

 One `main` without calls, over one flat store of integers (false is 0, true is 1).
 `&&` and `||` are strict, `/` and `%` floor as in Python.
 */
module CompilerSource {
  import opened CompilerNames

  datatype BinOp = Add | Sub | Mul | Div | Mod | Lt | Gt | Le | Ge | Eq | Ne | And | Or
  datatype UnOp = Neg | Not

  datatype Expr =
    | IntLit(n: int)
    | BoolLit(b: bool)
    | Var(name: string)
    | Bin(op: BinOp, left: Expr, right: Expr)
    | Un(uop: UnOp, operand: Expr)
  {
    predicate Compound() { Bin? || Un? }
  }

  datatype Stmt =
    | VarDecl(name: string, init: Option<Expr>)
    | Assign(name: string, value: Expr)
    | If(cond: Expr, thn: seq<Stmt>, els: seq<Stmt>)  // a missing else is the empty one
    | While(cond: Expr, body: seq<Stmt>)
    | Return(ret: Option<Expr>)
    | ExprStmt(expr: Expr)

  datatype Fault = DivisionByZero | ModuloByZero | UndefinedVariable | StackUnderflow | BadOperand

  datatype Result = Ok(value: int) | Err(fault: Fault) {
    predicate IsFailure() { Err? }
    function PropagateFailure(): Result requires Err? { this }
    function Extract(): int requires Ok? { value }
  }

  type Store = map<string, int>

  function FloorDiv(a: int, b: int): int
    requires b != 0
  {
    if b > 0 then a / b else (-a) / (-b)
  }

  function FloorMod(a: int, b: int): int
    requires b != 0
  {
    a - b * FloorDiv(a, b)
  }

  function Truth(c: bool): int { if c then 1 else 0 }

  function ApplyBin(op: BinOp, a: int, b: int): Result
  {
    match op
    case Add => Ok(a + b)
    case Sub => Ok(a - b)
    case Mul => Ok(a * b)
    case Div => if b == 0 then Err(DivisionByZero) else Ok(FloorDiv(a, b))
    case Mod => if b == 0 then Err(ModuloByZero) else Ok(FloorMod(a, b))
    case Lt => Ok(Truth(a < b))
    case Gt => Ok(Truth(a > b))
    case Le => Ok(Truth(a <= b))
    case Ge => Ok(Truth(a >= b))
    case Eq => Ok(Truth(a == b))
    case Ne => Ok(Truth(a != b))
    case And => Ok(Truth(a != 0 && b != 0))
    case Or => Ok(Truth(a != 0 || b != 0))
  }

  function ApplyUn(op: UnOp, a: int): int
  {
    match op
    case Neg => -a
    case Not => Truth(a == 0)
  }

  function Lookup(x: string, s: Store): Result
  {
    if x in s then Ok(s[x]) else Err(UndefinedVariable)
  }

  /**
   When a bare variable operand is read: with its operand position (the textbook order),
   or, as the generated code does, only after both operands' own code has run.
   */
  datatype Order = LeftToRight | OperandsLate

  function Eval(m: Order, e: Expr, s: Store): Result
  {
    match e
    case IntLit(n) => Ok(n)
    case BoolLit(b) => Ok(Truth(b))
    case Var(x) => Lookup(x, s)
    case Un(op, e0) =>
      var a :- Eval(m, e0, s);
      Ok(ApplyUn(op, a))
    case Bin(op, l, r) =>
      if m.OperandsLate? && r.Compound() && !l.Compound() && Eval(m, r, s).Err? then Eval(m, r, s)
      else
        var a :- Eval(m, l, s);
        var b :- Eval(m, r, s);
        ApplyBin(op, a, b)
  }

  /** The effect of an expression statement: generated code never reads a bare variable here. */
  function Discard(m: Order, e: Expr, s: Store): Result
  {
    if m.OperandsLate? && !e.Compound() then Ok(0) else Eval(m, e, s)
  }

  datatype Outcome =
    | OutOfFuel
    | Normal(store: Store)
    | Returned(value: int)
    | Faulted(fault: Fault)

  /** Big-step meaning; `fuel` bounds the number of iterations of each loop on the current path. */
  function ExecStmt(m: Order, st: Stmt, s: Store, fuel: nat): Outcome
    decreases fuel, st, 1
  {
    match st
    case VarDecl(x, None) => Normal(s)
    case VarDecl(x, Some(e)) =>
      (match Eval(m, e, s) case Ok(v) => Normal(s[x := v]) case Err(f) => Faulted(f))
    case Assign(x, e) =>
      (match Eval(m, e, s) case Ok(v) => Normal(s[x := v]) case Err(f) => Faulted(f))
    case Return(None) => Returned(0)
    case Return(Some(e)) =>
      (match Eval(m, e, s) case Ok(v) => Returned(v) case Err(f) => Faulted(f))
    case ExprStmt(e) =>
      (match Discard(m, e, s) case Ok(_) => Normal(s) case Err(f) => Faulted(f))
    case If(c, thn, els) =>
      (match Eval(m, c, s)
       case Err(f) => Faulted(f)
       case Ok(v) =>
         if v != 0 then ExecStmts(m, thn, s, fuel) else ExecStmts(m, els, s, fuel))
    case While(c, body) =>
      if fuel == 0 then OutOfFuel
      else match Eval(m, c, s)
        case Err(f) => Faulted(f)
        case Ok(v) =>
          if v == 0 then Normal(s)
          else match ExecStmts(m, body, s, fuel - 1)
            case Normal(s1) => ExecStmt(m, st, s1, fuel - 1)
            case other => other
  }

  function ExecStmts(m: Order, ss: seq<Stmt>, s: Store, fuel: nat): Outcome
    decreases fuel, ss, 0
  {
    if ss == [] then Normal(s)
    else match ExecStmt(m, ss[0], s, fuel)
      case Normal(s1) => ExecStmts(m, ss[1..], s1, fuel)
      case other => other
  }

  /** What running `main` yields: falling off the end returns 0. */
  function RunMain(m: Order, main: seq<Stmt>, fuel: nat): Outcome
  {
    match ExecStmts(m, main, map[], fuel)
    case Normal(_) => Returned(0)
    case other => other
  }

  /** Floor division is the one Python documents: the remainder takes the divisor's sign. */
  lemma FloorDivMod(a: int, b: int)
    requires b != 0
    ensures a == b * FloorDiv(a, b) + FloorMod(a, b)
    ensures b > 0 ==> 0 <= FloorMod(a, b) < b
    ensures b < 0 ==> b < FloorMod(a, b) <= 0
  {
    if b < 0 {
      var q := (-a) / (-b);
      assert -a == (-b) * q + (-a) % (-b);
      assert (-b) * q == -(b * q);
    }
  }
}
