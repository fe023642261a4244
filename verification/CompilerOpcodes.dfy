/**
 What the virtual machine's instructions do, opcode by opcode, and the laws of the source language's statements.
 */
module CompilerOpcodes {
  import opened CompilerNames
  import opened CompilerSource
  import opened CompilerMachine
  import opened CompilerScope

  /** The step falls through to the next instruction and leaves `v` on top of `s`; nothing else changes. */
  predicate Leaves(code: Code, m: Machine, s: seq<int>, v: int)
    requires m.pc < |code|
  {
    Step(code, m) == Running(Machine(m.pc + 1, s + [v], m.vars, m.calls))
  }

  predicate LeavesBit(code: Code, m: Machine, s: seq<int>, c: bool)
    requires m.pc < |code|
  {
    if c then Leaves(code, m, s, 1) else Leaves(code, m, s, 0)
  }

  predicate Faults(code: Code, m: Machine, f: Fault)
    requires m.pc < |code|
  {
    Step(code, m) == Crashed(f)
  }

  lemma Operands(s: seq<int>, a: int, b: int)
    ensures var t := s + [a, b]; Top(t) == b && Top(Pop(t)) == a && Pop(Pop(t)) == s
  {
  }

  /** Sums, differences and products of the two topmost values, the lower one on the left. */
  lemma Arithmetic(code: Code, m: Machine, s: seq<int>, a: int, b: int)
    requires m.pc < |code| && m.stack == s + [a, b]
    ensures code[m.pc].opcode == ADD ==> Leaves(code, m, s, a + b)
    ensures code[m.pc].opcode == SUB ==> Leaves(code, m, s, a - b)
    ensures code[m.pc].opcode == MUL ==> Leaves(code, m, s, a * b)
  {
    Operands(s, a, b);
  }

  /** `q` is the quotient rounded down, and `r` what it leaves. */
  predicate Floors(a: int, b: int, q: int, r: int)
  {
    a == b * q + r && (if b > 0 then 0 <= r < b else b < r <= 0)
  }

  /** Division and remainder round down; a zero on top is a fault, whatever is below it. */
  lemma Quotients(code: Code, m: Machine, s: seq<int>, a: int, b: int, q: int, r: int)
    requires m.pc < |code| && m.stack == s + [a, b] && b != 0 && Floors(a, b, q, r)
    ensures code[m.pc].opcode == DIV ==> Leaves(code, m, s, q)
    ensures code[m.pc].opcode == MOD ==> Leaves(code, m, s, r)
  {
    Operands(s, a, b);
    FloorDivMod(a, b);
    OneQuotient(a, b, q, r, FloorDiv(a, b), FloorMod(a, b));
  }

  lemma OneQuotient(a: int, b: int, q: int, r: int, q': int, r': int)
    requires b != 0 && Floors(a, b, q, r) && Floors(a, b, q', r')
    ensures q == q' && r == r'
  {
    var d := q - q';
    assert b * d == r' - r by { Distributes(b, q, q'); }
    if b > 0 {
      SmallMultiple(b, d);
    } else {
      Negates(b, d);
      SmallMultiple(-b, d);
    }
  }

  lemma Distributes(b: int, q: int, q': int)
    ensures b * (q - q') == b * q - b * q'
  {
  }

  lemma Negates(b: int, d: int)
    ensures (-b) * d == -(b * d)
  {
  }

  lemma SmallMultiple(b: int, d: int)
    requires b > 0 && -b < b * d < b
    ensures d == 0
  {
    assert b * d == b + b * (d - 1) && b * d == -b - b * (-d - 1);
  }

  lemma ZeroDivisor(code: Code, m: Machine, s: seq<int>)
    requires m.pc < |code| && m.stack == s + [0]
    ensures code[m.pc].opcode == DIV ==> Faults(code, m, DivisionByZero)
    ensures code[m.pc].opcode == MOD ==> Faults(code, m, ModuloByZero)
  {
  }

  /** Comparisons and connectives leave 1 exactly when they hold, else 0. */
  lemma Comparisons(code: Code, m: Machine, s: seq<int>, a: int, b: int)
    requires m.pc < |code| && m.stack == s + [a, b]
    ensures code[m.pc].opcode == LT ==> LeavesBit(code, m, s, a < b)
    ensures code[m.pc].opcode == GT ==> LeavesBit(code, m, s, a > b)
    ensures code[m.pc].opcode == LE ==> LeavesBit(code, m, s, a <= b)
    ensures code[m.pc].opcode == GE ==> LeavesBit(code, m, s, a >= b)
    ensures code[m.pc].opcode == EQ ==> LeavesBit(code, m, s, a == b)
    ensures code[m.pc].opcode == NE ==> LeavesBit(code, m, s, a != b)
    ensures code[m.pc].opcode == AND ==> LeavesBit(code, m, s, a != 0 && b != 0)
    ensures code[m.pc].opcode == OR ==> LeavesBit(code, m, s, a != 0 || b != 0)
  {
    Operands(s, a, b);
  }

  /** Negation and logical not of the topmost value. */
  lemma Unary(code: Code, m: Machine, s: seq<int>, a: int)
    requires m.pc < |code| && m.stack == s + [a]
    ensures code[m.pc].opcode == NEG ==> Leaves(code, m, s, -a)
    ensures code[m.pc].opcode == NOT ==> LeavesBit(code, m, s, a == 0)
  {
  }

  predicate TakesTwo(op: Opcode)
  {
    op in {ADD, SUB, MUL, DIV, MOD, LT, GT, LE, GE, EQ, NE, AND, OR}
  }

  /** An instruction that finds too few values faults; a division by a lone zero reports the zero first. */
  lemma TooFew(code: Code, m: Machine)
    requires m.pc < |code|
    ensures TakesTwo(code[m.pc].opcode) && (m.stack == [] || (|m.stack| == 1 && (m.stack == [0] ==> code[m.pc].opcode !in {DIV, MOD}))) ==>
              Faults(code, m, StackUnderflow)
    ensures code[m.pc].opcode in {STORE, NEG, NOT, JZ, JNZ} && m.stack == [] ==> Faults(code, m, StackUnderflow)
  {
  }

  /** Pushing a number, loading a variable that is set, and storing what is on top. */
  lemma Data(code: Code, m: Machine, s: seq<int>, a: int, n: int, x: string)
    requires m.pc < |code|
    ensures code[m.pc] == Instr(PUSH, Number(n)) ==> Leaves(code, m, m.stack, n)
    ensures code[m.pc] == Instr(LOAD, Text(x)) ==>
              if x in m.vars then Leaves(code, m, m.stack, m.vars[x]) else Faults(code, m, UndefinedVariable)
    ensures code[m.pc] == Instr(STORE, Text(x)) && m.stack == s + [a] ==>
              Step(code, m) == Running(Machine(m.pc + 1, s, m.vars[x := a], m.calls))
    ensures code[m.pc].opcode == POP ==>
              Step(code, m) == Running(m.(pc := m.pc + 1, stack := if m.stack == [] then [] else m.stack[..|m.stack| - 1]))
  {
  }

  /** Jumps go to their target: always, on zero, on anything but zero; both conditional ones use up the value they test. */
  lemma Jumps(code: Code, m: Machine, s: seq<int>, a: int, target: nat)
    requires m.pc < |code|
    ensures code[m.pc] == Instr(JMP, Number(target)) ==> Step(code, m) == Running(m.(pc := target))
    ensures code[m.pc] == Instr(JZ, Number(target)) && m.stack == s + [a] ==>
              Step(code, m) == Running(m.(stack := s, pc := if a == 0 then target else m.pc + 1))
    ensures code[m.pc] == Instr(JNZ, Number(target)) && m.stack == s + [a] ==>
              Step(code, m) == Running(m.(stack := s, pc := if a != 0 then target else m.pc + 1))
  {
  }

  /** Execution goes on behind a call when the callee returns, unless the call was made by `main`: then the return ends the program. */
  lemma CallAndReturn(code: Code, m: Machine, target: nat, m1: Machine)
    requires m.pc < |code| && code[m.pc] == Instr(CALL, Number(target))
    requires m1.pc < |code| && code[m1.pc].opcode == RET && m1.calls == m.calls + [m.pc + 1]
    ensures Step(code, m) == Running(Machine(target, m.stack, m.vars, m.calls + [m.pc + 1]))
    ensures Step(code, m1) == if m.calls != [] then Running(Machine(m.pc + 1, m1.stack, m1.vars, m.calls)) else Halted(Top(m1.stack))
  {
  }

  /** A return with at most one address left and a halt end the program with what is on top, or 0. */
  lemma Ends(code: Code, m: Machine, s: seq<int>, a: int)
    requires m.pc < |code| && (code[m.pc].opcode == HALT || (code[m.pc].opcode == RET && |m.calls| <= 1))
    ensures m.stack == s + [a] ==> Step(code, m) == Halted(a)
    ensures m.stack == [] ==> Step(code, m) == Halted(0)
  {
  }

  // ---- The source language ----

  /** The value of an operator expression, from the values of its operands. */
  lemma OperatorValues(order: Order, op: BinOp, l: Expr, r: Expr, s: Store, a: int, b: int)
    requires Eval(order, l, s) == Ok(a) && Eval(order, r, s) == Ok(b)
    ensures var v := Eval(order, Bin(op, l, r), s);
            && (op == Add ==> v == Ok(a + b)) && (op == Sub ==> v == Ok(a - b)) && (op == Mul ==> v == Ok(a * b))
            && (op == Lt ==> v == Ok(if a < b then 1 else 0)) && (op == Gt ==> v == Ok(if a > b then 1 else 0))
            && (op == Le ==> v == Ok(if a <= b then 1 else 0)) && (op == Ge ==> v == Ok(if a >= b then 1 else 0))
            && (op == Eq ==> v == Ok(if a == b then 1 else 0)) && (op == Ne ==> v == Ok(if a != b then 1 else 0))
            && (op == And ==> v == Ok(if a != 0 && b != 0 then 1 else 0)) && (op == Or ==> v == Ok(if a != 0 || b != 0 then 1 else 0))
            && (op == Div ==> v == if b == 0 then Err(DivisionByZero) else Ok(FloorDiv(a, b)))
            && (op == Mod ==> v == if b == 0 then Err(ModuloByZero) else Ok(FloorMod(a, b)))
  {
  }

  /** A conditional runs the branch its condition selects. */
  lemma Conditional(order: Order, c: Expr, thn: seq<Stmt>, els: seq<Stmt>, s: Store, fuel: nat)
    requires Eval(order, c, s).Ok?
    ensures ExecStmt(order, If(c, thn, els), s, fuel) == ExecStmts(order, if Eval(order, c, s) != Ok(0) then thn else els, s, fuel)
  {
  }

  /** A loop is a conditional around one iteration and the loop again. */
  lemma LoopUnfolds(order: Order, c: Expr, body: seq<Stmt>, s: Store, fuel: nat)
    requires fuel > 0
    ensures ExecStmt(order, While(c, body), s, fuel) == ExecStmt(order, If(c, body + [While(c, body)], []), s, fuel - 1)
  {
    var loop := While(c, body);
    ExecAppend(order, body, [loop], s, fuel - 1);
    var r := ExecStmts(order, body, s, fuel - 1);
    assert [loop][1..] == [];
    assert r.Normal? ==> ExecStmts(order, [loop], r.store, fuel - 1) == ExecStmt(order, loop, r.store, fuel - 1);
  }

  /** After an assignment the variable reads as the value, and every other variable as before. */
  lemma AssignThenRead(order: Order, x: string, e: Expr, y: string, s: Store, fuel: nat)
    requires Eval(order, e, s).Ok?
    ensures ExecStmts(order, [Assign(x, e), Return(Some(Var(y)))], s, fuel) ==
              if y == x then Returned(Eval(order, e, s).value)
              else if y in s then Returned(s[y]) else Faulted(UndefinedVariable)
    ensures ExecStmt(order, VarDecl(x, Some(e)), s, fuel) == ExecStmt(order, Assign(x, e), s, fuel)
    ensures ExecStmt(order, VarDecl(x, None), s, fuel) == Normal(s)
  {
    var tail := [Return(Some(Var(y)))];
    assert [Assign(x, e), Return(Some(Var(y)))][1..] == tail;
    var s1 := s[x := Eval(order, e, s).value];
    assert ExecStmts(order, tail, s1, fuel) == ExecStmt(order, Return(Some(Var(y))), s1, fuel);
  }

  /** Nothing behind a return or a fault is run. */
  lemma ReturnStops(order: Order, ss: seq<Stmt>, rest: seq<Stmt>, s: Store, fuel: nat)
    requires !ExecStmts(order, ss, s, fuel).Normal?
    ensures ExecStmts(order, ss + rest, s, fuel) == ExecStmts(order, ss, s, fuel)
  {
    ExecAppend(order, ss, rest, s, fuel);
  }
}
