/**
 Bytecode and its virtual machine, and the code generator as functions.
 */
module CompilerMachine {
  import opened CompilerNames
  import opened CompilerSource
  import IR = CompilerIR

  datatype Opcode =
    | PUSH | LOAD | STORE
    | ADD | SUB | MUL | DIV | MOD | NEG
    | LT | GT | LE | GE | EQ | NE
    | AND | OR | NOT
    | JMP | JZ | JNZ
    | CALL | RET
    | HALT | POP

  datatype Operand = NoOperand | Number(n: int) | Text(s: string)

  datatype Instr = Instr(opcode: Opcode, operand: Operand)

  type Code = seq<Instr>
  type Labels = map<string, nat>

  // ---- Code generation ----

  function OpcodeOf(op: BinOp): Opcode
  {
    match op
    case Add => ADD case Sub => SUB case Mul => MUL case Div => DIV case Mod => MOD
    case Lt => LT case Gt => GT case Le => LE case Ge => GE case Eq => EQ case Ne => NE
    case And => AND case Or => OR
  }

  function LoadCode(v: string): Instr
  {
    if IsConstant(v) then Instr(PUSH, Number(ConstantOf(v))) else Instr(LOAD, Text(v))
  }

  function StoreCode(v: string): Instr { Instr(STORE, Text(v)) }

  function CodeOf(i: IR.IR): Code
  {
    match i
    case BinaryIR(d, op, l, r) => [LoadCode(l), LoadCode(r), Instr(OpcodeOf(op), NoOperand), StoreCode(d)]
    case UnaryIR(d, op, e) => [LoadCode(e), Instr(if op == Neg then NEG else NOT, NoOperand), StoreCode(d)]
    case CopyIR(d, s) => [LoadCode(s), StoreCode(d)]
    case LabelIR(_) => []
    case JumpIR(l) => [Instr(JMP, Text(l))]
    case CondJumpIR(c, l) => [LoadCode(c), Instr(JNZ, Text(l))]
    case ReturnIR(None) => [Instr(RET, NoOperand)]
    case ReturnIR(Some(v)) => [LoadCode(v), Instr(RET, NoOperand)]
  }

  function CodeAll(ir: seq<IR.IR>): Code
  {
    if ir == [] then [] else CodeAll(ir[..|ir| - 1]) + CodeOf(ir[|ir| - 1])
  }

  function LabelsOf(ir: seq<IR.IR>): Labels
  {
    if ir == [] then map[]
    else
      var before := LabelsOf(ir[..|ir| - 1]);
      var last := ir[|ir| - 1];
      if last.LabelIR? then before[last.lbl := |CodeAll(ir[..|ir| - 1])|] else before
  }

  function ResolveInstr(i: Instr, labels: Labels): Instr
  {
    if i.opcode in {JMP, JZ, JNZ, CALL} && i.operand.Text? && i.operand.s in labels
    then Instr(i.opcode, Number(labels[i.operand.s])) else i
  }

  function Resolve(code: Code, labels: Labels): Code
  {
    seq(|code|, i requires 0 <= i < |code| => ResolveInstr(code[i], labels))
  }

  /** The finished program: code with resolved jumps and a trailing HALT, and its label table. */
  datatype Program = Program(code: Code, labels: Labels)

  function Assemble(ir: seq<IR.IR>): Program
  {
    Program(Resolve(CodeAll(ir) + [Instr(HALT, NoOperand)], LabelsOf(ir)), LabelsOf(ir))
  }

  // ---- Execution ----

  datatype Machine = Machine(pc: nat, stack: seq<int>, vars: Store, calls: seq<nat>)
  datatype Status = Running(m: Machine) | Halted(value: int) | Crashed(fault: Fault)

  function Top(stack: seq<int>): int
  {
    if stack == [] then 0 else stack[|stack| - 1]
  }

  function Pop(stack: seq<int>): seq<int>
    requires stack != []
  {
    stack[..|stack| - 1]
  }

  function Push(m: Machine, v: int): Machine
  {
    m.(stack := m.stack + [v], pc := m.pc + 1)
  }

  function BinaryStep(op: BinOp, m: Machine): Status
  {
    if |m.stack| == 0 then Crashed(StackUnderflow)
    else if (op == Div || op == Mod) && Top(m.stack) == 0 then
      Crashed(if op == Div then DivisionByZero else ModuloByZero)
    else if |m.stack| < 2 then Crashed(StackUnderflow)
    else
      var b := Top(m.stack);
      var a := Top(Pop(m.stack));
      match ApplyBin(op, a, b)
      case Ok(v) => Running(Push(m.(stack := Pop(Pop(m.stack))), v))
      case Err(f) => Crashed(f)
  }

  function UnaryStep(op: UnOp, m: Machine): Status
  {
    if m.stack == [] then Crashed(StackUnderflow)
    else Running(Push(m.(stack := Pop(m.stack)), ApplyUn(op, Top(m.stack))))
  }

  function JumpStep(i: Instr, m: Machine): Status
  {
    if i.operand.Number? && i.operand.n >= 0 then Running(m.(pc := i.operand.n)) else Crashed(BadOperand)
  }

  function CondJumpStep(i: Instr, m: Machine, taken: bool): Status
    requires m.stack != []
  {
    var m1 := m.(stack := Pop(m.stack));
    if taken then JumpStep(i, m1) else Running(m1.(pc := m.pc + 1))
  }

  /** One instruction.  A return that leaves the call stack empty ends the program. */
  function Step(code: Code, m: Machine): Status
    requires m.pc < |code|
  {
    var i := code[m.pc];
    match i.opcode
    case PUSH => if i.operand.Number? then Running(Push(m, i.operand.n)) else Crashed(BadOperand)
    case LOAD =>
      if !i.operand.Text? then Crashed(BadOperand)
      else if i.operand.s !in m.vars then Crashed(UndefinedVariable)
      else Running(Push(m, m.vars[i.operand.s]))
    case STORE =>
      if m.stack == [] then Crashed(StackUnderflow)
      else if !i.operand.Text? then Crashed(BadOperand)
      else Running(Machine(m.pc + 1, Pop(m.stack), m.vars[i.operand.s := Top(m.stack)], m.calls))
    case ADD => BinaryStep(Add, m)
    case SUB => BinaryStep(Sub, m)
    case MUL => BinaryStep(Mul, m)
    case DIV => BinaryStep(Div, m)
    case MOD => BinaryStep(Mod, m)
    case LT => BinaryStep(Lt, m)
    case GT => BinaryStep(Gt, m)
    case LE => BinaryStep(Le, m)
    case GE => BinaryStep(Ge, m)
    case EQ => BinaryStep(Eq, m)
    case NE => BinaryStep(Ne, m)
    case AND => BinaryStep(And, m)
    case OR => BinaryStep(Or, m)
    case NEG => UnaryStep(Neg, m)
    case NOT => UnaryStep(Not, m)
    case JMP => JumpStep(i, m)
    case JZ => if m.stack == [] then Crashed(StackUnderflow) else CondJumpStep(i, m, Top(m.stack) == 0)
    case JNZ => if m.stack == [] then Crashed(StackUnderflow) else CondJumpStep(i, m, Top(m.stack) != 0)
    case CALL => JumpStep(i, m.(calls := m.calls + [m.pc + 1]))
    case RET =>
      if |m.calls| <= 1 then Halted(Top(m.stack))
      else Running(m.(pc := m.calls[|m.calls| - 1], calls := m.calls[..|m.calls| - 1]))
    case HALT => Halted(Top(m.stack))
    case POP => Running(m.(stack := if m.stack == [] then [] else Pop(m.stack), pc := m.pc + 1))
  }

  function RunFor(code: Code, m: Machine, n: nat): Status
    decreases n
  {
    if m.pc >= |code| then Halted(Top(m.stack))
    else if n == 0 then Running(m)
    else match Step(code, m)
      case Running(m1) => RunFor(code, m1, n - 1)
      case other => other
  }

  function Start(p: Program): Machine
    requires MAIN_LABEL in p.labels
  {
    Machine(p.labels[MAIN_LABEL], [], map[], [])
  }

  lemma {:induction false} RunCompose(code: Code, m: Machine, a: nat, m1: Machine, b: nat)
    requires RunFor(code, m, a) == Running(m1)
    ensures RunFor(code, m, a + b) == RunFor(code, m1, b)
    decreases a
  {
    if a > 0 {
      RunCompose(code, Step(code, m).m, a - 1, m1, b);
    }
  }

  /** A stopped machine stays stopped, and a machine that runs for `b` steps runs for any fewer. */
  lemma {:induction false} RunMonotone(code: Code, m: Machine, a: nat, b: nat)
    requires a <= b
    ensures !RunFor(code, m, a).Running? ==> RunFor(code, m, b) == RunFor(code, m, a)
    ensures RunFor(code, m, b).Running? ==> RunFor(code, m, a).Running?
    decreases a
  {
    if a > 0 && m.pc < |code| && Step(code, m).Running? {
      RunMonotone(code, Step(code, m).m, a - 1, b - 1);
    }
  }
}
