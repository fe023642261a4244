/**
 The back end in the form the program has it: objects that append to instruction lists, bump
 counters, fill a label table and step a machine, each tied to the functions of the other modules.
 */
module CompilerClasses {
  import opened CompilerNames
  import opened CompilerSource
  import opened CompilerMachine
  import opened CompilerTheorem
  import CompilerSim
  import IR = CompilerIR

  /** Appending the pieces of an `if` one by one appends `IfCode`. */
  lemma IfAppended(i: seq<IR.IR>, gc: IR.ExprGen, els: seq<IR.IR>, thn: seq<IR.IR>, l: nat)
    ensures i + gc.code + [IR.CondJumpIR(gc.result, Label(l))] + els + [IR.JumpIR(Label(l + 2))] + [IR.LabelIR(Label(l))]
              + thn + [IR.LabelIR(Label(l + 2))]
            == i + IR.IfCode(gc, els, thn, l)
  {
    hide Label;
  }

  /** Appending the pieces of a `while` one by one appends `WhileCode`. */
  lemma WhileAppended(i: seq<IR.IR>, gc: IR.ExprGen, body: seq<IR.IR>, l: nat)
    ensures i + [IR.LabelIR(Label(l))] + gc.code + [IR.CondJumpIR(gc.result, Label(l + 1))] + [IR.JumpIR(Label(l + 2))]
              + [IR.LabelIR(Label(l + 1))] + body + [IR.JumpIR(Label(l))] + [IR.LabelIR(Label(l + 2))]
            == i + IR.WhileCode(gc, body, l)
  {
    hide Label;
  }

  class IRGenerator {
    var instructions: seq<IR.IR>
    var tempCounter: nat
    var labelCounter: nat

    constructor ()
      ensures instructions == [] && tempCounter == 0 && labelCounter == 0
    {
      instructions, tempCounter, labelCounter := [], 0, 0;
    }

    method NewTemp() returns (temp: string)
      modifies this`tempCounter
      ensures temp == Temp(old(tempCounter)) && tempCounter == old(tempCounter) + 1
    {
      temp := Temp(tempCounter);
      tempCounter := tempCounter + 1;
    }

    method NewLabel() returns (lbl: string)
      modifies this`labelCounter
      ensures lbl == Label(old(labelCounter)) && labelCounter == old(labelCounter) + 1
    {
      lbl := Label(labelCounter);
      labelCounter := labelCounter + 1;
    }

    method Emit(i: IR.IR)
      modifies this`instructions
      ensures instructions == old(instructions) + [i]
    {
      instructions := instructions + [i];
    }

    method GenerateExpression(e: Expr) returns (result: string)
      modifies this`instructions, this`tempCounter
      ensures var g := IR.GenExpr(e, old(tempCounter));
              result == g.result && tempCounter == g.temps && instructions == old(instructions) + g.code
      decreases e
    {
      match e
      case IntLit(n) => result := IntToStr(n);
      case BoolLit(b) => result := if b then "1" else "0";
      case Var(x) => result := x;
      case Bin(op, l, r) =>
        var left := GenerateExpression(l);
        var right := GenerateExpression(r);
        result := NewTemp();
        Emit(IR.BinaryIR(result, op, left, right));
      case Un(op, e0) =>
        var operand := GenerateExpression(e0);
        result := NewTemp();
        Emit(IR.UnaryIR(result, op, operand));
    }

    method GenerateStatement(st: Stmt)
      modifies this
      ensures var g := IR.GenStmt(st, old(tempCounter), old(labelCounter));
              tempCounter == g.temps && labelCounter == g.labels && instructions == old(instructions) + g.code
      decreases st, 1
    {
      match st
      case VarDecl(x, init) =>
        if init.Some? {
          var value := GenerateExpression(init.value);
          Emit(IR.CopyIR(x, value));
        }
      case Assign(x, e) =>
        var value := GenerateExpression(e);
        Emit(IR.CopyIR(x, value));
      case If(_, _, _) => GenerateIfStatement(st);
      case While(_, _) => GenerateWhileStatement(st);
      case Return(ret) =>
        if ret.Some? {
          var value := GenerateExpression(ret.value);
          Emit(IR.ReturnIR(Some(value)));
        } else {
          Emit(IR.ReturnIR(None));
        }
      case ExprStmt(e) => var _ := GenerateExpression(e);
    }

    method GenerateIfStatement(st: Stmt)
      requires st.If?
      modifies this
      ensures var g := IR.GenStmt(st, old(tempCounter), old(labelCounter));
              tempCounter == g.temps && labelCounter == g.labels && instructions == old(instructions) + g.code
      decreases st, 0
    {
      hide IR.GenExpr, IR.GenStmts, IR.IfCode, Label;
      ghost var gc := IR.GenExpr(st.cond, tempCounter);
      ghost var ge := IR.GenStmts(st.els, gc.temps, labelCounter + 3);
      IfAppended(instructions, gc, ge.code, IR.GenStmts(st.thn, ge.temps, ge.labels).code, labelCounter);
      var cond := GenerateExpression(st.cond);
      var thenLabel := NewLabel();
      var elseLabel := NewLabel();
      var endLabel := NewLabel();
      Emit(IR.CondJumpIR(cond, thenLabel));
      GenerateBlock(st.els);
      Emit(IR.JumpIR(endLabel));
      Emit(IR.LabelIR(thenLabel));
      GenerateBlock(st.thn);
      Emit(IR.LabelIR(endLabel));
    }

    method GenerateWhileStatement(st: Stmt)
      requires st.While?
      modifies this
      ensures var g := IR.GenStmt(st, old(tempCounter), old(labelCounter));
              tempCounter == g.temps && labelCounter == g.labels && instructions == old(instructions) + g.code
      decreases st, 0
    {
      hide IR.GenExpr, IR.GenStmts, IR.WhileCode, Label;
      ghost var gc := IR.GenExpr(st.cond, tempCounter);
      WhileAppended(instructions, gc, IR.GenStmts(st.body, gc.temps, labelCounter + 3).code, labelCounter);
      var startLabel := NewLabel();
      var bodyLabel := NewLabel();
      var endLabel := NewLabel();
      Emit(IR.LabelIR(startLabel));
      var cond := GenerateExpression(st.cond);
      Emit(IR.CondJumpIR(cond, bodyLabel));
      Emit(IR.JumpIR(endLabel));
      Emit(IR.LabelIR(bodyLabel));
      GenerateBlock(st.body);
      Emit(IR.JumpIR(startLabel));
      Emit(IR.LabelIR(endLabel));
    }

    method GenerateBlock(ss: seq<Stmt>)
      modifies this
      ensures var g := IR.GenStmts(ss, old(tempCounter), old(labelCounter));
              tempCounter == g.temps && labelCounter == g.labels && instructions == old(instructions) + g.code
      decreases ss, 0
    {
      hide IR.GenStmts, IR.GenStmt;
      ghost var all := IR.GenStmts(ss, tempCounter, labelCounter);
      ghost var before := instructions;
      assert ss[0..] == ss;
      var i := 0;
      while i < |ss|
        invariant 0 <= i <= |ss|
        invariant var rest := IR.GenStmts(ss[i..], tempCounter, labelCounter);
                  && all.temps == rest.temps && all.labels == rest.labels
                  && before + all.code == instructions + rest.code
      {
        BlockStep(ss, i, tempCounter, labelCounter);
        GenerateStatement(ss[i]);
        i := i + 1;
      }
      BlockEnd(ss, tempCounter, labelCounter);
      assert i == |ss| && instructions + [] == instructions;
    }

    static lemma BlockStep(ss: seq<Stmt>, i: nat, t: nat, l: nat)
      requires i < |ss|
      ensures var g := IR.GenStmt(ss[i], t, l);
              var rest := IR.GenStmts(ss[i + 1..], g.temps, g.labels);
              IR.GenStmts(ss[i..], t, l) == IR.StmtGen(g.code + rest.code, rest.temps, rest.labels)
    {
      hide IR.GenStmt;
      assert ss[i..][0] == ss[i] && ss[i..][1..] == ss[i + 1..];
    }

    static lemma BlockEnd(ss: seq<Stmt>, t: nat, l: nat)
      ensures IR.GenStmts(ss[|ss|..], t, l) == IR.StmtGen([], t, l)
    {
    }

    method Generate(main: seq<Stmt>)
      requires instructions == [] && tempCounter == 0 && labelCounter == 0
      modifies this
      ensures instructions == IR.GenMain(main).code
    {
      Emit(IR.LabelIR(MAIN_LABEL));
      GenerateBlock(main);
    }
  }

  class Bytecode {
    var instructions: seq<Instr>
    var labels: Labels

    constructor ()
      ensures instructions == [] && labels == map[]
    {
      instructions, labels := [], map[];
    }

    method Add(opcode: Opcode, operand: Operand)
      modifies this`instructions
      ensures instructions == old(instructions) + [Instr(opcode, operand)]
    {
      instructions := instructions + [Instr(opcode, operand)];
    }

    method AddLabel(lbl: string)
      modifies this`labels
      ensures labels == old(labels)[lbl := |instructions|]
    {
      labels := labels[lbl := |instructions|];
    }

    /** Rewrites jump operands in place, one instruction at a time. */
    method ResolveLabels()
      modifies this`instructions
      ensures instructions == Resolve(old(instructions), labels)
    {
      var i := 0;
      while i < |instructions|
        invariant 0 <= i <= |instructions| == |old(instructions)|
        invariant forall k :: 0 <= k < i ==> instructions[k] == ResolveInstr(old(instructions)[k], labels)
        invariant forall k :: i <= k < |instructions| ==> instructions[k] == old(instructions)[k]
      {
        var instr := instructions[i];
        if instr.opcode in {JMP, JZ, JNZ, CALL} && instr.operand.Text? && instr.operand.s in labels {
          instructions := instructions[i := instr.(operand := Number(labels[instr.operand.s]))];
        }
        i := i + 1;
      }
    }
  }

  class CodeGenerator {
    const bytecode: Bytecode

    constructor ()
      ensures fresh(bytecode) && bytecode.instructions == [] && bytecode.labels == map[]
    {
      bytecode := new Bytecode();
    }

    method LoadValue(value: string)
      modifies bytecode`instructions
      ensures bytecode.instructions == old(bytecode.instructions) + [LoadCode(value)]
    {
      if IsConstant(value) {
        bytecode.Add(PUSH, Number(ConstantOf(value)));
      } else {
        bytecode.Add(LOAD, Text(value));
      }
    }

    method StoreVariable(x: string)
      modifies bytecode`instructions
      ensures bytecode.instructions == old(bytecode.instructions) + [StoreCode(x)]
    {
      bytecode.Add(STORE, Text(x));
    }

    method GenerateInstruction(i: IR.IR)
      modifies bytecode
      ensures bytecode.instructions == old(bytecode.instructions) + CodeOf(i)
      ensures bytecode.labels ==
              if i.LabelIR? then old(bytecode.labels)[i.lbl := |old(bytecode.instructions)|] else old(bytecode.labels)
    {
      match i
      case LabelIR(l) => bytecode.AddLabel(l);
      case BinaryIR(d, op, l, r) =>
        LoadValue(l);
        LoadValue(r);
        bytecode.Add(OpcodeOf(op), NoOperand);
        StoreVariable(d);
      case UnaryIR(d, op, e) =>
        LoadValue(e);
        bytecode.Add(if op == Neg then NEG else NOT, NoOperand);
        StoreVariable(d);
      case CopyIR(d, s) =>
        LoadValue(s);
        StoreVariable(d);
      case JumpIR(l) => bytecode.Add(JMP, Text(l));
      case CondJumpIR(c, l) =>
        LoadValue(c);
        bytecode.Add(JNZ, Text(l));
      case ReturnIR(v) =>
        if v.Some? {
          LoadValue(v.value);
        }
        bytecode.Add(RET, NoOperand);
    }

    method Generate(ir: seq<IR.IR>)
      requires bytecode.instructions == [] && bytecode.labels == map[]
      modifies bytecode
      ensures Program(bytecode.instructions, bytecode.labels) == Assemble(ir)
    {
      var i := 0;
      while i < |ir|
        invariant 0 <= i <= |ir|
        invariant bytecode.instructions == CodeAll(ir[..i]) && bytecode.labels == LabelsOf(ir[..i])
      {
        assert ir[..i + 1][..i] == ir[..i] && ir[..i + 1][i] == ir[i];
        GenerateInstruction(ir[i]);
        i := i + 1;
      }
      assert ir[..i] == ir;
      bytecode.Add(HALT, NoOperand);
      bytecode.ResolveLabels();
    }
  }

  class VM {
    const program: Program
    var stack: seq<int>
    var variables: Store
    var pc: nat
    var callStack: seq<nat>

    constructor (program: Program)
      ensures this.program == program && State() == Machine(0, [], map[], [])
    {
      this.program := program;
      stack, variables, pc, callStack := [], map[], 0, [];
    }

    ghost function State(): Machine
      reads this
    {
      Machine(pc, stack, variables, callStack)
    }

    method PopValue() returns (v: int)
      requires stack != []
      modifies this`stack
      ensures v == Top(old(stack)) && stack == Pop(old(stack))
    {
      v := stack[|stack| - 1];
      stack := stack[..|stack| - 1];
    }

    method BinaryOp(op: BinOp) returns (err: Option<Fault>)
      modifies this`stack, this`pc
      ensures err.None? ==> BinaryStep(op, old(State())) == Running(State())
      ensures err.Some? ==> BinaryStep(op, old(State())) == Crashed(err.value)
    {
      if |stack| == 0 { return Some(StackUnderflow); }
      if op == Div && stack[|stack| - 1] == 0 { return Some(DivisionByZero); }
      if op == Mod && stack[|stack| - 1] == 0 { return Some(ModuloByZero); }
      if |stack| < 2 { return Some(StackUnderflow); }
      var b := PopValue();
      var a := PopValue();
      stack := stack + [ApplyBin(op, a, b).value];
      pc := pc + 1;
      return None;
    }

    method UnaryOp(op: UnOp) returns (err: Option<Fault>)
      modifies this`stack, this`pc
      ensures err.None? ==> UnaryStep(op, old(State())) == Running(State())
      ensures err.Some? ==> UnaryStep(op, old(State())) == Crashed(err.value)
    {
      if stack == [] { return Some(StackUnderflow); }
      stack := stack[..|stack| - 1] + [ApplyUn(op, stack[|stack| - 1])];
      pc := pc + 1;
      return None;
    }

    method Jump(operand: Operand) returns (err: Option<Fault>)
      modifies this`pc
      ensures operand.Number? && operand.n >= 0 ==> err.None? && pc == operand.n
      ensures !(operand.Number? && operand.n >= 0) ==> err == Some(BadOperand) && pc == old(pc)
    {
      if operand.Number? && operand.n >= 0 {
        pc := operand.n;
        return None;
      }
      return Some(BadOperand);
    }

    method CondJump(operand: Operand, whenZero: bool) returns (err: Option<Fault>)
      modifies this`stack, this`pc
      ensures old(stack) == [] ==> err == Some(StackUnderflow)
      ensures old(stack) != [] ==>
        var s := CondJumpStep(Instr(if whenZero then JZ else JNZ, operand), old(State()), (Top(old(stack)) == 0) == whenZero);
        (err.None? ==> s == Running(State())) && (err.Some? ==> s == Crashed(err.value))
    {
      if stack == [] { return Some(StackUnderflow); }
      var v := PopValue();
      if (v == 0) == whenZero {
        err := Jump(operand);
      } else {
        pc := pc + 1;
        err := None;
      }
    }

    /** One instruction; `stopped` when it ends the program. */
    method ExecuteInstruction() returns (err: Option<Fault>, stopped: bool)
      requires pc < |program.code|
      modifies this
      ensures err.Some? ==> Step(program.code, old(State())) == Crashed(err.value)
      ensures err.None? && stopped ==> Step(program.code, old(State())) == Halted(Top(stack))
      ensures err.None? && !stopped ==> Step(program.code, old(State())) == Running(State())
    {
      var i := program.code[pc];
      err, stopped := None, false;
      match i.opcode
      case PUSH =>
        if i.operand.Number? { stack := stack + [i.operand.n]; pc := pc + 1; } else { err := Some(BadOperand); }
      case LOAD =>
        if !i.operand.Text? { err := Some(BadOperand); }
        else if i.operand.s !in variables { err := Some(UndefinedVariable); }
        else { stack := stack + [variables[i.operand.s]]; pc := pc + 1; }
      case STORE =>
        if stack == [] { err := Some(StackUnderflow); }
        else if !i.operand.Text? { err := Some(BadOperand); }
        else {
          var v := PopValue();
          variables := variables[i.operand.s := v];
          pc := pc + 1;
        }
      case ADD => err := BinaryOp(Add);
      case SUB => err := BinaryOp(Sub);
      case MUL => err := BinaryOp(Mul);
      case DIV => err := BinaryOp(Div);
      case MOD => err := BinaryOp(Mod);
      case LT => err := BinaryOp(Lt);
      case GT => err := BinaryOp(Gt);
      case LE => err := BinaryOp(Le);
      case GE => err := BinaryOp(Ge);
      case EQ => err := BinaryOp(Eq);
      case NE => err := BinaryOp(Ne);
      case AND => err := BinaryOp(And);
      case OR => err := BinaryOp(Or);
      case NEG => err := UnaryOp(Neg);
      case NOT => err := UnaryOp(Not);
      case JMP => err := Jump(i.operand);
      case JZ => err := CondJump(i.operand, true);
      case JNZ => err := CondJump(i.operand, false);
      case CALL =>
        callStack := callStack + [pc + 1];
        err := Jump(i.operand);
      case RET =>
        if callStack != [] {
          pc := callStack[|callStack| - 1];
          callStack := callStack[..|callStack| - 1];
        } else {
          pc := |program.code|;
        }
        stopped := callStack == [];
      case HALT =>
        pc := |program.code|;
        stopped := true;
      case POP =>
        stack := if stack == [] then [] else stack[..|stack| - 1];
        pc := pc + 1;
    }

    /** The execution loop, cut off after `limit` instructions; None when there is no `main`. */
    method Execute(limit: nat) returns (r: Option<Status>)
      modifies this
      requires State() == Machine(0, [], map[], [])
      ensures r.None? <==> MAIN_LABEL !in program.labels
      ensures r.Some? ==> r.value == RunFor(program.code, Start(program), limit)
    {
      if MAIN_LABEL !in program.labels { return None; }
      pc := program.labels[MAIN_LABEL];
      var n := 0;
      while n < limit && pc < |program.code|
        invariant n <= limit
        invariant RunFor(program.code, Start(program), limit) == RunFor(program.code, State(), limit - n)
      {
        var err, stopped := ExecuteInstruction();
        if err.Some? { return Some(Crashed(err.value)); }
        if stopped { return Some(Halted(if stack == [] then 0 else stack[|stack| - 1])); }
        n := n + 1;
      }
      if pc < |program.code| {
        return Some(Running(Machine(pc, stack, variables, callStack)));
      }
      return Some(Halted(if stack == [] then 0 else stack[|stack| - 1]));
    }
  }

  /**
   The whole pipeline on a well-named `main`: whatever the machine reports within `limit` steps is
   the source's own result.
   */
  method CompileAndRun(main: seq<Stmt>, limit: nat) returns (r: Status)
    requires CompilerSim.InScope(main)
    ensures r.Halted? ==> exists fuel :: RunMain(OperandsLate, main, fuel) == Returned(r.value)
    ensures r.Crashed? ==> exists fuel :: RunMain(OperandsLate, main, fuel) == Faulted(r.fault)
    ensures r == Execution(main, limit)
  {
    var generator := new IRGenerator();
    generator.Generate(main);
    var backend := new CodeGenerator();
    backend.Generate(generator.instructions);
    var vm := new VM(Program(backend.bytecode.instructions, backend.bytecode.labels));
    EntryPoint(main);
    var status := vm.Execute(limit);
    r := status.value;
    assert r == Execution(main, limit);
    if !r.Running? {
      Backward(main, limit);
    }
  }
}
