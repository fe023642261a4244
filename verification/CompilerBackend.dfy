/**
 Three-address code to bytecode: every IR step is a short run of the virtual machine that starts
 and ends with an empty operand stack.
 */
module CompilerBackend {
  import opened CompilerNames
  import opened CompilerSource
  import opened CompilerMachine
  import IR = CompilerIR

  /** The bytecode address of IR instruction `i`. */
  function Address(ir: seq<IR.IR>, i: nat): nat
    requires i <= |ir|
  {
    |CodeAll(ir[..i])|
  }

  lemma AddressNext(ir: seq<IR.IR>, i: nat)
    requires i < |ir|
    ensures Address(ir, i + 1) == Address(ir, i) + |CodeOf(ir[i])|
    ensures |CodeOf(ir[i])| == IR.Width(ir[i])
  {
    assert ir[..i + 1][..i] == ir[..i];
    assert ir[..i + 1][i] == ir[i];
  }

  lemma {:induction false} CodePrefix(ir: seq<IR.IR>, i: nat)
    requires i <= |ir|
    ensures |CodeAll(ir[..i])| <= |CodeAll(ir)| && CodeAll(ir)[..|CodeAll(ir[..i])|] == CodeAll(ir[..i])
    decreases |ir|
  {
    if i == |ir| {
      assert ir[..i] == ir;
    } else {
      var front := ir[..|ir| - 1];
      CodePrefix(front, i);
      assert front[..i] == ir[..i];
    }
  }

  /** The code of IR instruction `i` lies at its address. */
  lemma CodePlaced(ir: seq<IR.IR>, i: nat, k: nat)
    requires i < |ir| && k < |CodeOf(ir[i])|
    ensures Address(ir, i) + k < |CodeAll(ir)|
    ensures CodeAll(ir)[Address(ir, i) + k] == CodeOf(ir[i])[k]
  {
    hide CodeAll, CodeOf;
    CodePrefix(ir, i + 1);
    CodeNext(ir, i);
    var c := CodeAll(ir[..i + 1]);
    assert c[Address(ir, i) + k] == CodeOf(ir[i])[k];
    assert CodeAll(ir)[..|c|][Address(ir, i) + k] == c[Address(ir, i) + k];
  }

  lemma CodeNext(ir: seq<IR.IR>, i: nat)
    requires i < |ir|
    ensures CodeAll(ir[..i + 1]) == CodeAll(ir[..i]) + CodeOf(ir[i])
  {
    hide CodeOf;
    assert ir[..i + 1][..i] == ir[..i] && ir[..i + 1][i] == ir[i];
  }

  /** The label table holds the address of the place `LabelIndex` finds. */
  lemma {:induction false} LabelAddress(ir: seq<IR.IR>, l: string)
    ensures IR.LabelIndex(ir, l).None? ==> l !in LabelsOf(ir)
    ensures IR.LabelIndex(ir, l).Some? ==>
              l in LabelsOf(ir) && LabelsOf(ir)[l] == Address(ir, IR.LabelIndex(ir, l).value)
    decreases |ir|
  {
    if ir != [] {
      var front := ir[..|ir| - 1];
      LabelAddress(front, l);
      var r := IR.LabelIndex(ir, l);
      if r.Some? && r.value < |ir| - 1 {
        assert front[..r.value] == ir[..r.value];
      }
    }
  }

  /** The finished code at the address of an IR instruction. */
  lemma Fetch(ir: seq<IR.IR>, i: nat, k: nat)
    requires i < |ir| && k < |CodeOf(ir[i])|
    ensures Address(ir, i) + k + 1 < |Assemble(ir).code|
    ensures Assemble(ir).code[Address(ir, i) + k] == ResolveInstr(CodeOf(ir[i])[k], LabelsOf(ir))
  {
    CodePlaced(ir, i, k);
  }

  lemma AddressInCode(ir: seq<IR.IR>, i: nat)
    requires i <= |ir|
    ensures Address(ir, i) < |Assemble(ir).code|
    ensures i == |ir| ==> Assemble(ir).code[Address(ir, i)] == Instr(HALT, NoOperand)
  {
    CodePrefix(ir, i);
    if i == |ir| { assert ir[..i] == ir; }
  }

  function Boundary(ir: seq<IR.IR>, st: IR.State): Machine
    requires st.pc <= |ir|
  {
    Machine(Address(ir, st.pc), [], st.vars, [])
  }

  /** What the machine must show after an IR step. */
  ghost predicate Matches(ir: seq<IR.IR>, r: IR.Run, status: Status)
    requires r.Running? ==> r.state.pc <= |ir|
  {
    match r
    case Running(st) => status == Running(Boundary(ir, st))
    case Done(v) => status == Halted(v)
    case Failed(f) => status == Crashed(f)
    case NoSuchLabel => true
  }

  /** Loading an operand pushes its value or crashes as reading it does. */
  lemma LoadStep(code: Code, m: Machine, v: string)
    requires m.pc + 1 < |code| && code[m.pc] == LoadCode(v)
    ensures var r := IR.OperandValue(v, m.vars);
            RunFor(code, m, 1) == if r.Ok? then Running(Push(m, r.value)) else Crashed(r.fault)
  {
    hide IsConstant, ConstantOf;
    var r := Step(code, m);
    if r.Running? { assert RunFor(code, r.m, 0) == r; }
  }

  lemma OneStep(code: Code, m: Machine)
    requires m.pc < |code|
    requires Step(code, m).Running? ==> Step(code, m).m.pc < |code|
    ensures RunFor(code, m, 1) == Step(code, m)
  {
    if Step(code, m).Running? { assert RunFor(code, Step(code, m).m, 0) == Step(code, m); }
  }

  lemma StoreStep(code: Code, m: Machine, d: string, x: int)
    requires m.pc + 1 < |code| && code[m.pc] == StoreCode(d) && m.stack == [x]
    ensures RunFor(code, m, 1) == Running(Machine(m.pc + 1, [], m.vars[d := x], m.calls))
  {
    OneStep(code, m);
  }

  lemma ArithStep(code: Code, m: Machine, op: BinOp, a: int, b: int)
    requires m.pc + 1 < |code| && code[m.pc] == Instr(OpcodeOf(op), NoOperand) && m.stack == [a, b]
    ensures var r := ApplyBin(op, a, b);
            RunFor(code, m, 1) == if r.Ok? then Running(Machine(m.pc + 1, [r.value], m.vars, m.calls)) else Crashed(r.fault)
  {
    assert Pop(m.stack) == [a] && Pop(Pop(m.stack)) == [];
    assert Step(code, m) == BinaryStep(op, m);
    OneStep(code, m);
  }

  lemma BinaryBlock(ir: seq<IR.IR>, st: IR.State)
    requires st.pc < |ir| && ir[st.pc].BinaryIR?
    ensures Matches(ir, IR.Step(ir, st), RunFor(Assemble(ir).code, Boundary(ir, st), 4))
  {
    hide IsConstant, RunFor, Step, ApplyBin, Assemble, Resolve, CodeAll, LabelsOf, IR.OperandValue, LoadCode, Address;
    var i := ir[st.pc];
    var code := Assemble(ir).code;
    var m0 := Boundary(ir, st);
    Fetch(ir, st.pc, 0); Fetch(ir, st.pc, 1); Fetch(ir, st.pc, 2); Fetch(ir, st.pc, 3);
    AddressNext(ir, st.pc);
    LoadNotJump(i.left, LabelsOf(ir));
    LoadNotJump(i.right, LabelsOf(ir));
    var ra := IR.OperandValue(i.left, st.vars);
    var rb := IR.OperandValue(i.right, st.vars);
    LoadStep(code, m0, i.left);
    if ra.Err? {
      RunMonotone(code, m0, 1, 4);
    } else {
      var m1 := Push(m0, ra.value);
      LoadStep(code, m1, i.right);
      RunCompose(code, m0, 1, m1, 3);
      if rb.Err? {
        RunMonotone(code, m1, 1, 3);
      } else {
        var m2 := Push(m1, rb.value);
        assert m2.stack == [ra.value, rb.value];
        RunCompose(code, m1, 1, m2, 2);
        ArithStep(code, m2, i.op, ra.value, rb.value);
        var rc := ApplyBin(i.op, ra.value, rb.value);
        if rc.Err? {
          RunMonotone(code, m2, 1, 2);
        } else {
          var m3 := Machine(m2.pc + 1, [rc.value], m2.vars, m2.calls);
          RunCompose(code, m2, 1, m3, 1);
          StoreStep(code, m3, i.dest, rc.value);
        }
      }
    }
  }

  lemma LoadNotJump(v: string, labels: Labels)
    ensures ResolveInstr(LoadCode(v), labels) == LoadCode(v)
  {
  }

  lemma NegateStep(code: Code, m: Machine, op: UnOp, a: int)
    requires m.pc + 1 < |code| && code[m.pc] == Instr(if op == Neg then NEG else NOT, NoOperand) && m.stack == [a]
    ensures RunFor(code, m, 1) == Running(Machine(m.pc + 1, [ApplyUn(op, a)], m.vars, m.calls))
  {
    assert Pop(m.stack) == [];
    OneStep(code, m);
  }

  lemma UnaryBlock(ir: seq<IR.IR>, st: IR.State)
    requires st.pc < |ir| && ir[st.pc].UnaryIR?
    ensures Matches(ir, IR.Step(ir, st), RunFor(Assemble(ir).code, Boundary(ir, st), 3))
  {
    hide IsConstant, RunFor, Step, ApplyUn, Assemble, Resolve, CodeAll, LabelsOf, IR.OperandValue, LoadCode, Address;
    var i := ir[st.pc];
    var code := Assemble(ir).code;
    var m0 := Boundary(ir, st);
    Fetch(ir, st.pc, 0); Fetch(ir, st.pc, 1); Fetch(ir, st.pc, 2);
    AddressNext(ir, st.pc);
    LoadNotJump(i.operand, LabelsOf(ir));
    var ra := IR.OperandValue(i.operand, st.vars);
    LoadStep(code, m0, i.operand);
    if ra.Err? {
      RunMonotone(code, m0, 1, 3);
    } else {
      var m1 := Push(m0, ra.value);
      RunCompose(code, m0, 1, m1, 2);
      NegateStep(code, m1, i.uop, ra.value);
      var x := ApplyUn(i.uop, ra.value);
      var m2 := Machine(m1.pc + 1, [x], m1.vars, m1.calls);
      RunCompose(code, m1, 1, m2, 1);
      StoreStep(code, m2, i.dest, x);
    }
  }

  lemma CopyBlock(ir: seq<IR.IR>, st: IR.State)
    requires st.pc < |ir| && ir[st.pc].CopyIR?
    ensures Matches(ir, IR.Step(ir, st), RunFor(Assemble(ir).code, Boundary(ir, st), 2))
  {
    hide IsConstant, RunFor, Step, Assemble, Resolve, CodeAll, LabelsOf, IR.OperandValue, LoadCode, Address;
    var i := ir[st.pc];
    var code := Assemble(ir).code;
    var m0 := Boundary(ir, st);
    Fetch(ir, st.pc, 0); Fetch(ir, st.pc, 1);
    AddressNext(ir, st.pc);
    LoadNotJump(i.source, LabelsOf(ir));
    var ra := IR.OperandValue(i.source, st.vars);
    LoadStep(code, m0, i.source);
    if ra.Err? {
      RunMonotone(code, m0, 1, 2);
    } else {
      var m1 := Push(m0, ra.value);
      RunCompose(code, m0, 1, m1, 1);
      assert m1.stack == [ra.value];
      StoreStep(code, m1, i.dest, ra.value);
    }
  }

  /** A resolved jump goes to the address of its label. */
  lemma TargetAddress(ir: seq<IR.IR>, l: string, vars: Store)
    requires IR.LabelIndex(ir, l).Some?
    ensures IR.Goto(ir, l, vars) == IR.Running(IR.State(IR.LabelIndex(ir, l).value, vars))
    ensures l in LabelsOf(ir) && LabelsOf(ir)[l] == Address(ir, IR.LabelIndex(ir, l).value)
    ensures LabelsOf(ir)[l] < |Assemble(ir).code|
  {
    LabelAddress(ir, l);
    AddressInCode(ir, IR.LabelIndex(ir, l).value);
  }

  lemma JumpBlock(ir: seq<IR.IR>, st: IR.State)
    requires st.pc < |ir| && ir[st.pc].JumpIR?
    ensures Matches(ir, IR.Step(ir, st), RunFor(Assemble(ir).code, Boundary(ir, st), 1))
  {
    hide RunFor, Assemble, Resolve, CodeAll, LabelsOf, Address, IR.LabelIndex;
    var l := ir[st.pc].target;
    Fetch(ir, st.pc, 0);
    if IR.LabelIndex(ir, l).Some? {
      TargetAddress(ir, l, st.vars);
      OneStep(Assemble(ir).code, Boundary(ir, st));
    }
  }

  /** The conditional jump pops its condition; where it goes is up to its resolved operand. */
  lemma CondStep(code: Code, m: Machine, a: int)
    requires m.pc + 1 < |code| && code[m.pc].opcode == JNZ && m.stack == [a]
    ensures var o := code[m.pc].operand;
            && (a == 0 ==> RunFor(code, m, 1) == Running(Machine(m.pc + 1, [], m.vars, m.calls)))
            && (a != 0 && o.Number? && 0 <= o.n < |code| ==> RunFor(code, m, 1) == Running(Machine(o.n, [], m.vars, m.calls)))
  {
    assert Pop(m.stack) == [];
    var o := code[m.pc].operand;
    if a == 0 || (o.Number? && 0 <= o.n < |code|) { OneStep(code, m); }
  }

  lemma CondJumpBlock(ir: seq<IR.IR>, st: IR.State)
    requires st.pc < |ir| && ir[st.pc].CondJumpIR?
    ensures Matches(ir, IR.Step(ir, st), RunFor(Assemble(ir).code, Boundary(ir, st), 2))
  {
    hide RunFor, Step, Assemble, Resolve, CodeAll, LabelsOf, Address, IR.LabelIndex, IsConstant, IR.OperandValue, LoadCode;
    var i := ir[st.pc];
    var code := Assemble(ir).code;
    var m0 := Boundary(ir, st);
    Fetch(ir, st.pc, 0); Fetch(ir, st.pc, 1);
    AddressNext(ir, st.pc);
    LoadNotJump(i.cond, LabelsOf(ir));
    var ra := IR.OperandValue(i.cond, st.vars);
    LoadStep(code, m0, i.cond);
    if ra.Err? {
      RunMonotone(code, m0, 1, 2);
    } else {
      var m1 := Push(m0, ra.value);
      RunCompose(code, m0, 1, m1, 1);
      CondStep(code, m1, ra.value);
      if IR.LabelIndex(ir, i.target).Some? { TargetAddress(ir, i.target, st.vars); }
    }
  }

  lemma ReturnBlock(ir: seq<IR.IR>, st: IR.State)
    requires st.pc < |ir| && ir[st.pc].ReturnIR?
    ensures Matches(ir, IR.Step(ir, st), RunFor(Assemble(ir).code, Boundary(ir, st), 2))
  {
    hide RunFor, Assemble, Resolve, CodeAll, LabelsOf, Address, IsConstant, IR.OperandValue, LoadCode;
    var i := ir[st.pc];
    var code := Assemble(ir).code;
    var m0 := Boundary(ir, st);
    Fetch(ir, st.pc, 0);
    match i.value {
      case None =>
        OneStep(code, m0);
        RunMonotone(code, m0, 1, 2);
      case Some(v) =>
        Fetch(ir, st.pc, 1);
        LoadNotJump(v, LabelsOf(ir));
        LoadStep(code, m0, v);
        var ra := IR.OperandValue(v, st.vars);
        if ra.Err? {
          RunMonotone(code, m0, 1, 2);
        } else {
          var m1 := Push(m0, ra.value);
          RunCompose(code, m0, 1, m1, 1);
          OneStep(code, m1);
        }
    }
  }

  /** One IR step, in as many machine steps as its width when it keeps running. */
  lemma StepSim(ir: seq<IR.IR>, st: IR.State) returns (n: nat)
    requires st.pc <= |ir|
    ensures Matches(ir, IR.Step(ir, st), RunFor(Assemble(ir).code, Boundary(ir, st), n))
    ensures IR.Step(ir, st).Running? ==> st.pc < |ir| && n == IR.Width(ir[st.pc])
  {
    hide RunFor, Assemble, CodeAll, LabelsOf, Matches;
    if st.pc == |ir| {
      n := 1;
      HaltBlock(ir, st);
    } else {
      match ir[st.pc]
      case BinaryIR(_, _, _, _) => n := 4; BinaryBlock(ir, st);
      case UnaryIR(_, _, _) => n := 3; UnaryBlock(ir, st);
      case CopyIR(_, _) => n := 2; CopyBlock(ir, st);
      case LabelIR(_) => n := 0; LabelBlock(ir, st);
      case JumpIR(_) => n := 1; JumpBlock(ir, st);
      case CondJumpIR(_, _) => n := 2; CondJumpBlock(ir, st);
      case ReturnIR(_) => n := 2; ReturnBlock(ir, st);
    }
  }

  lemma HaltBlock(ir: seq<IR.IR>, st: IR.State)
    requires st.pc == |ir|
    ensures Matches(ir, IR.Step(ir, st), RunFor(Assemble(ir).code, Boundary(ir, st), 1))
  {
    AddressInCode(ir, st.pc);
    OneStep(Assemble(ir).code, Boundary(ir, st));
  }

  lemma LabelBlock(ir: seq<IR.IR>, st: IR.State)
    requires st.pc < |ir| && ir[st.pc].LabelIR?
    ensures Matches(ir, IR.Step(ir, st), RunFor(Assemble(ir).code, Boundary(ir, st), 0))
  {
    AddressNext(ir, st.pc);
    AddressInCode(ir, st.pc);
  }

  /** Whole IR runs are whole machine runs; a run that is still going has the cost as its length. */
  lemma {:induction false} RunSim(ir: seq<IR.IR>, st: IR.State, k: nat) returns (n: nat)
    requires st.pc <= |ir|
    ensures Matches(ir, IR.RunFor(ir, st, k), RunFor(Assemble(ir).code, Boundary(ir, st), n))
    ensures IR.RunFor(ir, st, k).Running? ==> n == IR.Cost(ir, st, k)
    decreases k
  {
    hide RunFor, Assemble, CodeAll, LabelsOf, IR.Step, Address;
    if k == 0 {
      n := 0;
      AtRest(ir, st);
    } else {
      n := StepSim(ir, st);
      if IR.Step(ir, st).Running? {
        var st1 := IR.Step(ir, st).state;
        var n1 := RunSim(ir, st1, k - 1);
        RunCompose(Assemble(ir).code, Boundary(ir, st), n, Boundary(ir, st1), n1);
        n := n + n1;
      }
    }
  }

  lemma AtRest(ir: seq<IR.IR>, st: IR.State)
    requires st.pc <= |ir|
    ensures RunFor(Assemble(ir).code, Boundary(ir, st), 0) == Running(Boundary(ir, st))
  {
    AddressInCode(ir, st.pc);
  }
}
