/** The Compiler struct of compiler/compiler.rs: a buffer of encoded
    instructions, a constant pool and a symbol table, updated in place.
    Every method is proved to leave the state the corresponding function
    of CompilerSpec computes. */
module Compiler {
  import opened Results
  import opened Tokens
  import opened Ast
  import opened OpCode
  import opened Symbols
  import opened CompilerSpec
  import S = CompilerSpec

  class Compiler {
    var instructions: seq<Byte>
    var constants: seq<Const>
    var symbols: SymbolTable
    var last: Emitted
    var previous: Emitted

    function State(): CState
      reads this
    {
      CState(instructions, constants, symbols, last, previous)
    }

    constructor ()
      ensures State() == S.New()
    {
      instructions := [];
      constants := [];
      symbols := Empty();
      last := Emitted(OpNull, 0);
      previous := Emitted(OpNull, 0);
    }

    constructor WithState(symbolTable: SymbolTable, pool: seq<Const>)
      ensures State() == S.NewWithState(symbolTable, pool)
    {
      instructions := [];
      constants := pool;
      symbols := symbolTable;
      last := Emitted(OpNull, 0);
      previous := Emitted(OpNull, 0);
    }

    function ToBytecode(): Bytecode
      reads this
    {
      Bytecode(instructions, constants)
    }

    predicate LastInstructionIs(op: Opcode)
      reads this
    {
      last.opcode == op
    }

    method AddConstant(c: Const) returns (index: nat)
      modifies this
      ensures State() == S.AddConstant(old(State()), c)
      ensures index == |old(constants)| && constants[index] == c
    {
      constants := constants + [c];
      index := |constants| - 1;
    }

    method AddInstructions(ins: seq<Byte>) returns (pos: nat)
      modifies this
      ensures State() == S.AddInstructions(old(State()), ins)
      ensures pos == |old(instructions)|
    {
      pos := |instructions|;
      instructions := instructions + ins;
    }

    method SetLastInstruction(op: Opcode, pos: nat)
      modifies this
      ensures State() == S.SetLastInstruction(old(State()), op, pos)
    {
      previous := last;
      last := Emitted(op, pos);
    }

    method Emit(op: Opcode, operands: seq<nat>) returns (pos: nat)
      requires |operands| == OperandCount(op)
      modifies this
      ensures State() == S.Emit(old(State()), op, operands)
      ensures pos == |old(instructions)|
    {
      var ins := Make(op, operands);
      pos := AddInstructions(ins);
      SetLastInstruction(op, pos);
    }

    method RemoveLastPop()
      requires |instructions| > 0
      modifies this
      ensures State() == S.RemoveLastPop(old(State()))
    {
      instructions := instructions[..|instructions| - 1];
      last := previous;
    }

    method ReplaceInstruction(pos: nat, ins: seq<Byte>)
      requires pos + |ins| <= |instructions|
      modifies this
      ensures instructions == S.ReplaceInstruction(old(instructions), pos, ins)
      ensures constants == old(constants) && symbols == old(symbols)
      ensures last == old(last) && previous == old(previous)
    {
      for i := 0 to |ins|
        invariant instructions == S.ReplaceInstruction(old(instructions), pos, ins[..i])
        invariant constants == old(constants) && symbols == old(symbols)
        invariant last == old(last) && previous == old(previous)
      {
        ghost var before := instructions;
        instructions := instructions[pos + i := ins[i]];
        assert ins[..i + 1] == ins[..i] + [ins[i]];
        assert instructions == S.ReplaceInstruction(old(instructions), pos, ins[..i + 1]);
      }
      assert ins[..|ins|] == ins;
    }

    method ChangeOperand(pos: nat, operand: nat)
      requires Patchable(State(), pos)
      modifies this
      ensures State() == S.ChangeOperand(old(State()), pos, operand)
    {
      var op := CastToOpcode(instructions[pos]).value;
      var ins := Make(op, [operand]);
      ReplaceInstruction(pos, ins);
    }

    /** compile: fail-fast; on success the bytecode of the final state. */
    method Compile(n: Node) returns (r: Outcome<Bytecode, CompileError>)
      modifies this
      ensures var st := CompileNode(n, old(State()));
              State() == st.state &&
              r == (if st.out.Ok? then Ok(BytecodeOf(st.state)) else st.out.Propagate())
    {
      ghost var s0 := State();
      var out: CResult;
      match n {
      case ProgramNode(p) =>
        out := Ok(());
        var i := 0;
        while i < |p.statements|
          invariant 0 <= i <= |p.statements|
          invariant out.Ok?
          invariant CompileProgram(p, i, State()) == CompileProgram(p, 0, old(State()))
        {
          out := CompileStmt(p.statements[i]);
          if !out.Ok? {
            assert CompileNode(n, s0) == CompileProgram(p, 0, s0);
            return out.Propagate();
          }
          i := i + 1;
        }
      case StatementNode(st) =>
        out := CompileStmt(st);
      case ExpressionNode(e) =>
        out := CompileExpr(e);
      }
      if !out.Ok? {
        return out.Propagate();
      }
      r := Ok(ToBytecode());
    }

    method CompileStmt(st: Statement) returns (r: CResult)
      modifies this
      ensures Step(r, State()) == S.CompileStmt(st, old(State()))
      decreases st, 2
    {
      match st
      case Let(name, value) =>
        r := CompileExpr(value);
        if !r.Ok? {
          return;
        }
        var d := Define(symbols, name);
        symbols := d.0;
        var _ := Emit(OpSetGlobal, [d.1.index]);
        r := Ok(());
      case Return(_) =>
        r := Ok(());
      case ExprStmt(x) =>
        r := CompileExpr(x);
        if !r.Ok? {
          return;
        }
        var _ := Emit(OpPop, []);
        r := Ok(());
    }

    method CompileBlock(b: Block) returns (r: CResult)
      modifies this
      ensures Step(r, State()) == S.CompileBlock(b, 0, old(State()))
      decreases b, 1
    {
      var i := 0;
      while i < |b.statements|
        invariant 0 <= i <= |b.statements|
        invariant S.CompileBlock(b, i, State()) == S.CompileBlock(b, 0, old(State()))
      {
        r := CompileStmt(b.statements[i]);
        if !r.Ok? {
          return;
        }
        i := i + 1;
      }
      r := Ok(());
    }

    method CompileExpr(e: Expression) returns (r: CResult)
      modifies this
      ensures Step(r, State()) == S.CompileExpr(e, old(State()))
      decreases e, 2
    {
      match e
      case Identifier(name) =>
        var sym := Resolve(symbols, name);
        if sym.Some? {
          var _ := Emit(OpGetGlobal, [sym.value.index]);
          r := Ok(());
        } else {
          r := Err(UndefinedVariable(name));
        }
      case Lit(_) =>
        r := CompileLiteral(e);
      case Prefix(_, _) =>
        r := CompilePrefix(e);
      case Infix(_, _, _) =>
        r := CompileInfix(e);
      case If(_, _, _) =>
        r := CompileIf(e);
      case Function(_, _) =>
        r := Ok(());
      case Call(_, _) =>
        r := Ok(());
      case Index(_, _) =>
        r := Ok(());
    }

    method CompileLiteral(e: Expression) returns (r: CResult)
      requires e.Lit?
      modifies this
      ensures Step(r, State()) == S.CompileLiteral(e, old(State()))
      decreases e, 1
    {
      match e.literal
      case Integer(v) =>
        EmitConstant(IntConst(v));
        r := Ok(());
      case Boolean(b) =>
        if b {
          var _ := Emit(OpTrue, []);
        } else {
          var _ := Emit(OpFalse, []);
        }
        r := Ok(());
      case Str(str) =>
        EmitConstant(StrConst(str));
        r := Ok(());
      case Array(elements) =>
        r := CompileElements(e);
        if !r.Ok? {
          return;
        }
        var _ := Emit(OpArray, [|elements|]);
        r := Ok(());
      case Hash(pairs) =>
        r := CompilePairs(e);
        if !r.Ok? {
          return;
        }
        var _ := Emit(OpHash, [|pairs| * 2]);
        r := Ok(());
    }

    /** add_constant, then OpConst with the index it returned. */
    method EmitConstant(c: Const)
      modifies this
      ensures State() == S.EmitConstant(old(State()), c)
    {
      var index := AddConstant(c);
      var _ := Emit(OpConst, [index]);
    }

    /** The elements of an array literal, left to right, stopping at the
        first failure. */
    method CompileElements(e: Expression) returns (r: CResult)
      requires e.Lit? && e.literal.Array?
      modifies this
      ensures Step(r, State()) == S.CompileElements(e, 0, old(State()))
      decreases e, 0, 0
    {
      var elements := e.literal.elements;
      var i := 0;
      while i < |elements|
        invariant 0 <= i <= |elements|
        invariant S.CompileElements(e, i, State()) == S.CompileElements(e, 0, old(State()))
      {
        r := CompileExpr(elements[i]);
        if !r.Ok? {
          return;
        }
        i := i + 1;
      }
      r := Ok(());
    }

    /** The pairs of a hash literal, key then value, stopping at the first
        failure. */
    method CompilePairs(e: Expression) returns (r: CResult)
      requires e.Lit? && e.literal.Hash?
      modifies this
      ensures Step(r, State()) == S.CompilePairs(e, 0, old(State()))
      decreases e, 0, 0
    {
      var pairs := e.literal.pairs;
      var i := 0;
      while i < |pairs|
        invariant 0 <= i <= |pairs|
        invariant S.CompilePairs(e, i, State()) == S.CompilePairs(e, 0, old(State()))
      {
        assert pairs[i] in pairs;
        r := CompileExpr(pairs[i].0);
        if !r.Ok? {
          return;
        }
        r := CompileExpr(pairs[i].1);
        if !r.Ok? {
          return;
        }
        i := i + 1;
      }
      r := Ok(());
    }

    method CompilePrefix(e: Expression) returns (r: CResult)
      requires e.Prefix?
      modifies this
      ensures Step(r, State()) == S.CompilePrefix(e, old(State()))
      decreases e, 1
    {
      r := CompileExpr(e.operand);
      if !r.Ok? {
        r := r.Unwrap();
        return;
      }
      if e.op == MINUS {
        var _ := Emit(OpMinus, []);
        r := Ok(());
      } else if e.op == BANG {
        var _ := Emit(OpBang, []);
        r := Ok(());
      } else {
        r := Err(UnexpectedPrefixOp(e.op));
      }
    }

    method CompileInfix(e: Expression) returns (r: CResult)
      requires e.Infix?
      modifies this
      ensures Step(r, State()) == S.CompileInfix(e, old(State()))
      decreases e, 1
    {
      if e.op == LT {
        r := CompileExpr(e.right);
        if !r.Ok? {
          r := r.Unwrap();
          return;
        }
        r := CompileExpr(e.left);
        if !r.Ok? {
          r := r.Unwrap();
          return;
        }
        var _ := Emit(OpGreaterThan, []);
        r := Ok(());
        return;
      }
      r := CompileExpr(e.left);
      if !r.Ok? {
        r := r.Unwrap();
        return;
      }
      r := CompileExpr(e.right);
      if !r.Ok? {
        r := r.Unwrap();
        return;
      }
      match InfixOpcode(e.op)
      case Some(op) =>
        var _ := Emit(op, []);
        r := Ok(());
      case None =>
        r := Err(UnexpectedInfixOp(e.op));
    }

    method CompileIf(e: Expression) returns (r: CResult)
      requires e.If?
      modifies this
      ensures Step(r, State()) == S.CompileIf(e, old(State()))
      decreases e, 1, 0
    {
      ghost var s := State();
      r := CompileExpr(e.condition);
      if !r.Ok? {
        return;
      }
      r := CompileConsequence(e, s);
    }

    /** OpJumpNotTruthy with a placeholder, the consequent, then the rest of
        the if-expression compiled from s. */
    method CompileConsequence(e: Expression, ghost s: CState) returns (r: CResult)
      requires e.If? && Grows(s, State())
      modifies this
      ensures Step(r, State()) == S.CompileConsequence(e, s, old(State()))
      decreases e, 0, 2
    {
      ghost var c := State();
      var jumpNotTruthy := Emit(OpJumpNotTruthy, [Placeholder]);
      r := CompileBlock(e.consequent);
      if !r.Ok? {
        return;
      }
      var jumpPos := PatchConsequence(jumpNotTruthy, c);
      GrowsTrans(s, c, State());
      r := CompileAlternative(e, jumpPos, s);
    }

    /** The consequent without its trailing pop, OpJump with a placeholder,
        then the OpJumpNotTruthy at jumpNotTruthy patched to the end. */
    method PatchConsequence(jumpNotTruthy: nat, ghost c: CState) returns (jumpPos: nat)
      requires jumpNotTruthy == |c.instructions|
      requires Grows(S.Emit(c, OpJumpNotTruthy, [Placeholder]), State())
      requires StmtPost(S.Emit(c, OpJumpNotTruthy, [Placeholder]), Step(Ok(()), State()))
      modifies this
      ensures State() == S.PatchConsequence(c, old(State()))
      ensures last == Emitted(OpJump, jumpPos)
    {
      ghost var s1 := S.Emit(c, OpJumpNotTruthy, [Placeholder]);
      LastPatchable(s1);
      jumpPos := JumpOverAlternative(s1);
      GrowsTrans(c, s1, State());
      PatchableKept(s1, State(), jumpNotTruthy);
      ghost var s3 := State();
      var afterConsequence := |instructions|;
      ChangeOperand(jumpNotTruthy, afterConsequence);
      JumpKept(c, s3, State(), jumpNotTruthy);
    }

    method JumpOverAlternative(ghost s1: CState) returns (jumpPos: nat)
      requires LastFinal(s1) && s1.last.opcode != OpPop
      requires Grows(s1, State()) && StmtPost(s1, Step(Ok(()), State()))
      modifies this
      ensures State() == S.JumpOverAlternative(s1, old(State()))
      ensures last == Emitted(OpJump, jumpPos)
    {
      DropBranchPop(s1);
      jumpPos := Emit(OpJump, [Placeholder]);
    }

    /** The peephole rule after a branch compiled from j. */
    method DropBranchPop(ghost j: CState)
      requires LastFinal(j) && j.last.opcode != OpPop
      requires Grows(j, State()) && StmtPost(j, Step(Ok(()), State()))
      modifies this
      ensures State() == S.DropBranchPop(j, old(State()))
    {
      BranchEnds(j, Step(Ok(()), State()));
      if LastInstructionIs(OpPop) {
        RemoveLastPop();
      }
    }

    method CompileAlternative(e: Expression, jumpPos: nat, ghost s: CState) returns (r: CResult)
      requires e.If? && LastFinal(State()) && Grows(s, State())
      requires last == Emitted(OpJump, jumpPos) && jumpPos >= |s.instructions|
      modifies this
      ensures Step(r, State()) == S.CompileAlternative(e, s, old(State()))
      decreases e, 0, 1
    {
      ghost var s4 := State();
      if e.alternate.None? {
        var _ := Emit(OpNull, []);
        GrowsTrans(s, s4, State());
      } else {
        r := CompileBlock(e.alternate.value);
        GrowsTrans(s, s4, State());
        if !r.Ok? {
          return;
        }
        DropBranchPop(s4);
        GrowsTrans(s, s4, State());
      }
      PatchJump(jumpPos, s, s4);
      r := Ok(());
    }

    /** The OpJump at jumpPos, the last instruction of s4, patched to the end. */
    method PatchJump(jumpPos: nat, ghost s: CState, ghost s4: CState)
      requires LastFinal(s4) && s4.last == Emitted(OpJump, jumpPos) && jumpPos >= |s.instructions|
      requires Grows(s4, State()) && Grows(s, State()) && LastFinal(State())
      requires last == s4.last || last.position >= |s4.instructions|
      modifies this
      ensures State() == S.PatchJump(s, s4, old(State()))
    {
      LastPatchable(s4);
      PatchableKept(s4, State(), jumpPos);
      var afterAlternative := |instructions|;
      ChangeOperand(jumpPos, afterAlternative);
    }
  }

  /** Compiles a whole program with a fresh compiler. */
  method CompileFresh(p: Program) returns (r: Outcome<Bytecode, CompileError>)
    ensures var st := CompileProgram(p, 0, S.New());
            r == (if st.out.Ok? then Ok(BytecodeOf(st.state)) else st.out.Propagate())
  {
    var c := new Compiler();
    r := c.Compile(ProgramNode(p));
  }
}
