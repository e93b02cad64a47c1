/** The compiler of compiler/compiler.rs as pure functions over the
    compiler's state. Each function returns the outcome and the new state;
    failures keep whatever was mutated before them. */
module CompilerSpec {
  import opened Results
  import opened Tokens
  import opened Ast
  import opened OpCode
  import opened Symbols

  /** A constant-pool entry. */
  datatype Const = IntConst(i: int) | StrConst(s: string)

  datatype CompileError =
    | UndefinedVariable(name: string)
    | UnexpectedPrefixOp(op: TokenKind)
    | UnexpectedInfixOp(op: TokenKind)

  datatype Emitted = Emitted(opcode: Opcode, position: nat)

  /** The fields of the Compiler struct. */
  datatype CState = CState(
    instructions: seq<Byte>,
    constants: seq<Const>,
    symbols: SymbolTable,
    last: Emitted,
    previous: Emitted)

  type CResult = Outcome<(), CompileError>

  datatype Step = Step(out: CResult, state: CState)

  datatype Bytecode = Bytecode(instructions: seq<Byte>, constants: seq<Const>)

  /** Operand written into a jump before its target is known. */
  const Placeholder: nat := 9527

  /** Compiler::new_with_state: a fresh buffer over carried-forward tables. */
  function NewWithState(symbols: SymbolTable, constants: seq<Const>): (s: CState)
    ensures s.instructions == [] && s.constants == constants && s.symbols == symbols
  {
    CState([], constants, symbols, Emitted(OpNull, 0), Emitted(OpNull, 0))
  }

  /** Compiler::new */
  function New(): (s: CState)
    ensures s.instructions == [] && s.constants == [] && s.symbols == Empty()
  {
    NewWithState(Empty(), [])
  }

  function BytecodeOf(s: CState): Bytecode
  {
    Bytecode(s.instructions, s.constants)
  }

  predicate IsPrefix<T(==)>(a: seq<T>, b: seq<T>)
  {
    |a| <= |b| && b[..|a|] == a
  }

  /** What a compilation step may do to the state: append code and
      constants, and define names. */
  ghost predicate Grows(s: CState, u: CState)
  {
    IsPrefix(s.instructions, u.instructions) && IsPrefix(s.constants, u.constants) && Extends(s.symbols, u.symbols)
  }

  lemma PrefixTrans<T>(a: seq<T>, b: seq<T>, c: seq<T>)
    requires IsPrefix(a, b) && IsPrefix(b, c)
    ensures IsPrefix(a, c)
  {
    assert c[..|a|] == c[..|b|][..|a|];
  }

  /** Growing twice is growing. */
  lemma GrowsTrans(s: CState, t: CState, u: CState)
    requires Grows(s, t) && Grows(t, u)
    ensures Grows(s, u)
  {
    PrefixTrans(s.instructions, t.instructions, u.instructions);
    PrefixTrans(s.constants, t.constants, u.constants);
  }

  /** `last_instruction` is the final instruction of the buffer. */
  predicate LastFinal(s: CState)
  {
    s.last.position + Size(s.last.opcode) == |s.instructions| &&
    s.instructions[s.last.position] == OpByte(s.last.opcode)
  }

  /** `previous_instruction` ends where `last_instruction` starts. */
  predicate PrevAdjacent(s: CState)
  {
    s.previous.position + Size(s.previous.opcode) == s.last.position &&
    s.last.position < |s.instructions| &&
    s.instructions[s.previous.position] == OpByte(s.previous.opcode)
  }

  /** Nothing was emitted and the peephole fields were not touched. */
  predicate Untouched(s: CState, u: CState)
  {
    u.instructions == s.instructions && u.last == s.last && u.previous == s.previous
  }

  /** After a successful expression: nothing emitted, or the last recorded
      instruction is the final one and was emitted by this expression. */
  predicate ExprPost(s: CState, r: Step)
  {
    r.out.Ok? ==> Untouched(s, r.state) || (LastFinal(r.state) && r.state.last.position >= |s.instructions|)
  }

  /** After a successful statement or block, in addition: when the state
      started well formed, the previous instruction immediately precedes the
      last one, and was either the old last one or emitted here. */
  predicate StmtPost(s: CState, r: Step)
  {
    r.out.Ok? ==>
      Untouched(s, r.state) ||
      (LastFinal(r.state) && r.state.last.position >= |s.instructions| &&
       (LastFinal(s) ==> PrevAdjacent(r.state) &&
                         (r.state.previous == s.last || r.state.previous.position >= |s.instructions|)))
  }

  /** add_constant: appends to the pool; the index is the old pool length. */
  function AddConstant(s: CState, c: Const): (r: CState)
    ensures r.constants == s.constants + [c]
    ensures r.instructions == s.instructions && r.symbols == s.symbols
    ensures r.last == s.last && r.previous == s.previous
    ensures Grows(s, r)
  {
    s.(constants := s.constants + [c])
  }

  /** add_instructions: appends encoded bytes at the end of the buffer. */
  function AddInstructions(s: CState, ins: seq<Byte>): (r: CState)
    ensures IsPrefix(s.instructions, r.instructions) && r.instructions[|s.instructions|..] == ins
    ensures r.constants == s.constants && r.symbols == s.symbols
    ensures r.last == s.last && r.previous == s.previous
  {
    s.(instructions := s.instructions + ins)
  }

  function SetLastInstruction(s: CState, op: Opcode, pos: nat): (r: CState)
    ensures r.previous == s.last && r.last == Emitted(op, pos)
    ensures r.instructions == s.instructions && r.constants == s.constants && r.symbols == s.symbols
  {
    s.(previous := s.last, last := Emitted(op, pos))
  }

  /** emit: the instruction is appended at the old end of the buffer and
      becomes the last one; the old last one becomes the previous one. */
  function Emit(s: CState, op: Opcode, operands: seq<nat>): (r: CState)
    requires |operands| == OperandCount(op)
    ensures r.instructions == s.instructions + Make(op, operands)
    ensures r.last == Emitted(op, |s.instructions|) && r.previous == s.last
    ensures r.constants == s.constants && r.symbols == s.symbols
    ensures Grows(s, r) && LastFinal(r)
    ensures LastFinal(s) ==> PrevAdjacent(r)
  {
    var pos := |s.instructions|;
    SetLastInstruction(AddInstructions(s, Make(op, operands)), op, pos)
  }

  function LastInstructionIs(s: CState, op: Opcode): bool
  {
    s.last.opcode == op
  }

  /** remove_last_pop: drops the final byte and restores the previous
      instruction as the last one. */
  function RemoveLastPop(s: CState): (r: CState)
    requires |s.instructions| > 0
    ensures r.instructions == s.instructions[..|s.instructions| - 1]
    ensures r.last == s.previous && r.previous == s.previous
    ensures r.constants == s.constants && r.symbols == s.symbols
  {
    s.(instructions := s.instructions[..|s.instructions| - 1], last := s.previous)
  }

  /** When the last instruction is a final OpPop preceded by an adjacent
      instruction, remove_last_pop drops exactly that pop, and the restored
      last instruction is again the final one. */
  lemma RemoveLastPopDropsPop(s: CState)
    requires LastFinal(s) && s.last.opcode == OpPop && PrevAdjacent(s)
    ensures |s.instructions| > 0 && s.instructions[|s.instructions| - 1] == OpByte(OpPop)
    ensures RemoveLastPop(s).instructions == s.instructions[..s.last.position]
    ensures LastFinal(RemoveLastPop(s))
  {
  }

  /** replace_instruction: overwrites |ins| bytes starting at pos. */
  function ReplaceInstruction(buf: seq<Byte>, pos: nat, ins: seq<Byte>): (r: seq<Byte>)
    requires pos + |ins| <= |buf|
    ensures |r| == |buf|
    ensures r[..pos] == buf[..pos] && r[pos + |ins|..] == buf[pos + |ins|..]
    ensures r[pos..pos + |ins|] == ins
  {
    buf[..pos] + ins + buf[pos + |ins|..]
  }

  /** change_operand may be applied where a one-operand instruction starts. */
  predicate Patchable(s: CState, pos: nat)
  {
    pos + 3 <= |s.instructions| &&
    CastToOpcode(s.instructions[pos]).Some? &&
    OperandCount(CastToOpcode(s.instructions[pos]).value) == 1
  }

  /** change_operand: re-encodes the instruction at pos with a new operand. */
  function ChangeOperand(s: CState, pos: nat, operand: nat): (r: CState)
    requires Patchable(s, pos)
    ensures |r.instructions| == |s.instructions|
    ensures r.instructions[..pos + 1] == s.instructions[..pos + 1]
    ensures r.instructions[pos + 3..] == s.instructions[pos + 3..]
    ensures ReadU16(r.instructions, pos + 1) == operand % 65536
    ensures r.constants == s.constants && r.symbols == s.symbols
    ensures r.last == s.last && r.previous == s.previous
  {
    var op := CastToOpcode(s.instructions[pos]).value;
    var ins := Make(op, [operand]);
    DecodeMake(op, [operand]);
    var buf := ReplaceInstruction(s.instructions, pos, ins);
    assert buf[pos..pos + 3] == ins;
    assert buf[pos] == ins[0] && buf[pos + 1] == ins[1] && buf[pos + 2] == ins[2];
    assert buf[..pos + 1] == buf[..pos] + [buf[pos]];
    assert s.instructions[..pos + 1] == s.instructions[..pos] + [s.instructions[pos]];
    s.(instructions := buf)
  }

  /** An instruction emitted after a step that grew s ends an expression
      compiled from s. */
  lemma EmitAfter(s: CState, t: CState, op: Opcode, operands: seq<nat>)
    requires Grows(s, t) && |operands| == OperandCount(op)
    ensures Grows(s, Emit(t, op, operands)) && ExprPost(s, Step(Ok(()), Emit(t, op, operands)))
  {
    GrowsTrans(s, t, Emit(t, op, operands));
  }

  /** The same after a statement: the instruction emitted follows what the
      step emitted, or the old last instruction. */
  lemma EmitStmt(s: CState, t: CState, op: Opcode, operands: seq<nat>)
    requires Grows(s, t) && ExprPost(s, Step(Ok(()), t)) && |operands| == OperandCount(op)
    ensures Grows(s, Emit(t, op, operands)) && StmtPost(s, Step(Ok(()), Emit(t, op, operands)))
  {
    GrowsTrans(s, t, Emit(t, op, operands));
  }

  /** Two expression steps in a row make one. */
  lemma ExprPostTrans(s: CState, t: Step, u: Step)
    requires t.out.Ok? && Grows(s, t.state) && ExprPost(s, t) && Grows(t.state, u.state) && ExprPost(t.state, u)
    ensures Grows(s, u.state) && ExprPost(s, u)
  {
    GrowsTrans(s, t.state, u.state);
  }

  /** Two statement steps in a row make one. */
  lemma StmtPostTrans(s: CState, t: Step, u: Step)
    requires t.out.Ok? && Grows(s, t.state) && StmtPost(s, t) && Grows(t.state, u.state) && StmtPost(t.state, u)
    ensures Grows(s, u.state) && StmtPost(s, u)
  {
    GrowsTrans(s, t.state, u.state);
  }

  /** Opcode of each supported infix operator other than `<`. */
  function InfixOpcode(op: TokenKind): (r: Option<Opcode>)
    ensures r.Some? ==> OperandCount(r.value) == 0
  {
    match op
    case PLUS => Some(OpAdd)
    case MINUS => Some(OpSub)
    case ASTERISK => Some(OpMul)
    case SLASH => Some(OpDiv)
    case GT => Some(OpGreaterThan)
    case EQ => Some(OpEqual)
    case NotEq => Some(OpNotEqual)
    case _ => None
  }

  /** compile: fail-fast over a program, a statement or an expression. */
  function CompileNode(n: Node, s: CState): (r: Step)
    ensures Grows(s, r.state)
  {
    match n
    case ProgramNode(p) => CompileProgram(p, 0, s)
    case StatementNode(st) => CompileStmt(st, s)
    case ExpressionNode(e) => CompileExpr(e, s)
  }

  function CompileProgram(p: Program, i: nat, s: CState): (r: Step)
    requires i <= |p.statements|
    ensures Grows(s, r.state)
    decreases |p.statements| - i
  {
    if i == |p.statements| then Step(Ok(()), s)
    else
      var r := CompileStmt(p.statements[i], s);
      if !r.out.Ok? then r else GrowsTrans(s, r.state, CompileProgram(p, i + 1, r.state).state); CompileProgram(p, i + 1, r.state)
  }

  /** compile_stmt */
  function CompileStmt(st: Statement, s: CState): (r: Step)
    ensures Grows(s, r.state) && StmtPost(s, r)
    decreases st, 2, 0
  {
    match st
    case Let(name, value) =>
      var v := CompileExpr(value, s);
      if !v.out.Ok? then v
      else
        var d := Define(v.state.symbols, name);
        var t := v.state.(symbols := d.0);
        DefineResolve(v.state.symbols, name, name);
        GrowsTrans(s, v.state, t);
        EmitStmt(s, t, OpSetGlobal, [d.1.index]);
        Step(Ok(()), Emit(t, OpSetGlobal, [d.1.index]))
    case Return(_) => Step(Ok(()), s)
    case ExprStmt(x) =>
      var v := CompileExpr(x, s);
      if !v.out.Ok? then v else EmitStmt(s, v.state, OpPop, []); Step(Ok(()), Emit(v.state, OpPop, []))
  }

  /** compile_block_statement, from the i-th statement on. */
  function CompileBlock(b: Block, i: nat, s: CState): (r: Step)
    requires i <= |b.statements|
    ensures Grows(s, r.state) && StmtPost(s, r)
    decreases b, 0, |b.statements| - i
  {
    if i == |b.statements| then Step(Ok(()), s)
    else
      var r := CompileStmt(b.statements[i], s);
      if !r.out.Ok? then r else StmtPostTrans(s, r, CompileBlock(b, i + 1, r.state)); CompileBlock(b, i + 1, r.state)
  }

  /** compile_expr */
  function CompileExpr(e: Expression, s: CState): (r: Step)
    ensures Grows(s, r.state) && ExprPost(s, r)
    decreases e, 2, 0
  {
    match e
    case Identifier(name) =>
      (match Resolve(s.symbols, name)
       case Some(sym) => Step(Ok(()), Emit(s, OpGetGlobal, [sym.index]))
       case None => Step(Err(UndefinedVariable(name)), s))
    case Lit(_) => CompileLiteral(e, s)
    case Prefix(_, _) => CompilePrefix(e, s)
    case Infix(_, _, _) => CompileInfix(e, s)
    case If(_, _, _) => CompileIf(e, s)
    case Function(_, _) => Step(Ok(()), s)
    case Call(_, _) => Step(Ok(()), s)
    case Index(_, _) => Step(Ok(()), s)
  }

  function CompileLiteral(e: Expression, s: CState): (r: Step)
    requires e.Lit?
    ensures Grows(s, r.state) && ExprPost(s, r)
    decreases e, 1, 0
  {
    match e.literal
    case Integer(i) => Step(Ok(()), EmitConstant(s, IntConst(i)))
    case Boolean(b) => EmitAfter(s, s, if b then OpTrue else OpFalse, []); Step(Ok(()), Emit(s, if b then OpTrue else OpFalse, []))
    case Str(str) => Step(Ok(()), EmitConstant(s, StrConst(str)))
    case Array(elements) =>
      var r := CompileElements(e, 0, s);
      if !r.out.Ok? then r else EmitAfter(s, r.state, OpArray, [|elements|]); Step(Ok(()), Emit(r.state, OpArray, [|elements|]))
    case Hash(pairs) =>
      var r := CompilePairs(e, 0, s);
      if !r.out.Ok? then r else EmitAfter(s, r.state, OpHash, [|pairs| * 2]); Step(Ok(()), Emit(r.state, OpHash, [|pairs| * 2]))
  }

  /** add_constant, then OpConst with the new constant's index. */
  function EmitConstant(s: CState, c: Const): (r: CState)
    ensures r.constants == s.constants + [c] && r.symbols == s.symbols
    ensures r.instructions == s.instructions + Make(OpConst, [|s.constants|])
    ensures Grows(s, r) && ExprPost(s, Step(Ok(()), r))
  {
    EmitAfter(s, AddConstant(s, c), OpConst, [|s.constants|]);
    Emit(AddConstant(s, c), OpConst, [|s.constants|])
  }

  /** The array elements from the i-th on, left to right. */
  function CompileElements(e: Expression, i: nat, s: CState): (r: Step)
    requires e.Lit? && e.literal.Array? && i <= |e.literal.elements|
    ensures Grows(s, r.state) && ExprPost(s, r)
    decreases e, 0, |e.literal.elements| - i
  {
    if i == |e.literal.elements| then Step(Ok(()), s)
    else
      var r := CompileExpr(e.literal.elements[i], s);
      if !r.out.Ok? then r else ExprPostTrans(s, r, CompileElements(e, i + 1, r.state)); CompileElements(e, i + 1, r.state)
  }

  /** The hash pairs from the i-th on: key, then value. */
  function CompilePairs(e: Expression, i: nat, s: CState): (r: Step)
    requires e.Lit? && e.literal.Hash? && i <= |e.literal.pairs|
    ensures Grows(s, r.state) && ExprPost(s, r)
    decreases e, 0, |e.literal.pairs| - i
  {
    if i == |e.literal.pairs| then Step(Ok(()), s)
    else
      var pair := e.literal.pairs[i];
      assert pair in e.literal.pairs;
      var k := CompileExpr(pair.0, s);
      if !k.out.Ok? then k
      else
        var v := CompileExpr(pair.1, k.state);
        GrowsTrans(s, k.state, v.state);
        if !v.out.Ok? then v
        else ExprPostTrans(k.state, v, CompilePairs(e, i + 1, v.state)); ExprPostTrans(s, k, CompilePairs(e, i + 1, v.state)); CompilePairs(e, i + 1, v.state)
  }

  /** A prefix operator: the operand (unwrapped), then OpMinus or OpBang. */
  function CompilePrefix(e: Expression, s: CState): (r: Step)
    requires e.Prefix?
    ensures Grows(s, r.state) && ExprPost(s, r)
    decreases e, 1, 0
  {
    var x := CompileExpr(e.operand, s);
    if !x.out.Ok? then Step(x.out.Unwrap(), x.state)
    else if e.op == MINUS then EmitAfter(s, x.state, OpMinus, []); Step(Ok(()), Emit(x.state, OpMinus, []))
    else if e.op == BANG then EmitAfter(s, x.state, OpBang, []); Step(Ok(()), Emit(x.state, OpBang, []))
    else Step(Err(UnexpectedPrefixOp(e.op)), x.state)
  }

  /** An infix operator: `<` swaps its operands and emits OpGreaterThan;
      the others emit left, right, then their opcode. Operands are unwrapped. */
  function CompileInfix(e: Expression, s: CState): (r: Step)
    requires e.Infix?
    ensures Grows(s, r.state) && ExprPost(s, r)
    decreases e, 1, 0
  {
    if e.op == LT then
      var x := CompileExpr(e.right, s);
      if !x.out.Ok? then Step(x.out.Unwrap(), x.state)
      else
        var y := CompileExpr(e.left, x.state);
        GrowsTrans(s, x.state, y.state);
        if !y.out.Ok? then Step(y.out.Unwrap(), y.state)
        else EmitAfter(s, y.state, OpGreaterThan, []); Step(Ok(()), Emit(y.state, OpGreaterThan, []))
    else
      var x := CompileExpr(e.left, s);
      if !x.out.Ok? then Step(x.out.Unwrap(), x.state)
      else
        var y := CompileExpr(e.right, x.state);
        GrowsTrans(s, x.state, y.state);
        if !y.out.Ok? then Step(y.out.Unwrap(), y.state)
        else
          match InfixOpcode(e.op)
          case Some(op) => EmitAfter(s, y.state, op, []); Step(Ok(()), Emit(y.state, op, []))
          case None => Step(Err(UnexpectedInfixOp(e.op)), y.state)
  }

  /** The peephole rule applied after each branch of an if-expression. */
  function DropTrailingPop(s: CState): (r: CState)
    requires LastFinal(s) && (s.last.opcode == OpPop ==> PrevAdjacent(s))
    ensures LastFinal(r)
    ensures !LastInstructionIs(s, OpPop) ==> r == s
    ensures LastInstructionIs(s, OpPop) ==> r == RemoveLastPop(s) && r.instructions == s.instructions[..s.last.position]
  {
    if LastInstructionIs(s, OpPop) then RemoveLastPopDropsPop(s); RemoveLastPop(s) else s
  }

  lemma PrefixKept<T>(a: seq<T>, b: seq<T>, c: seq<T>, n: nat)
    requires IsPrefix(a, b) && |a| <= n <= |b| && n <= |c| && b[..n] == c[..n]
    ensures IsPrefix(a, c)
  {
    assert c[..|a|] == c[..n][..|a|];
    assert b[..|a|] == b[..n][..|a|];
  }

  /** An if-expression: the condition, then the rest. */
  function CompileIf(e: Expression, s: CState): (r: Step)
    requires e.If?
    ensures Grows(s, r.state) && ExprPost(s, r)
    decreases e, 1, 0
  {
    var c := CompileExpr(e.condition, s);
    if !c.out.Ok? then c else CompileConsequence(e, s, c.state)
  }

  /** OpJumpNotTruthy with a placeholder, then the consequent. */
  function CompileConsequence(e: Expression, s: CState, c: CState): (r: Step)
    requires e.If? && Grows(s, c)
    ensures Grows(s, r.state) && ExprPost(s, r)
    decreases e, 0, 2
  {
    var s1 := Emit(c, OpJumpNotTruthy, [Placeholder]);
    var b := CompileBlock(e.consequent, 0, s1);
    GrowsTrans(s, c, s1);
    GrowsTrans(s, s1, b.state);
    if !b.out.Ok? then b else CloseConsequence(e, s, c, b.state)
  }

  /** The patched consequent, then the alternative. */
  function CloseConsequence(e: Expression, s: CState, c: CState, b: CState): (r: Step)
    requires e.If? && Grows(s, c)
    requires Grows(Emit(c, OpJumpNotTruthy, [Placeholder]), b)
    requires StmtPost(Emit(c, OpJumpNotTruthy, [Placeholder]), Step(Ok(()), b))
    ensures Grows(s, r.state) && ExprPost(s, r)
    decreases e, 0, 1
  {
    var s4 := PatchConsequence(c, b);
    GrowsTrans(s, c, s4);
    CompileAlternative(e, s, s4)
  }

  /** A branch compiled after a jump ends in a state the peephole rule
      applies to. */
  lemma BranchEnds(j: CState, b: Step)
    requires LastFinal(j) && j.last.opcode != OpPop
    requires b.out.Ok? && StmtPost(j, b)
    ensures LastFinal(b.state) && (b.state.last.opcode == OpPop ==> PrevAdjacent(b.state))
    ensures b.state.last.opcode == OpPop ==> b.state.last.position >= |j.instructions|
  {
  }

  /** A branch b compiled after the jump that ends j, without its trailing
      pop: the code before the branch is kept, and the last instruction is
      that jump or one of the branch's own. */
  function DropBranchPop(j: CState, b: CState): (r: CState)
    requires LastFinal(j) && j.last.opcode != OpPop
    requires Grows(j, b) && StmtPost(j, Step(Ok(()), b))
    ensures Grows(j, r) && LastFinal(r)
    ensures r.last == j.last || r.last.position >= |j.instructions|
  {
    BranchEnds(j, Step(Ok(()), b));
    var r := DropTrailingPop(b);
    PrefixKept(j.instructions, b.instructions, r.instructions, |j.instructions|);
    r
  }

  /** A one-operand instruction stays patchable when code is appended. */
  lemma PatchableKept(s: CState, u: CState, pos: nat)
    requires Patchable(s, pos) && IsPrefix(s.instructions, u.instructions)
    ensures Patchable(u, pos) && u.instructions[pos] == s.instructions[pos]
  {
    assert u.instructions[pos] == u.instructions[..|s.instructions|][pos];
  }

  /** The last instruction can be patched when it takes an operand. */
  lemma LastPatchable(s: CState)
    requires LastFinal(s) && OperandCount(s.last.opcode) == 1
    ensures Patchable(s, s.last.position)
  {
    CastOpByte(s.last.opcode);
  }

  /** The consequent b without its trailing pop, then OpJump with a
      placeholder. */
  function JumpOverAlternative(s1: CState, b: CState): (s3: CState)
    requires LastFinal(s1) && s1.last.opcode != OpPop
    requires Grows(s1, b) && StmtPost(s1, Step(Ok(()), b))
    ensures Grows(s1, s3) && LastFinal(s3)
    ensures s3.last.opcode == OpJump && s3.last.position >= |s1.instructions|
  {
    var s2 := DropBranchPop(s1, b);
    var s3 := Emit(s2, OpJump, [Placeholder]);
    GrowsTrans(s1, s2, s3);
    s3
  }

  /** After the consequent b: its trailing pop dropped, OpJump with a
      placeholder emitted, and the OpJumpNotTruthy that follows c patched
      to the end of the buffer. */
  function PatchConsequence(c: CState, b: CState): (s4: CState)
    requires Grows(Emit(c, OpJumpNotTruthy, [Placeholder]), b)
    requires StmtPost(Emit(c, OpJumpNotTruthy, [Placeholder]), Step(Ok(()), b))
    ensures Grows(c, s4) && LastFinal(s4)
    ensures s4.last.opcode == OpJump && s4.last.position >= |c.instructions| + 3
    ensures s4.instructions[|c.instructions|] == OpByte(OpJumpNotTruthy)
    ensures ReadU16(s4.instructions, |c.instructions| + 1) == |s4.instructions| % 65536
  {
    var jnt := |c.instructions|;
    var s1 := Emit(c, OpJumpNotTruthy, [Placeholder]);
    LastPatchable(s1);
    var s3 := JumpOverAlternative(s1, b);
    GrowsTrans(c, s1, s3);
    PatchableKept(s1, s3, jnt);
    var s4 := ChangeOperand(s3, jnt, |s3.instructions|);
    JumpKept(c, s3, s4, jnt);
    JumpNotTruthyPatched(c, s3, s4);
    s4
  }

  /** The patched OpJumpNotTruthy keeps its opcode and now reads as the end
      of the buffer. */
  lemma JumpNotTruthyPatched(c: CState, s3: CState, s4: CState)
    requires Grows(Emit(c, OpJumpNotTruthy, [Placeholder]), s3) && Patchable(s3, |c.instructions|)
    requires s4 == ChangeOperand(s3, |c.instructions|, |s3.instructions|)
    ensures s4.instructions[|c.instructions|] == OpByte(OpJumpNotTruthy)
    ensures ReadU16(s4.instructions, |c.instructions| + 1) == |s4.instructions| % 65536
  {
    var jnt := |c.instructions|;
    var s1 := Emit(c, OpJumpNotTruthy, [Placeholder]);
    assert s1.instructions[jnt] == Make(OpJumpNotTruthy, [Placeholder])[0];
    assert s3.instructions[jnt] == s3.instructions[..|s1.instructions|][jnt];
    assert s4.instructions[jnt] == s4.instructions[..jnt + 1][jnt];
  }

  /** Patching the OpJumpNotTruthy keeps the trailing OpJump intact. */
  lemma JumpKept(s: CState, s3: CState, s4: CState, jnt: nat)
    requires Patchable(s3, jnt) && |s.instructions| <= jnt
    requires Grows(s, s3) && LastFinal(s3) && s3.last.opcode == OpJump
    requires s3.last.position >= jnt + 3
    requires s4 == ChangeOperand(s3, jnt, |s3.instructions|)
    ensures Grows(s, s4) && LastFinal(s4) && s4.last == s3.last
  {
    PrefixKept(s.instructions, s3.instructions, s4.instructions, jnt + 1);
    ghost var p := s3.last.position;
    assert s4.instructions[p] == s4.instructions[jnt + 3..][p - jnt - 3];
  }

  /** OpNull, or the alternate without its trailing pop; then the OpJump
      that ends s4 is patched to the end of the buffer. */
  function CompileAlternative(e: Expression, s: CState, s4: CState): (r: Step)
    requires e.If? && Grows(s, s4) && LastFinal(s4)
    requires s4.last.opcode == OpJump && s4.last.position >= |s.instructions|
    ensures Grows(s, r.state) && ExprPost(s, r)
    decreases e, 0, 0
  {
    match e.alternate
    case None =>
      var s5 := Emit(s4, OpNull, []);
      GrowsTrans(s, s4, s5);
      Step(Ok(()), PatchJump(s, s4, s5))
    case Some(alt) =>
      var a := CompileBlock(alt, 0, s4);
      GrowsTrans(s, s4, a.state);
      if !a.out.Ok? then a
      else
        var s5 := DropBranchPop(s4, a.state);
        GrowsTrans(s, s4, s5);
        Step(Ok(()), PatchJump(s, s4, s5))
  }

  /** The OpJump that ends s4, patched to the end of s5. */
  function PatchJump(s: CState, s4: CState, s5: CState): (s6: CState)
    requires LastFinal(s4) && s4.last.opcode == OpJump && s4.last.position >= |s.instructions|
    requires Grows(s4, s5) && Grows(s, s5) && LastFinal(s5)
    requires s5.last == s4.last || s5.last.position >= |s4.instructions|
    ensures Grows(s, s6) && ExprPost(s, Step(Ok(()), s6))
  {
    var jmp := s4.last.position;
    LastPatchable(s4);
    PatchableKept(s4, s5, jmp);
    var s6 := ChangeOperand(s5, jmp, |s5.instructions|);
    IfDone(s, s4, s5, s6);
    s6
  }

  lemma IfDone(s: CState, s4: CState, s5: CState, s6: CState)
    requires Grows(s, s5) && LastFinal(s5) && s5.last.position >= |s.instructions|
    requires |s4.instructions| >= |s.instructions| + 3 && s4.last.opcode == OpJump
    requires Patchable(s5, s4.last.position) && s4.last.position + 3 == |s4.instructions|
    requires s5.last.position == s4.last.position || s5.last.position >= |s4.instructions|
    requires s4.last.position >= |s.instructions|
    requires s6 == ChangeOperand(s5, s4.last.position, |s5.instructions|)
    ensures Grows(s, s6) && LastFinal(s6) && s6.last.position >= |s.instructions|
  {
    ghost var jmp := s4.last.position;
    PrefixKept(s.instructions, s5.instructions, s6.instructions, jmp + 1);
    if s5.last.position == jmp {
      assert s6.instructions[jmp] == s6.instructions[..jmp + 1][jmp];
    } else {
      assert s6.instructions[s5.last.position] == s6.instructions[jmp + 3..][s5.last.position - jmp - 3];
    }
  }
}
