/** Properties of the compiler of compiler/compiler.rs, stated over the
    functions of CompilerSpec: the buffer primitives, each statement and
    expression form, and a reference code generator that the compiler is
    proved to agree with on expressions without jumps. */
module CompilerProps {
  import opened Results
  import opened Tokens
  import opened Ast
  import opened OpCode
  import opened Symbols
  import opened CompilerSpec

  // ---------------------------------------------------------------------
  // The buffer primitives

  /** emit appends the encoding at the old end of the buffer and leaves the
      bytes before it alone; decoding there gives the opcode and operand
      back. */
  lemma EmitDecodes(s: CState, op: Opcode, operands: seq<nat>)
    requires |operands| == OperandCount(op)
    ensures var r := Emit(s, op, operands);
      && |r.instructions| == |s.instructions| + Size(op)
      && r.instructions[..|s.instructions|] == s.instructions
      && CastToOpcode(r.instructions[|s.instructions|]) == Some(op)
      && (OperandCount(op) == 1 ==> ReadU16(r.instructions, |s.instructions| + 1) == operands[0] % 65536)
  {
    var r := Emit(s, op, operands);
    var n := |s.instructions|;
    DecodeMake(op, operands);
    assert r.instructions[n] == Make(op, operands)[0];
    if OperandCount(op) == 1 {
      assert r.instructions[n + 1] == Make(op, operands)[1] && r.instructions[n + 2] == Make(op, operands)[2];
    }
  }

  /** change_operand rewrites the operand in place: the length and the
      opcode byte stay, no byte outside the instruction changes, and the
      operand reads back as the new value (cut to 16 bits). */
  lemma ChangeOperandInPlace(s: CState, pos: nat, v: nat)
    requires Patchable(s, pos)
    ensures var r := ChangeOperand(s, pos, v);
      && |r.instructions| == |s.instructions|
      && r.instructions[pos] == s.instructions[pos]
      && (forall i :: 0 <= i < |s.instructions| && (i < pos || pos + 3 <= i) ==> r.instructions[i] == s.instructions[i])
      && ReadU16(r.instructions, pos + 1) == v % 65536
  {
    var r := ChangeOperand(s, pos, v);
    assert r.instructions[pos] == r.instructions[..pos + 1][pos];
    forall i | 0 <= i < |s.instructions| && (i < pos || pos + 3 <= i)
      ensures r.instructions[i] == s.instructions[i]
    {
      if i < pos {
        assert r.instructions[i] == r.instructions[..pos + 1][i];
        assert s.instructions[i] == s.instructions[..pos + 1][i];
      } else {
        assert r.instructions[i] == r.instructions[pos + 3..][i - pos - 3];
        assert s.instructions[i] == s.instructions[pos + 3..][i - pos - 3];
      }
    }
  }

  /** remove_last_pop undoes the emit of an OpPop: the buffer and the last
      instruction are as before it. */
  lemma RemovePopUndoesEmit(s: CState)
    ensures RemoveLastPop(Emit(s, OpPop, [])).instructions == s.instructions
    ensures RemoveLastPop(Emit(s, OpPop, [])).last == s.last
  {
    var e := Emit(s, OpPop, []);
    assert e.instructions == s.instructions + [OpByte(OpPop)];
    assert e.instructions[..|e.instructions| - 1] == s.instructions;
  }

  /** remove_last_pop shortens the buffer by exactly one byte and keeps the
      rest. */
  lemma RemoveLastPopDropsOneByte(s: CState)
    requires |s.instructions| > 0
    ensures |RemoveLastPop(s).instructions| + 1 == |s.instructions|
    ensures forall i :: 0 <= i < |RemoveLastPop(s).instructions| ==> RemoveLastPop(s).instructions[i] == s.instructions[i]
  {
  }

  // ---------------------------------------------------------------------
  // Expressions, one form at a time

  /** An integer literal appends one constant and loads it with OpConst at
      its index, the old pool length. */
  lemma IntegerLiteral(i: int, s: CState)
    ensures var r := CompileExpr(Lit(Integer(i)), s);
      && r.out == Ok(())
      && r.state.constants == s.constants + [IntConst(i)]
      && r.state.instructions == s.instructions + [OpByte(OpConst)] + U16BigEndian(|s.constants|)
      && r.state.symbols == s.symbols
  {
    var r := CompileExpr(Lit(Integer(i)), s);
    assert r == CompileLiteral(Lit(Integer(i)), s);
    assert r.state == EmitConstant(s, IntConst(i));
    assert Make(OpConst, [|s.constants|]) == [OpByte(OpConst)] + U16BigEndian(|s.constants|);
  }

  /** A string literal likewise. */
  lemma StringLiteral(str: string, s: CState)
    ensures var r := CompileExpr(Lit(Str(str)), s);
      && r.out == Ok(())
      && r.state.constants == s.constants + [StrConst(str)]
      && r.state.instructions == s.instructions + [OpByte(OpConst)] + U16BigEndian(|s.constants|)
      && r.state.symbols == s.symbols
  {
    var r := CompileExpr(Lit(Str(str)), s);
    assert r == CompileLiteral(Lit(Str(str)), s);
    assert r.state == EmitConstant(s, StrConst(str));
    assert Make(OpConst, [|s.constants|]) == [OpByte(OpConst)] + U16BigEndian(|s.constants|);
  }

  /** A boolean emits OpTrue or OpFalse and leaves the pool alone. */
  lemma BooleanLiteral(b: bool, s: CState)
    ensures var r := CompileExpr(Lit(Boolean(b)), s);
      && r.out == Ok(())
      && r.state.constants == s.constants
      && r.state.instructions == s.instructions + [OpByte(if b then OpTrue else OpFalse)]
  {
  }

  /** An identifier compiles exactly when it resolves: to OpGetGlobal with
      its index, or else to an UndefinedVariable error that leaves the state
      as it was. */
  lemma IdentifierResolves(name: string, s: CState)
    ensures var r := CompileExpr(Identifier(name), s);
      && (r.out.Ok? <==> name in s.symbols.store)
      && (name in s.symbols.store ==>
            r.state.instructions == s.instructions + Make(OpGetGlobal, [s.symbols.store[name].index]) &&
            r.state.constants == s.constants)
      && (name !in s.symbols.store ==> r == Step(Err(UndefinedVariable(name)), s))
  {
  }

  /** The `.unwrap()` on the operand of a prefix operator turns a failing
      operand into a panic. */
  lemma PrefixUnwraps(op: TokenKind, x: Expression, s: CState)
    requires !CompileExpr(x, s).out.Ok?
    ensures CompileExpr(Prefix(op, x), s) == Step(Panic(CompileExpr(x, s).out.error), CompileExpr(x, s).state)
  {
  }

  /** A prefix operator other than `-` and `!` is an error, raised after
      its operand has been compiled. */
  lemma UnknownPrefixOperator(op: TokenKind, x: Expression, s: CState)
    requires op != MINUS && op != BANG && CompileExpr(x, s).out.Ok?
    ensures CompileExpr(Prefix(op, x), s) == Step(Err(UnexpectedPrefixOp(op)), CompileExpr(x, s).state)
  {
    assert CompileExpr(Prefix(op, x), s) == CompilePrefix(Prefix(op, x), s);
  }

  /** The same for both operands of an infix operator; `<` compiles its
      right operand first, so a failure there panics before the left one is
      looked at. */
  lemma InfixUnwraps(op: TokenKind, x: Expression, y: Expression, s: CState)
    requires !CompileExpr(if op == LT then y else x, s).out.Ok?
    ensures var f := CompileExpr(if op == LT then y else x, s);
      CompileExpr(Infix(op, x, y), s) == Step(Panic(f.out.error), f.state)
  {
  }

  /** An operator the compiler has no opcode for is an error, raised after
      both operands have been compiled. */
  lemma UnknownInfixOperator(op: TokenKind, x: Expression, y: Expression, s: CState)
    requires op != LT && InfixOpcode(op).None?
    requires CompileExpr(x, s).out.Ok? && CompileExpr(y, CompileExpr(x, s).state).out.Ok?
    ensures CompileExpr(Infix(op, x, y), s) == Step(Err(UnexpectedInfixOp(op)), CompileExpr(y, CompileExpr(x, s).state).state)
  {
  }

  // ---------------------------------------------------------------------
  // Statements and programs

  /** A let statement compiles its value, defines the name at the next
      index and stores into that slot with OpSetGlobal; the name then
      resolves to that slot. */
  lemma LetStatement(name: string, value: Expression, s: CState)
    requires CompileExpr(value, s).out.Ok?
    ensures var v := CompileExpr(value, s).state;
      var r := CompileStmt(Let(name, value), s);
      && r.out == Ok(())
      && r.state.symbols == Define(v.symbols, name).0
      && r.state.instructions == v.instructions + Make(OpSetGlobal, [v.symbols.numDefinitions])
      && Resolve(r.state.symbols, name) == Some(Symbol(name, v.symbols.numDefinitions))
  {
    var v := CompileExpr(value, s).state;
    DefineResolve(v.symbols, name, name);
  }

  /** An expression statement is its expression followed by OpPop. */
  lemma ExpressionStatement(x: Expression, s: CState)
    requires CompileExpr(x, s).out.Ok?
    ensures var r := CompileStmt(ExprStmt(x), s);
      r.out == Ok(()) && r.state.instructions == CompileExpr(x, s).state.instructions + [OpByte(OpPop)]
  {
  }

  /** A return statement emits nothing. */
  lemma ReturnStatement(x: Expression, s: CState)
    ensures CompileStmt(Return(x), s) == Step(Ok(()), s)
  {
  }

  /** A failing statement form fails the same way on its own. */
  lemma StatementFailure(st: Statement, s: CState)
    requires !st.Return?
    requires var x := if st.Let? then st.value else st.expr; !CompileExpr(x, s).out.Ok?
    ensures CompileStmt(st, s) == CompileExpr(if st.Let? then st.value else st.expr, s)
  {
  }

  /** compile is fail-fast over a program: the first failing statement's
      outcome is the program's, and no later statement is compiled. */
  lemma {:induction false} ProgramFailFast(p: Program, i: nat, j: nat, s: CState)
    requires i <= j < |p.statements|
    requires forall k :: i <= k < j ==> CompileStmt(p.statements[k], Run(p, i, k, s)).out.Ok?
    requires !CompileStmt(p.statements[j], Run(p, i, j, s)).out.Ok?
    ensures CompileProgram(p, i, s) == CompileStmt(p.statements[j], Run(p, i, j, s))
    decreases j - i
  {
    if i < j {
      var r := CompileStmt(p.statements[i], s);
      RunsOn(p, i, j, s);
      ProgramStep(p, i, s);
      RunStep(p, i, j, s);
      ProgramFailFast(p, i + 1, j, r.state);
    } else {
      assert Run(p, i, i, s) == s;
      ProgramStops(p, i, s);
    }
  }

  /** The state after statements i..k-1 of a program, each compiled from the
      state the one before it left. */
  function Run(p: Program, i: nat, k: nat, s: CState): (r: CState)
    requires i <= k <= |p.statements|
    decreases k - i
  {
    if i == k then s else Run(p, i + 1, k, CompileStmt(p.statements[i], s).state)
  }

  lemma RunStep(p: Program, i: nat, k: nat, s: CState)
    requires i < k <= |p.statements|
    ensures Run(p, i, k, s) == Run(p, i + 1, k, CompileStmt(p.statements[i], s).state)
  {
  }

  /** Statements i..j-1 all compiling from s means statement i does, and
      statements i+1..j-1 all compile from the state it leaves. */
  lemma RunsOn(p: Program, i: nat, j: nat, s: CState)
    requires i < j <= |p.statements|
    requires forall k :: i <= k < j ==> CompileStmt(p.statements[k], Run(p, i, k, s)).out.Ok?
    ensures CompileStmt(p.statements[i], s).out.Ok?
    ensures forall k :: i + 1 <= k < j ==>
      CompileStmt(p.statements[k], Run(p, i + 1, k, CompileStmt(p.statements[i], s).state)).out.Ok?
  {
    assert Run(p, i, i, s) == s;
    forall k | i + 1 <= k < j
      ensures CompileStmt(p.statements[k], Run(p, i + 1, k, CompileStmt(p.statements[i], s).state)).out.Ok?
    {
      RunStep(p, i, k, s);
    }
  }

  lemma ProgramStep(p: Program, i: nat, s: CState)
    requires i < |p.statements| && CompileStmt(p.statements[i], s).out.Ok?
    ensures CompileProgram(p, i, s) == CompileProgram(p, i + 1, CompileStmt(p.statements[i], s).state)
  {
  }

  lemma ProgramStops(p: Program, i: nat, s: CState)
    requires i < |p.statements| && !CompileStmt(p.statements[i], s).out.Ok?
    ensures CompileProgram(p, i, s) == CompileStmt(p.statements[i], s)
  {
  }

  /** When every statement compiles, the program does and leaves the state
      of running them all. */
  lemma {:induction false} ProgramRuns(p: Program, i: nat, s: CState)
    requires i <= |p.statements|
    requires forall k :: i <= k < |p.statements| ==> CompileStmt(p.statements[k], Run(p, i, k, s)).out.Ok?
    ensures CompileProgram(p, i, s) == Step(Ok(()), Run(p, i, |p.statements|, s))
    decreases |p.statements| - i
  {
    if i < |p.statements| {
      var r := CompileStmt(p.statements[i], s);
      RunsOn(p, i, |p.statements|, s);
      ProgramStep(p, i, s);
      RunStep(p, i, |p.statements|, s);
      ProgramRuns(p, i + 1, r.state);
    }
  }

  // ---------------------------------------------------------------------
  // A reference code generator for expressions without jumps

  /** Code and the constants it loads, in the order they are added. */
  datatype Code = Code(ins: seq<Byte>, consts: seq<Const>)

  function Join(a: Code, b: Code): Code
  {
    Code(a.ins + b.ins, a.consts + b.consts)
  }

  /** Code, then one more instruction. */
  function Then(a: Code, op: Opcode, operands: seq<nat>): Code
    requires |operands| == OperandCount(op)
  {
    Code(a.ins + Make(op, operands), a.consts)
  }

  function PrefixOpcode(op: TokenKind): (o: Opcode)
    ensures OperandCount(o) == 0
  {
    if op == MINUS then OpMinus else OpBang
  }

  /** Expressions the compiler turns into code without jumps and without
      failing: names are defined, operators are the supported ones, and
      there is no if-expression. */
  predicate Flat(e: Expression, syms: SymbolTable)
    decreases e, 1
  {
    match e
    case Identifier(name) => name in syms.store
    case Lit(l) =>
      (l.Array? ==> FlatElements(e, 0, syms)) && (l.Hash? ==> FlatPairs(e, 0, syms))
    case Prefix(op, x) => (op == MINUS || op == BANG) && Flat(x, syms)
    case Infix(op, x, y) => (op == LT || InfixOpcode(op).Some?) && Flat(x, syms) && Flat(y, syms)
    case If(_, _, _) => false
    case Function(_, _) => true
    case Call(_, _) => true
    case Index(_, _) => true
  }

  predicate FlatElements(e: Expression, i: nat, syms: SymbolTable)
    requires e.Lit? && e.literal.Array? && i <= |e.literal.elements|
    decreases e, 0, |e.literal.elements| - i
  {
    i == |e.literal.elements| || (Flat(e.literal.elements[i], syms) && FlatElements(e, i + 1, syms))
  }

  predicate FlatPairs(e: Expression, i: nat, syms: SymbolTable)
    requires e.Lit? && e.literal.Hash? && i <= |e.literal.pairs|
    decreases e, 0, |e.literal.pairs| - i
  {
    i == |e.literal.pairs| ||
    (var pair := e.literal.pairs[i];
     assert pair in e.literal.pairs;
     Flat(pair.0, syms) && Flat(pair.1, syms) && FlatPairs(e, i + 1, syms))
  }

  /** The code of a flat expression in postfix order, written directly over
      the tree: operands before their operator (the right one first for
      `<`, which is compiled as a swapped `>`), array elements and hash keys
      and values left to right before the instruction that collects them.
      k is the size of the pool the first constant is added to. */
  function Postfix(e: Expression, syms: SymbolTable, k: nat): (c: Code)
    decreases e, 1
  {
    match e
    case Identifier(name) =>
      if name in syms.store then Code(Make(OpGetGlobal, [syms.store[name].index]), []) else Code([], [])
    case Lit(Integer(i)) => Code(Make(OpConst, [k]), [IntConst(i)])
    case Lit(Str(str)) => Code(Make(OpConst, [k]), [StrConst(str)])
    case Lit(Boolean(b)) => Code(Make(if b then OpTrue else OpFalse, []), [])
    case Lit(Array(elements)) => Then(PostfixElements(e, 0, syms, k), OpArray, [|elements|])
    case Lit(Hash(pairs)) => Then(PostfixPairs(e, 0, syms, k), OpHash, [|pairs| * 2])
    case Prefix(op, x) => Then(Postfix(x, syms, k), PrefixOpcode(op), [])
    case Infix(op, x, y) =>
      if op == LT then
        var a := Postfix(y, syms, k);
        Then(Join(a, Postfix(x, syms, k + |a.consts|)), OpGreaterThan, [])
      else
        var a := Postfix(x, syms, k);
        var b := Join(a, Postfix(y, syms, k + |a.consts|));
        if InfixOpcode(op).Some? then Then(b, InfixOpcode(op).value, []) else b
    case If(_, _, _) => Code([], [])
    case Function(_, _) => Code([], [])
    case Call(_, _) => Code([], [])
    case Index(_, _) => Code([], [])
  }

  function PostfixElements(e: Expression, i: nat, syms: SymbolTable, k: nat): (c: Code)
    requires e.Lit? && e.literal.Array? && i <= |e.literal.elements|
    decreases e, 0, |e.literal.elements| - i
  {
    if i == |e.literal.elements| then Code([], [])
    else
      var a := Postfix(e.literal.elements[i], syms, k);
      Join(a, PostfixElements(e, i + 1, syms, k + |a.consts|))
  }

  function PostfixPairs(e: Expression, i: nat, syms: SymbolTable, k: nat): (c: Code)
    requires e.Lit? && e.literal.Hash? && i <= |e.literal.pairs|
    decreases e, 0, |e.literal.pairs| - i
  {
    if i == |e.literal.pairs| then Code([], [])
    else
      var pair := e.literal.pairs[i];
      assert pair in e.literal.pairs;
      var a := Postfix(pair.0, syms, k);
      var b := Postfix(pair.1, syms, k + |a.consts|);
      var c := Join(a, b);
      Join(c, PostfixPairs(e, i + 1, syms, k + |c.consts|))
  }

  /** The compiler produced code c from s: it succeeded, appended exactly
      c's instructions and constants, and defined no name. */
  predicate Produced(s: CState, r: Step, c: Code)
  {
    r.out == Ok(()) &&
    r.state.instructions == s.instructions + c.ins &&
    r.state.constants == s.constants + c.consts &&
    r.state.symbols == s.symbols
  }

  lemma ProducedJoin(s: CState, a: Step, b: Step, ca: Code, cb: Code)
    requires Produced(s, a, ca) && Produced(a.state, b, cb)
    ensures Produced(s, b, Join(ca, cb))
    ensures a.state.symbols == s.symbols && |a.state.constants| == |s.constants| + |ca.consts|
  {
    assert (s.instructions + ca.ins) + cb.ins == s.instructions + (ca.ins + cb.ins);
    assert (s.constants + ca.consts) + cb.consts == s.constants + (ca.consts + cb.consts);
  }

  /** Producing c, then emitting one instruction, produces c and it. */
  lemma ProducedEmit(s: CState, a: Step, c: Code, op: Opcode, operands: seq<nat>)
    requires Produced(s, a, c) && |operands| == OperandCount(op)
    ensures Produced(s, Step(Ok(()), Emit(a.state, op, operands)), Then(c, op, operands))
  {
    assert (s.instructions + c.ins) + Make(op, operands) == s.instructions + (c.ins + Make(op, operands));
  }

  /** After producing c from s, y is flat in the state the compiler is in. */
  lemma SameSymbols(s: CState, r: Step, c: Code, y: Expression)
    requires Produced(s, r, c) && Flat(y, s.symbols)
    ensures Flat(y, r.state.symbols)
  {
  }

  /** On flat expressions the compiler emits exactly the postfix code and
      adds exactly its constants, at the end of the pool. */
  lemma {:induction false} CompileIsPostfix(e: Expression, s: CState)
    requires Flat(e, s.symbols)
    ensures Produced(s, CompileExpr(e, s), Postfix(e, s.symbols, |s.constants|))
    decreases e, 3
  {
    match e
    case Identifier(name) =>
    case Lit(l) =>
      if l.Array? {
        ArrayIsPostfix(e, s);
      } else if l.Hash? {
        HashIsPostfix(e, s);
      } else {
        ScalarIsPostfix(e, s);
      }
    case Prefix(op, x) => PrefixIsPostfix(e, s);
    case Infix(op, x, y) =>
      if op == LT {
        LessIsPostfix(e, s);
      } else {
        BinaryIsPostfix(e, s);
      }
    case If(_, _, _) =>
    case Function(_, _) =>
    case Call(_, _) =>
    case Index(_, _) =>
  }

  lemma ScalarIsPostfix(e: Expression, s: CState)
    requires e.Lit? && !e.literal.Array? && !e.literal.Hash?
    ensures Produced(s, CompileExpr(e, s), Postfix(e, s.symbols, |s.constants|))
  {
    assert CompileExpr(e, s) == CompileLiteral(e, s);
  }

  // Prefix operators

  lemma {:induction false} PrefixIsPostfix(e: Expression, s: CState)
    requires e.Prefix? && Flat(e, s.symbols)
    ensures Produced(s, CompileExpr(e, s), Postfix(e, s.symbols, |s.constants|))
    decreases e, 2
  {
    CompileIsPostfix(e.operand, s);
    PrefixCloses(e, s);
  }

  lemma PrefixCloses(e: Expression, s: CState)
    requires e.Prefix? && (e.op == MINUS || e.op == BANG)
    requires Produced(s, CompileExpr(e.operand, s), Postfix(e.operand, s.symbols, |s.constants|))
    ensures Produced(s, CompileExpr(e, s), Postfix(e, s.symbols, |s.constants|))
  {
    PrefixCompiles(e, s);
    PostfixPrefix(e, s.symbols, |s.constants|);
    ProducedEmit(s, CompileExpr(e.operand, s), Postfix(e.operand, s.symbols, |s.constants|), PrefixOpcode(e.op), []);
  }

  lemma PostfixPrefix(e: Expression, syms: SymbolTable, k: nat)
    requires e.Prefix?
    ensures Postfix(e, syms, k) == Then(Postfix(e.operand, syms, k), PrefixOpcode(e.op), [])
  {
  }

  lemma PrefixCompiles(e: Expression, s: CState)
    requires e.Prefix? && (e.op == MINUS || e.op == BANG) && CompileExpr(e.operand, s).out.Ok?
    ensures CompileExpr(e, s) == Step(Ok(()), Emit(CompileExpr(e.operand, s).state, PrefixOpcode(e.op), []))
  {
    assert CompileExpr(e, s) == CompilePrefix(e, s);
  }

  // Infix operators

  /** Compiling x, then y from where x left off. */
  function CompileBoth(x: Expression, y: Expression, s: CState): Step
  {
    CompileExpr(y, CompileExpr(x, s).state)
  }

  /** The postfix code of x, then that of y. */
  function PostfixBoth(x: Expression, y: Expression, syms: SymbolTable, k: nat): Code
  {
    var a := Postfix(x, syms, k);
    Join(a, Postfix(y, syms, k + |a.consts|))
  }

  /** Two operands compiled in a row produce the code of both. */
  lemma {:induction false} OperandsArePostfix(x: Expression, y: Expression, s: CState, e: Expression)
    requires x < e && y < e && Flat(x, s.symbols) && Flat(y, s.symbols)
    ensures CompileExpr(x, s).out.Ok?
    ensures Produced(s, CompileBoth(x, y, s), PostfixBoth(x, y, s.symbols, |s.constants|))
    decreases e, 1
  {
    CompileIsPostfix(x, s);
    SecondOperand(x, y, s, e);
  }

  lemma {:induction false} SecondOperand(x: Expression, y: Expression, s: CState, e: Expression)
    requires x < e && y < e && Flat(y, s.symbols)
    requires Produced(s, CompileExpr(x, s), Postfix(x, s.symbols, |s.constants|))
    ensures Produced(s, CompileBoth(x, y, s), PostfixBoth(x, y, s.symbols, |s.constants|))
    decreases e, 0, 0
  {
    var r := CompileExpr(x, s);
    SameSymbols(s, r, Postfix(x, s.symbols, |s.constants|), y);
    CompileIsPostfix(y, r.state);
    ProducedBoth(s, r, CompileExpr(y, r.state), x, y);
  }

  /** Producing the code of x, then that of y from where x left off, is
      producing the code of both. */
  lemma ProducedBoth(s: CState, r: Step, q: Step, x: Expression, y: Expression)
    requires Produced(s, r, Postfix(x, s.symbols, |s.constants|))
    requires Produced(r.state, q, Postfix(y, r.state.symbols, |r.state.constants|))
    ensures Produced(s, q, PostfixBoth(x, y, s.symbols, |s.constants|))
  {
    ProducedJoin(s, r, q, Postfix(x, s.symbols, |s.constants|), Postfix(y, r.state.symbols, |r.state.constants|));
  }

  lemma {:induction false} LessIsPostfix(e: Expression, s: CState)
    requires e.Infix? && e.op == LT && Flat(e, s.symbols)
    ensures Produced(s, CompileExpr(e, s), Postfix(e, s.symbols, |s.constants|))
    decreases e, 2
  {
    OperandsArePostfix(e.right, e.left, s, e);
    LessCloses(e, s);
  }

  lemma LessCloses(e: Expression, s: CState)
    requires e.Infix? && e.op == LT && CompileExpr(e.right, s).out.Ok?
    requires Produced(s, CompileBoth(e.right, e.left, s), PostfixBoth(e.right, e.left, s.symbols, |s.constants|))
    ensures Produced(s, CompileExpr(e, s), Postfix(e, s.symbols, |s.constants|))
  {
    LessCompiles(e, s);
    PostfixLess(e, s.symbols, |s.constants|);
    ProducedEmit(s, CompileBoth(e.right, e.left, s), PostfixBoth(e.right, e.left, s.symbols, |s.constants|), OpGreaterThan, []);
  }

  lemma LessCompiles(e: Expression, s: CState)
    requires e.Infix? && e.op == LT && CompileExpr(e.right, s).out.Ok? && CompileBoth(e.right, e.left, s).out.Ok?
    ensures OperandCount(OpGreaterThan) == 0
    ensures CompileExpr(e, s) == Step(Ok(()), Emit(CompileBoth(e.right, e.left, s).state, OpGreaterThan, []))
  {
    assert CompileExpr(e, s) == CompileInfix(e, s);
  }

  lemma PostfixLess(e: Expression, syms: SymbolTable, k: nat)
    requires e.Infix? && e.op == LT
    ensures Postfix(e, syms, k) == Then(PostfixBoth(e.right, e.left, syms, k), OpGreaterThan, [])
  {
  }

  lemma {:induction false} BinaryIsPostfix(e: Expression, s: CState)
    requires e.Infix? && e.op != LT && Flat(e, s.symbols)
    ensures Produced(s, CompileExpr(e, s), Postfix(e, s.symbols, |s.constants|))
    decreases e, 2
  {
    OperandsArePostfix(e.left, e.right, s, e);
    BinaryCloses(e, s);
  }

  lemma BinaryCloses(e: Expression, s: CState)
    requires e.Infix? && e.op != LT && InfixOpcode(e.op).Some? && CompileExpr(e.left, s).out.Ok?
    requires Produced(s, CompileBoth(e.left, e.right, s), PostfixBoth(e.left, e.right, s.symbols, |s.constants|))
    ensures Produced(s, CompileExpr(e, s), Postfix(e, s.symbols, |s.constants|))
  {
    BinaryCompiles(e, s);
    PostfixBinary(e, s.symbols, |s.constants|);
    ProducedEmit(s, CompileBoth(e.left, e.right, s), PostfixBoth(e.left, e.right, s.symbols, |s.constants|),
      InfixOpcode(e.op).value, []);
  }

  lemma BinaryCompiles(e: Expression, s: CState)
    requires e.Infix? && e.op != LT && InfixOpcode(e.op).Some?
    requires CompileExpr(e.left, s).out.Ok? && CompileBoth(e.left, e.right, s).out.Ok?
    ensures CompileExpr(e, s) == Step(Ok(()), Emit(CompileBoth(e.left, e.right, s).state, InfixOpcode(e.op).value, []))
  {
    assert CompileExpr(e, s) == CompileInfix(e, s);
  }

  lemma PostfixBinary(e: Expression, syms: SymbolTable, k: nat)
    requires e.Infix? && e.op != LT && InfixOpcode(e.op).Some?
    ensures Postfix(e, syms, k) == Then(PostfixBoth(e.left, e.right, syms, k), InfixOpcode(e.op).value, [])
  {
  }

  // Arrays

  lemma {:induction false} ArrayIsPostfix(e: Expression, s: CState)
    requires e.Lit? && e.literal.Array? && Flat(e, s.symbols)
    ensures Produced(s, CompileExpr(e, s), Postfix(e, s.symbols, |s.constants|))
    decreases e, 2
  {
    ElementsArePostfix(e, 0, s);
    ArrayCloses(e, s);
  }

  lemma ArrayCloses(e: Expression, s: CState)
    requires e.Lit? && e.literal.Array? && Flat(e, s.symbols)
    requires Produced(s, CompileElements(e, 0, s), PostfixElements(e, 0, s.symbols, |s.constants|))
    ensures Produced(s, CompileExpr(e, s), Postfix(e, s.symbols, |s.constants|))
  {
    var r := CompileElements(e, 0, s);
    assert CompileExpr(e, s) == Step(Ok(()), Emit(r.state, OpArray, [|e.literal.elements|])) by {
      assert CompileExpr(e, s) == CompileLiteral(e, s);
    }
    ProducedEmit(s, r, PostfixElements(e, 0, s.symbols, |s.constants|), OpArray, [|e.literal.elements|]);
  }

  lemma {:induction false} ElementsArePostfix(e: Expression, i: nat, s: CState)
    requires e.Lit? && e.literal.Array? && i <= |e.literal.elements| && FlatElements(e, i, s.symbols)
    ensures Produced(s, CompileElements(e, i, s), PostfixElements(e, i, s.symbols, |s.constants|))
    decreases e, 0, |e.literal.elements| - i, 1
  {
    if i < |e.literal.elements| {
      CompileIsPostfix(e.literal.elements[i], s);
      ElementsRest(e, i, s);
    }
  }

  lemma {:induction false} ElementsRest(e: Expression, i: nat, s: CState)
    requires e.Lit? && e.literal.Array? && i < |e.literal.elements| && FlatElements(e, i, s.symbols)
    requires var x := e.literal.elements[i];
      Produced(s, CompileExpr(x, s), Postfix(x, s.symbols, |s.constants|))
    ensures Produced(s, CompileElements(e, i, s), PostfixElements(e, i, s.symbols, |s.constants|))
    decreases e, 0, |e.literal.elements| - i, 0
  {
    var r := CompileExpr(e.literal.elements[i], s);
    SameElements(e, i, s, r);
    ElementsArePostfix(e, i + 1, r.state);
    ElementsStep(e, i, s);
    ProducedElements(e, i, s, r, CompileElements(e, i + 1, r.state));
  }

  lemma SameElements(e: Expression, i: nat, s: CState, r: Step)
    requires e.Lit? && e.literal.Array? && i < |e.literal.elements| && FlatElements(e, i, s.symbols)
    requires var x := e.literal.elements[i]; Produced(s, r, Postfix(x, s.symbols, |s.constants|))
    ensures FlatElements(e, i + 1, r.state.symbols)
  {
  }

  /** Producing element i, then the elements after it, is producing the
      elements from i on. */
  lemma ProducedElements(e: Expression, i: nat, s: CState, r: Step, q: Step)
    requires e.Lit? && e.literal.Array? && i < |e.literal.elements|
    requires Produced(s, r, Postfix(e.literal.elements[i], s.symbols, |s.constants|))
    requires Produced(r.state, q, PostfixElements(e, i + 1, r.state.symbols, |r.state.constants|))
    ensures Produced(s, q, PostfixElements(e, i, s.symbols, |s.constants|))
  {
    ProducedJoin(s, r, q, Postfix(e.literal.elements[i], s.symbols, |s.constants|),
      PostfixElements(e, i + 1, r.state.symbols, |r.state.constants|));
  }

  /** Past element i, when it compiles, CompileElements goes on with
      element i + 1. */
  lemma ElementsStep(e: Expression, i: nat, s: CState)
    requires e.Lit? && e.literal.Array? && i < |e.literal.elements|
    requires CompileExpr(e.literal.elements[i], s).out.Ok?
    ensures CompileElements(e, i, s) == CompileElements(e, i + 1, CompileExpr(e.literal.elements[i], s).state)
  {
  }

  // Hashes

  lemma {:induction false} HashIsPostfix(e: Expression, s: CState)
    requires e.Lit? && e.literal.Hash? && Flat(e, s.symbols)
    ensures Produced(s, CompileExpr(e, s), Postfix(e, s.symbols, |s.constants|))
    decreases e, 2
  {
    PairsArePostfix(e, 0, s);
    HashCloses(e, s);
  }

  lemma HashCloses(e: Expression, s: CState)
    requires e.Lit? && e.literal.Hash? && Flat(e, s.symbols)
    requires Produced(s, CompilePairs(e, 0, s), PostfixPairs(e, 0, s.symbols, |s.constants|))
    ensures Produced(s, CompileExpr(e, s), Postfix(e, s.symbols, |s.constants|))
  {
    var r := CompilePairs(e, 0, s);
    assert CompileExpr(e, s) == Step(Ok(()), Emit(r.state, OpHash, [|e.literal.pairs| * 2])) by {
      assert CompileExpr(e, s) == CompileLiteral(e, s);
    }
    ProducedEmit(s, r, PostfixPairs(e, 0, s.symbols, |s.constants|), OpHash, [|e.literal.pairs| * 2]);
  }

  lemma {:induction false} PairsArePostfix(e: Expression, i: nat, s: CState)
    requires e.Lit? && e.literal.Hash? && i <= |e.literal.pairs| && FlatPairs(e, i, s.symbols)
    ensures Produced(s, CompilePairs(e, i, s), PostfixPairs(e, i, s.symbols, |s.constants|))
    decreases e, 0, |e.literal.pairs| - i, 2
  {
    if i < |e.literal.pairs| {
      PairIsPostfix(e, i, s);
      PairsRest(e, i, s);
    }
  }

  lemma {:induction false} PairIsPostfix(e: Expression, i: nat, s: CState)
    requires e.Lit? && e.literal.Hash? && i < |e.literal.pairs| && FlatPairs(e, i, s.symbols)
    ensures var pair := e.literal.pairs[i];
      CompileExpr(pair.0, s).out.Ok? &&
      Produced(s, CompileBoth(pair.0, pair.1, s), PostfixBoth(pair.0, pair.1, s.symbols, |s.constants|))
    decreases e, 0, |e.literal.pairs| - i, 1
  {
    var pair := e.literal.pairs[i];
    assert pair in e.literal.pairs;
    CompileIsPostfix(pair.0, s);
    SecondOperand(pair.0, pair.1, s, e);
  }

  lemma {:induction false} PairsRest(e: Expression, i: nat, s: CState)
    requires e.Lit? && e.literal.Hash? && i < |e.literal.pairs| && FlatPairs(e, i, s.symbols)
    requires var pair := e.literal.pairs[i];
      CompileExpr(pair.0, s).out.Ok? &&
      Produced(s, CompileBoth(pair.0, pair.1, s), PostfixBoth(pair.0, pair.1, s.symbols, |s.constants|))
    ensures Produced(s, CompilePairs(e, i, s), PostfixPairs(e, i, s.symbols, |s.constants|))
    decreases e, 0, |e.literal.pairs| - i, 0
  {
    var pair := e.literal.pairs[i];
    var v := CompileBoth(pair.0, pair.1, s);
    var c := PostfixBoth(pair.0, pair.1, s.symbols, |s.constants|);
    SamePairs(e, i, s, v, c);
    PairsArePostfix(e, i + 1, v.state);
    PairsUnfold(e, i, s);
    ProducedPairs(e, i, s, v, CompilePairs(e, i + 1, v.state));
  }

  lemma SamePairs(e: Expression, i: nat, s: CState, v: Step, c: Code)
    requires e.Lit? && e.literal.Hash? && i < |e.literal.pairs| && FlatPairs(e, i, s.symbols)
    requires Produced(s, v, c)
    ensures FlatPairs(e, i + 1, v.state.symbols)
  {
  }

  /** Producing pair i, then the pairs after it, is producing the pairs
      from i on. */
  lemma ProducedPairs(e: Expression, i: nat, s: CState, v: Step, q: Step)
    requires e.Lit? && e.literal.Hash? && i < |e.literal.pairs|
    requires var pair := e.literal.pairs[i];
      Produced(s, v, PostfixBoth(pair.0, pair.1, s.symbols, |s.constants|))
    requires Produced(v.state, q, PostfixPairs(e, i + 1, v.state.symbols, |v.state.constants|))
    ensures Produced(s, q, PostfixPairs(e, i, s.symbols, |s.constants|))
  {
    var pair := e.literal.pairs[i];
    PostfixPairsStep(e, i, s.symbols, |s.constants|, PostfixBoth(pair.0, pair.1, s.symbols, |s.constants|));
    ProducedJoin(s, v, q, PostfixBoth(pair.0, pair.1, s.symbols, |s.constants|),
      PostfixPairs(e, i + 1, v.state.symbols, |v.state.constants|));
  }

  lemma PostfixPairsStep(e: Expression, i: nat, syms: SymbolTable, k: nat, c: Code)
    requires e.Lit? && e.literal.Hash? && i < |e.literal.pairs|
    requires c == PostfixBoth(e.literal.pairs[i].0, e.literal.pairs[i].1, syms, k)
    ensures PostfixPairs(e, i, syms, k) == Join(c, PostfixPairs(e, i + 1, syms, k + |c.consts|))
  {
  }

  /** Past pair i, when both its key and value compile, CompilePairs goes
      on with pair i + 1. */
  lemma PairsUnfold(e: Expression, i: nat, s: CState)
    requires e.Lit? && e.literal.Hash? && i < |e.literal.pairs|
    requires var pair := e.literal.pairs[i];
      CompileExpr(pair.0, s).out.Ok? && CompileBoth(pair.0, pair.1, s).out.Ok?
    ensures var pair := e.literal.pairs[i];
      CompilePairs(e, i, s) == CompilePairs(e, i + 1, CompileBoth(pair.0, pair.1, s).state)
  {
  }

  // ---------------------------------------------------------------------
  // Where the jumps of an if-expression land

  /** The two jumps of a compiled if-expression: the OpJumpNotTruthy at jnt
      lands just past the OpJump at jmp (the end of the consequence), and
      that OpJump lands at the end of the code (past the alternative). */
  predicate IfJumps(r: seq<Byte>, jnt: nat, jmp: nat)
  {
    jnt + 3 <= jmp && jmp + 3 <= |r| &&
    r[jnt] == OpByte(OpJumpNotTruthy) && ReadU16(r, jnt + 1) == (jmp + 3) % 65536 &&
    r[jmp] == OpByte(OpJump) && ReadU16(r, jmp + 1) == |r| % 65536
  }

  /** The first n elements of a sequence are those of any extension. */
  lemma PrefixUpTo<T>(a: seq<T>, b: seq<T>, n: nat)
    requires IsPrefix(a, b) && n <= |a|
    ensures b[..n] == a[..n]
  {
    assert b[..n] == b[..|a|][..n];
  }

  /** Past the consequence (t, ending in the OpJump at jmp), code r keeps t
      up to that opcode and the jump lands at the end of r. */
  predicate KeptFrom(t: seq<Byte>, r: seq<Byte>, jmp: nat)
  {
    jmp + 3 == |t| <= |r| && r[..jmp + 1] == t[..jmp + 1] && ReadU16(r, jmp + 1) == |r| % 65536
  }

  /** r is t followed by OpNull alone. */
  predicate NullEnds(t: seq<Byte>, r: seq<Byte>)
  {
    |r| == |t| + 1 && r[|t|] == OpByte(OpNull)
  }

  /** PatchJump points the OpJump that ends s4, which s5 still holds, at
      the end of s5. */
  lemma PatchJumpIs(s: CState, s4: CState, s5: CState)
    requires LastFinal(s4) && s4.last.opcode == OpJump && s4.last.position >= |s.instructions|
    requires Grows(s4, s5) && Grows(s, s5) && LastFinal(s5)
    requires s5.last == s4.last || s5.last.position >= |s4.instructions|
    ensures s4.last.position + 3 == |s4.instructions| && Patchable(s5, s4.last.position)
    ensures PatchJump(s, s4, s5) == ChangeOperand(s5, s4.last.position, |s5.instructions|)
  {
    LastPatchable(s4);
    PatchableKept(s4, s5, s4.last.position);
  }

  /** Patching the operand at p to the end of the code keeps the code up to
      the opcode at p and everything after its operand. */
  lemma JumpLandsAtEnd(t: seq<Byte>, s5: CState, p: nat, s6: CState)
    requires p + 3 == |t| && IsPrefix(t, s5.instructions) && Patchable(s5, p)
    requires s6 == ChangeOperand(s5, p, |s5.instructions|)
    ensures KeptFrom(t, s6.instructions, p)
    ensures |s6.instructions| == |s5.instructions| && s6.instructions[p + 3..] == s5.instructions[p + 3..]
  {
    PrefixUpTo(t, s5.instructions, p + 1);
  }

  /** PatchJump keeps the code up to the OpJump's opcode, and everything
      after its operand, and lands the jump at the end. */
  lemma JumpPatched(s: CState, s4: CState, s5: CState, s6: CState)
    requires LastFinal(s4) && s4.last.opcode == OpJump && s4.last.position >= |s.instructions|
    requires Grows(s4, s5) && Grows(s, s5) && LastFinal(s5)
    requires s5.last == s4.last || s5.last.position >= |s4.instructions|
    requires s6 == PatchJump(s, s4, s5)
    ensures KeptFrom(s4.instructions, s6.instructions, s4.last.position)
    ensures |s6.instructions| == |s5.instructions| && s6.instructions[|s4.instructions|..] == s5.instructions[|s4.instructions|..]
  {
    PatchJumpIs(s, s4, s5);
    JumpLandsAtEnd(s4.instructions, s5, s4.last.position, s6);
  }

  /** An alternative block is appended after the OpJump, which is then
      pointed at the end of the code. */
  lemma AlternativeKeeps(e: Expression, s: CState, s4: CState, r: Step)
    requires e.If? && Grows(s, s4) && LastFinal(s4)
    requires s4.last.opcode == OpJump && s4.last.position >= |s.instructions|
    requires e.alternate.Some? && r == CompileAlternative(e, s, s4) && r.out.Ok?
    ensures KeptFrom(s4.instructions, r.state.instructions, s4.last.position)
  {
    var a := CompileBlock(e.alternate.value, 0, s4);
    var s5 := DropBranchPop(s4, a.state);
    GrowsTrans(s, s4, s5);
    JumpPatched(s, s4, s5, r.state);
  }

  /** Without an alternative, OpNull is appended after the OpJump, which is
      then pointed at the end of the code. */
  lemma NullAlternative(e: Expression, s: CState, s4: CState, r: Step)
    requires e.If? && Grows(s, s4) && LastFinal(s4)
    requires s4.last.opcode == OpJump && s4.last.position >= |s.instructions|
    requires e.alternate.None? && r == CompileAlternative(e, s, s4)
    ensures KeptFrom(s4.instructions, r.state.instructions, s4.last.position)
    ensures NullEnds(s4.instructions, r.state.instructions)
  {
    var s5 := Emit(s4, OpNull, []);
    GrowsTrans(s, s4, s5);
    JumpPatched(s, s4, s5, r.state);
    assert r.state.instructions[|s4.instructions|] == r.state.instructions[|s4.instructions|..][0];
  }

  /** Either way the alternative is compiled. */
  lemma AlternativeKept(e: Expression, s: CState, s4: CState, r: Step)
    requires e.If? && Grows(s, s4) && LastFinal(s4)
    requires s4.last.opcode == OpJump && s4.last.position >= |s.instructions|
    requires r == CompileAlternative(e, s, s4) && r.out.Ok?
    ensures KeptFrom(s4.instructions, r.state.instructions, s4.last.position)
    ensures e.alternate.None? ==> NullEnds(s4.instructions, r.state.instructions)
  {
    if e.alternate.None? {
      NullAlternative(e, s, s4, r);
    } else {
      AlternativeKeeps(e, s, s4, r);
    }
  }

  /** The jumps of an if-expression whose condition code ends at jnt; with
      no alternative, the code ends in OpNull right after the OpJump. */
  ghost predicate IfShape(r: seq<Byte>, jnt: nat, noAlternative: bool)
  {
    exists jmp: nat :: IfJumps(r, jnt, jmp) &&
      (noAlternative ==> |r| == jmp + 4 && r[jmp + 3] == OpByte(OpNull))
  }

  /** The bytes an if-expression's code keeps from the point where the
      consequence has been closed. */
  lemma JumpsKept(t: seq<Byte>, r: seq<Byte>, jnt: nat, jmp: nat, noAlternative: bool)
    requires jnt + 3 <= jmp && KeptFrom(t, r, jmp) && (noAlternative ==> NullEnds(t, r))
    requires t[jnt] == OpByte(OpJumpNotTruthy) && ReadU16(t, jnt + 1) == |t| % 65536 && t[jmp] == OpByte(OpJump)
    ensures IfShape(r, jnt, noAlternative)
  {
    assert r[jnt] == r[..jmp + 1][jnt] && t[jnt] == t[..jmp + 1][jnt];
    assert r[jnt + 1] == r[..jmp + 1][jnt + 1] && t[jnt + 1] == t[..jmp + 1][jnt + 1];
    assert r[jnt + 2] == r[..jmp + 1][jnt + 2] && t[jnt + 2] == t[..jmp + 1][jnt + 2];
    assert r[jmp] == r[..jmp + 1][jmp] && t[jmp] == t[..jmp + 1][jmp];
    assert IfJumps(r, jnt, jmp);
  }

  /** The consequence block, compiled after the OpJumpNotTruthy. */
  function ConsequenceBlock(e: Expression, c: CState): Step
    requires e.If?
  {
    CompileBlock(e.consequent, 0, Emit(c, OpJumpNotTruthy, [Placeholder]))
  }

  /** An if-expression that compiles has a condition that compiles. */
  lemma IfCondition(e: Expression, s: CState)
    requires e.If? && CompileExpr(e, s).out.Ok?
    ensures CompileExpr(e.condition, s).out.Ok?
    ensures CompileExpr(e, s) == CompileConsequence(e, s, CompileExpr(e.condition, s).state)
  {
    assert CompileExpr(e, s) == CompileIf(e, s);
  }

  /** ... and a consequence that compiles. */
  lemma ConsequenceCloses(e: Expression, s: CState, c: CState, b: Step)
    requires e.If? && Grows(s, c) && CompileConsequence(e, s, c).out.Ok?
    requires b == ConsequenceBlock(e, c)
    ensures b.out.Ok? && Grows(Emit(c, OpJumpNotTruthy, [Placeholder]), b.state)
    ensures StmtPost(Emit(c, OpJumpNotTruthy, [Placeholder]), Step(Ok(()), b.state))
    ensures CompileConsequence(e, s, c) == CloseConsequence(e, s, c, b.state)
  {
  }

  /** Closing the consequence is compiling the alternative after the
      patched consequence. */
  lemma ClosesToAlternative(e: Expression, s: CState, c: CState, b: CState, s4: CState)
    requires e.If? && Grows(s, c)
    requires Grows(Emit(c, OpJumpNotTruthy, [Placeholder]), b)
    requires StmtPost(Emit(c, OpJumpNotTruthy, [Placeholder]), Step(Ok(()), b))
    requires s4 == PatchConsequence(c, b)
    ensures Grows(s, s4) && |c.instructions| >= |s.instructions|
    ensures CloseConsequence(e, s, c, b) == CompileAlternative(e, s, s4)
  {
    GrowsTrans(s, c, s4);
  }

  /** From the patched consequence on, both jumps of the if-expression keep
      their targets. */
  lemma AlternativeJumps(e: Expression, s: CState, s4: CState, jnt: nat, r: Step)
    requires e.If? && Grows(s, s4) && LastFinal(s4) && s4.last.opcode == OpJump
    requires |s.instructions| <= jnt && jnt + 3 <= s4.last.position
    requires s4.instructions[jnt] == OpByte(OpJumpNotTruthy)
    requires ReadU16(s4.instructions, jnt + 1) == |s4.instructions| % 65536
    requires r == CompileAlternative(e, s, s4) && r.out.Ok?
    ensures IfShape(r.state.instructions, jnt, e.alternate.None?)
  {
    AlternativeKept(e, s, s4, r);
    JumpsKept(s4.instructions, r.state.instructions, jnt, s4.last.position, e.alternate.None?);
  }

  /** Closing a consequence that compiled. */
  lemma ClosedJumps(e: Expression, s: CState, c: CState, b: Step)
    requires e.If? && Grows(s, c)
    requires b == ConsequenceBlock(e, c) && b.out.Ok?
    requires CloseConsequence(e, s, c, b.state).out.Ok?
    ensures IfShape(CloseConsequence(e, s, c, b.state).state.instructions, |c.instructions|, e.alternate.None?)
  {
    var s4 := PatchConsequence(c, b.state);
    ClosesToAlternative(e, s, c, b.state, s4);
    AlternativeJumps(e, s, s4, |c.instructions|, CloseConsequence(e, s, c, b.state));
  }

  /** Compiling the consequence after a condition that compiled. */
  lemma ConsequenceJumps(e: Expression, s: CState, c: CState)
    requires e.If? && Grows(s, c) && CompileConsequence(e, s, c).out.Ok?
    ensures IfShape(CompileConsequence(e, s, c).state.instructions, |c.instructions|, e.alternate.None?)
  {
    var b := ConsequenceBlock(e, c);
    ConsequenceCloses(e, s, c, b);
    ClosedJumps(e, s, c, b);
  }

  /** The jumps of an if-expression land where the source intends: the
      OpJumpNotTruthy right after the condition skips the consequence and
      the OpJump that ends it, and that OpJump skips the alternative; with
      no alternative, the code ends in OpNull. */
  lemma IfJumpTargets(e: Expression, s: CState)
    requires e.If? && CompileExpr(e, s).out.Ok?
    ensures IfShape(CompileExpr(e, s).state.instructions,
                    |CompileExpr(e.condition, s).state.instructions|, e.alternate.None?)
  {
    IfCondition(e, s);
    ConsequenceJumps(e, s, CompileExpr(e.condition, s).state);
  }
}
