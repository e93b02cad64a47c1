# Monkey front end: Pratt parser and bytecode compiler

This project models two parts of a Rust implementation of the Monkey
language:

- the Pratt parser, `parser/lib.rs`, which turns the lexer's tokens into a
  syntax tree;
- the single-pass bytecode compiler, `compiler/compiler.rs`, which turns
  that tree into a byte buffer of instructions plus a constant pool.

Each side has two layers.

- A pure specification: `ParserSpec` and `CompilerSpec`. It has one function
  per routine of the source, with the same branches, errors and constants.
- An imperative class: `Parser.Parser` and `Compiler.Compiler`. It has the
  source struct's fields, and methods that update them in place. Every
  method's `ensures` ties its result and the new state to the specification
  function for the same routine. Loops carry invariants stated against that
  function.

The properties are lemmas about the specification functions:

- `ParserProps`, `ParserShapes` and `ParserExamples` for the parser;
- `CompilerProps` for the compiler.

The helper modules the core uses are modelled only as far as the core needs
them:

- `Tokens`: token kinds;
- `Precedences`: the binding-power table;
- `Ast`: the syntax tree;
- `OpCode`: opcodes, `make_instructions` and big-endian u16 operands;
- `Symbols`: the global symbol table.

The lexer, precedences, ast, op_code and symbol_table source files are not
part of this model. Their behaviour is rebuilt from how the two core files
use them.

### Modelling choices

- **Tokens.** The lexer's output is a finite `seq<TokenKind>`. Reading past
  its end yields `EOF`, as the lexer does at end of input. The parser's
  `current_token`/`peek_token` window is the index `pos` into that sequence,
  with `currentToken == At(tokens, pos)` and `peekToken == At(tokens, pos + 1)`.
  Token sequences are assumed to come from the lexer, so `EOF` appears only
  past their end. The model does not exclude an `EOF` in the middle, which
  would end `parse_program` early, as the source's loop would.
- **One syntax tree for both core files.** The two files do not agree on
  the shape of a `let` statement: the parser's holds a string, the
  compiler's an identifier token. The parser builds `let`
  statements from the identifier token's name (parser/lib.rs:95, 107); the
  compiler defines the let-bound name from the rendering of that token
  (compiler/compiler.rs:76) but resolves identifier expressions by their name
  (compiler/compiler.rs:95). `Ast` has a single `Let(name, value)` and
  `Identifier(name)`, so the model assumes that an identifier token renders
  as its bare name. If it did not, `let x = 1; x` would fail with an
  undefined variable, and the resolution part of `CompilerProps.LetStatement`
  would not carry over to the source.
- **Failures.** The source fails in two ways:
  - an error returned through `Result` and `?`;
  - a panic from `.unwrap()` on an error, at `parser/lib.rs:188`,
    `compiler/compiler.rs:138` and `compiler/compiler.rs:153-159`.

  `Results.Outcome` therefore has three cases: `Ok`, `Err` and `Panic`.
  `parse_program` records an `Err` and carries on, but a `Panic` aborts the
  whole parse. That is the `Aborted` outcome.
- **Error messages.** Error strings are datatypes (`ParseError`,
  `CompileError`) that carry the tokens the message would print.
- **Operand width.** `make_instructions` writes operands as big-endian u16.
  Operands are taken modulo 65536, explicitly.

## Model

| member | source | states |
|---|---|---|
| Precedences.PrecedenceOf | parser/lib.rs:133 | exactly the binary operators, `(` and `[` bind tighter than LOWEST; every binary operator binds looser than a prefix operator |
| Precedences.Rank | parser/lib.rs:133 | binding powers are totally ordered, with LOWEST strictly below every other |
| ParserSpec.At | parser/lib.rs:44-47 | any token other than EOF lies inside the token sequence (reading past the end yields EOF) |
| ParserSpec.Advance | parser/lib.rs:44-47 | next_token moves the window by exactly one token while input remains, and the new current/peek tokens are the old peek and the one after it |
| ParserSpec.ExpectPeek | parser/lib.rs:57-65 | always advances; succeeds if and only if the new current token is the expected kind, otherwise fails with ExpectedToken(expected, actual) |
| ParserSpec.SkipSemicolon | parser/lib.rs:103-105 | an optional trailing semicolon is consumed, and nothing else |
| ParserSpec.ParseInfix | parser/lib.rs:174-198 | no infix rule applies (and nothing is consumed) exactly when the peek token is neither a binary operator nor `(` |
| ParserSpec.ParseAlternative | parser/lib.rs:210-216 | without a following `else` there is no alternative and no token is consumed |
| Parser.Parser.constructor | parser/lib.rs:21-42 | the window holds the first two tokens and no errors are recorded |
| Parser.Parser.NextToken | parser/lib.rs:44-47 | the old peek token becomes the current token and the window advances by one |
| Parser.Parser.ExpectPeek | parser/lib.rs:57-65 | result and position are those of ParserSpec.ExpectPeek; no error is recorded |
| Parser.Parser.ParseProgram | parser/lib.rs:67-82 | the loop computes the program outcome; when it does not abort, the recorded errors are exactly the returned ones (none on success) |
| Parser.Parser.ParseStatement | parser/lib.rs:84-90 | dispatch on let/return/other agrees with the specification; the error list is unchanged |
| Parser.Parser.ParseLetStatement | parser/lib.rs:92-108 | result and final position agree with the specification |
| Parser.Parser.ParseReturnStatement | parser/lib.rs:110-120 | result and final position agree with the specification |
| Parser.Parser.ParseExpressionStatement | parser/lib.rs:122-129 | result and final position agree with the specification |
| Parser.Parser.ParseExpression | parser/lib.rs:131-141 | the Pratt loop (prefix rule, then infix rules while the peek binds tighter) agrees with the specification |
| Parser.Parser.ParsePrefix | parser/lib.rs:143-172 | the prefix dispatch agrees with the specification |
| Parser.Parser.ParsePrefixOperator | parser/lib.rs:150-155 | a `!`/`-` operand is parsed at PREFIX precedence, as specified |
| Parser.Parser.ParseGroup | parser/lib.rs:156-161 | a parenthesised group agrees with the specification |
| Parser.Parser.ParseInfix | parser/lib.rs:174-198 | infix and call rules agree with the specification |
| Parser.Parser.ParseIf | parser/lib.rs:200-219 | result and position agree with the specification |
| Parser.Parser.ParseAlternative | parser/lib.rs:210-216 | result and position agree with the specification |
| Parser.Parser.ParseBlock | parser/lib.rs:221-234 | the block loop agrees with the specification |
| Parser.Parser.ParseFn | parser/lib.rs:236-246 | result and position agree with the specification |
| Parser.Parser.ParseFnParameters | parser/lib.rs:248-274 | the parameter loop agrees with the specification |
| Parser.Parser.ParseFnCall | parser/lib.rs:276-279 | result and position agree with the specification |
| Parser.Parser.ParseExpressionList | parser/lib.rs:281-301 | the list loop agrees with the specification |
| Parser.Parse | parser/lib.rs:304-310 | parse returns exactly the outcome of parsing the whole token sequence from a fresh parser |
| ParserProps.ErrsEmpty | parser/lib.rs:77-81 | the error list is empty if and only if no statement outcome is an error |
| ParserProps.ProgramLoopSummary | parser/lib.rs:67-82 | the program loop from any point is the verdict over the list of per-statement outcomes |
| ParserProps.ParseProgramSummary | parser/lib.rs:67-82 | a program is accepted exactly when no statement failed or aborted, and then holds every statement in order; it is rejected exactly when some statement failed and none aborted, with one error per failing statement in order; it aborts exactly when a statement panicked |
| ParserProps.BlockLoopSummary | parser/lib.rs:221-234 | a block keeps the statements that parsed, in order, and drops the failing ones |
| ParserProps.ParseBlockNeverErrs | parser/lib.rs:221-234 | a block never fails with an error of its own; on success it holds exactly the statements that parsed |
| ParserShapes.AtomOperand | parser/lib.rs:131-141 | a literal or identifier followed by `;` or a looser token is the whole expression |
| ParserShapes.SimpleInfix | parser/lib.rs:174-198 | `a op b` parses to Infix(op, a, b) |
| ParserShapes.LeftAssociative | parser/lib.rs:393-396 | a chain of operators of equal precedence folds to the left: ((a op b) op c) … |
| ParserShapes.TighterOnRight | parser/lib.rs:397 | in `x o1 y o2 z` with o2 tighter than o1, the right operator groups first |
| ParserShapes.LooserOnRight | parser/lib.rs:393-396 | in `x o1 y o2 z` with o2 not tighter than o1, the left operator groups first |
| ParserShapes.ThreeOperands | parser/lib.rs:391-409 | every three-operand chain parses to the grouping the two precedences dictate |
| ParserShapes.PrefixBindsTighter | parser/lib.rs:391 | `-a op b` and `!a op b` parse as ((-a) op b) and ((!a) op b) for every binary operator |
| ParserShapes.GroupOutcome | parser/lib.rs:156-161 | a group yields its inner expression when `)` follows, and ExpectedToken(RPAREN, actual) otherwise |
| ParserShapes.GroupIsOperand | parser/lib.rs:419 | `(a o1 b) o2 c` groups the parenthesised part as the left operand whatever the precedences |
| ParserShapes.NoPrefixRule | parser/lib.rs:168-170 | a token without a prefix rule fails the expression and the statement with NoPrefixFunction(token) |
| ParserShapes.LetNeedsIdentifier | parser/lib.rs:92-97 | a `let` not followed by an identifier fails with NotAnIdentifier |
| ParserShapes.LetForm | parser/lib.rs:92-108 | `let name = e` parses to Let(name, e), and consumes an optional `;` |
| ParserShapes.ReturnForm | parser/lib.rs:110-120 | `return e` parses to Return(e) and consumes at most one `;`; an error or panic in e is passed on unchanged, at the same position |
| ParserShapes.IfFromParts | parser/lib.rs:200-219 | an if-expression is assembled from its condition, consequence block and optional alternative |
| ParserShapes.ElseBranch | parser/lib.rs:210-216 | `else { … }` yields the parsed block as the alternative |
| ParserShapes.FnFromParts | parser/lib.rs:236-246 | a function literal is assembled from its parameter list and body block |
| ParserShapes.ParameterMustBeIdentifier | parser/lib.rs:256-267 | a parameter that is not an identifier, whether first or after any comma, fails the list with ParameterNotIdentifier(token) |
| ParserShapes.ParametersOutcome | parser/lib.rs:262-273 | from any point, the parameter loop appends the names of all the `, name` pairs that follow, in order; it then fails with ParameterNotIdentifier if a comma is followed by something other than a name, returns the names if `)` follows, and fails with ExpectedToken(RPAREN, actual) otherwise |
| ParserShapes.FnParametersOutcome | parser/lib.rs:248-274 | over any input: `)` at once gives the empty list; a first parameter that is not a name is an error naming it; otherwise every name of a comma-separated run is collected in order and the list ends as the loop's verdict says |
| ParserShapes.LoopCall | parser/lib.rs:191-194 | `(` after an expression turns it into a call on the parsed argument list |
| ParserShapes.ExpressionListItems | parser/lib.rs:281-301 | a comma-separated list of atoms yields all of them in order if the closing token follows, and ExpectedToken(end, actual) otherwise |
| ParserShapes.EmptyList | parser/lib.rs:283-286 | an immediately closed list is empty |
| ParserExamples.LetStatement | parser/lib.rs:328 | `let x = 5;` is accepted as one Let statement |
| ParserExamples.ReturnStatement | parser/lib.rs:339 | `return 5` (no `;`) is accepted as [Return(5)] |
| ParserExamples.ReturnWithSemicolon | parser/lib.rs:341 | `return foobar;` is accepted as [Return(foobar)] |
| ParserExamples.ComparisonsUnderEquality | parser/lib.rs:400 | `5 > 4 == 3 < 4` groups both comparisons under the equality |
| ParserExamples.MixedPrecedence | parser/lib.rs:398 | `a + b * c + d / e - f` groups products first, then sums left to right |
| ParserExamples.TwoStatements | parser/lib.rs:399 | `3 + 4; -5 * 5` is accepted as two expression statements, in order, the second grouping the negation first |
| ParserExamples.IfElse | parser/lib.rs:437 | `if (x < y) { x } else { y }` parses to an If node with both blocks |
| ParserExamples.FunctionLiteral | parser/lib.rs:446 | `fn(x, y, z) { x };` parses to a function literal with its three parameters in order and its body |
| ParserExamples.CallArguments | parser/lib.rs:454 | `add(1, 2 * 3, 4 + 5)` parses to a call with three arguments, grouped by precedence |
| ParserExamples.EmptyArray | parser/lib.rs:468 | `[]` parses to the empty array literal |
| ParserExamples.ProgramRecordsEveryError | parser/lib.rs:67-82 | `let 1 let 2` is rejected with two NotAnIdentifier errors, in order |
| ParserExamples.BlockDropsErrors | parser/lib.rs:221-234 | in `if (x) { let 1; y }` the failing `let 1` and the stray `;` vanish and the block holds only `y` |
| Results.Outcome.Unwrap | compiler/compiler.rs:138 | `.unwrap()` keeps a success and turns any failure into a panic carrying the same error |
| Results.Outcome.Propagate | compiler/compiler.rs:57 | `?` passes a failure on unchanged, error and panic alike |
| Symbols.Empty | compiler/compiler.rs:33-41 | the fresh table is well formed and has no definitions |
| Symbols.Define | compiler/compiler.rs:75-78 | a definition gets the next index and preserves well-formedness |
| Symbols.Resolve | compiler/compiler.rs:94-103 | resolution succeeds exactly for defined names, and then returns that name with an index below the definition count |
| Symbols.DefineResolve | compiler/compiler.rs:73-80 | after define, the name resolves to the new symbol and every other name resolves as before |
| Symbols.DefineTwice | compiler/compiler.rs:73-80 | successive definitions get indexes 0 and 1 and both stay resolvable |
| OpCode.CastToOpcode | compiler/compiler.rs:277 | exactly the bytes that encode an opcode decode, and each decodes to the opcode it encodes |
| OpCode.CastOpByte | compiler/compiler.rs:277 | decoding an opcode's byte gives the opcode back |
| OpCode.Make | compiler/compiler.rs:238 | an instruction is one opcode byte followed by its operand bytes |
| OpCode.U16RoundTrip | compiler/compiler.rs:238 | reading back a big-endian u16 operand gives the value modulo 65536 |
| OpCode.DecodeMake | compiler/compiler.rs:277-278 | an encoded instruction decodes to its opcode and its operand modulo 65536 |
| CompilerSpec.New | compiler/compiler.rs:33-41 | a fresh compiler has no code, no constants and an empty symbol table |
| CompilerSpec.NewWithState | compiler/compiler.rs:43-51 | the given symbol table and constant pool are kept, and the code is empty |
| CompilerSpec.AddConstant | compiler/compiler.rs:226-229 | the constant is appended to the pool, and nothing else changes |
| CompilerSpec.AddInstructions | compiler/compiler.rs:231-235 | the bytes are appended to the buffer, and nothing else changes |
| CompilerSpec.SetLastInstruction | compiler/compiler.rs:265-268 | the old last instruction becomes the previous one, and the given one becomes last |
| CompilerSpec.Emit | compiler/compiler.rs:237-243 | the encoded instruction is appended at the old end, recorded as the last instruction, and the old last becomes previous |
| CompilerSpec.RemoveLastPop | compiler/compiler.rs:259-263 | exactly the final byte is dropped, and the previous instruction becomes the last |
| CompilerSpec.RemoveLastPopDropsPop | compiler/compiler.rs:259-263 | when the last instruction is OpPop, the byte removed is that OpPop, and the buffer ends at the new last instruction |
| CompilerSpec.ReplaceInstruction | compiler/compiler.rs:270-274 | the bytes at pos are overwritten in place, the length is kept, and everything around them is unchanged |
| CompilerSpec.ChangeOperand | compiler/compiler.rs:276-280 | the u16 operand of the jump at pos now reads as the new value, and every other byte is unchanged |
| CompilerSpec.InfixOpcode | compiler/compiler.rs:160-185 | the operator table maps only to opcodes without operands |
| CompilerSpec.EmitConstant | compiler/compiler.rs:106-110 | a literal's constant is appended to the pool and an OpConstant naming its index is emitted |
| CompilerSpec.CompileExpr | compiler/compiler.rs:92-217 | compiling an expression only appends code and constants and extends the symbol table; on success, either nothing was emitted and last/previous are untouched, or the last recorded instruction is the final one and was emitted by this expression |
| CompilerSpec.CompileStmt | compiler/compiler.rs:71-90 | as for expressions; in addition, when something was emitted and the state started with its last instruction final, previous_instruction immediately precedes last_instruction and is either the old last one or emitted here |
| CompilerSpec.CompileBlock | compiler/compiler.rs:245-253 | a block keeps the same append-only invariant as a statement |
| CompilerSpec.CompileProgram | compiler/compiler.rs:53-69 | compiling a program only appends code and constants |
| CompilerSpec.DropTrailingPop | compiler/compiler.rs:191-193 | a final OpPop of the branch is removed, and nothing else changes |
| CompilerSpec.JumpOverAlternative | compiler/compiler.rs:195 | the OpJump that ends the consequence is the last instruction |
| CompilerSpec.PatchConsequence | compiler/compiler.rs:189-198 | the OpJumpNotTruthy placed after the condition now jumps to the end of the consequence and its OpJump |
| CompilerSpec.PatchJump | compiler/compiler.rs:209 | patching the end jump keeps the append-only invariant and the last-instruction invariant |
| Compiler.Compiler.constructor | compiler/compiler.rs:33-41 | the fresh compiler is in the state CompilerSpec.New describes |
| Compiler.Compiler.WithState | compiler/compiler.rs:43-51 | the compiler starts from the given symbol table and pool |
| Compiler.Compiler.AddConstant | compiler/compiler.rs:226-229 | returns the new constant's index, which is the old pool size, and the state is as specified |
| Compiler.Compiler.AddInstructions | compiler/compiler.rs:231-235 | returns the old buffer length as the position, and the state is as specified |
| Compiler.Compiler.SetLastInstruction | compiler/compiler.rs:265-268 | the new state is as specified |
| Compiler.Compiler.Emit | compiler/compiler.rs:237-243 | returns the position of the new instruction, which is the old end of the buffer, and the state is as specified |
| Compiler.Compiler.RemoveLastPop | compiler/compiler.rs:259-263 | the new state is as specified |
| Compiler.Compiler.ReplaceInstruction | compiler/compiler.rs:270-274 | the buffer is overwritten in place as specified |
| Compiler.Compiler.ChangeOperand | compiler/compiler.rs:276-280 | the opcode is decoded from the buffer, re-encoded with the new operand and written back, as specified |
| Compiler.Compiler.Compile | compiler/compiler.rs:53-69 | result and final state are those of the specification for the node |
| Compiler.Compiler.CompileStmt | compiler/compiler.rs:71-90 | result and final state agree with the specification |
| Compiler.Compiler.CompileBlock | compiler/compiler.rs:245-253 | result and final state agree with the specification |
| Compiler.Compiler.CompileExpr | compiler/compiler.rs:92-217 | result and final state agree with the specification |
| Compiler.Compiler.CompileLiteral | compiler/compiler.rs:105-136 | result and final state agree with the specification |
| Compiler.Compiler.EmitConstant | compiler/compiler.rs:106-110 | the final state agrees with the specification |
| Compiler.Compiler.CompileElements | compiler/compiler.rs:123-128 | the element loop agrees with the specification |
| Compiler.Compiler.CompilePairs | compiler/compiler.rs:129-135 | the key/value loop agrees with the specification |
| Compiler.Compiler.CompilePrefix | compiler/compiler.rs:137-150 | result and final state agree with the specification |
| Compiler.Compiler.CompileInfix | compiler/compiler.rs:151-186 | result and final state agree with the specification |
| Compiler.Compiler.CompileIf | compiler/compiler.rs:187-210 | result and final state agree with the specification |
| Compiler.Compiler.CompileConsequence | compiler/compiler.rs:189-198 | result and final state agree with the specification |
| Compiler.Compiler.PatchConsequence | compiler/compiler.rs:196-198 | the final state agrees with the specification |
| Compiler.Compiler.JumpOverAlternative | compiler/compiler.rs:195 | the final state agrees with the specification |
| Compiler.Compiler.DropBranchPop | compiler/compiler.rs:204-206 | the final state agrees with the specification |
| Compiler.Compiler.CompileAlternative | compiler/compiler.rs:200-209 | result and final state agree with the specification |
| Compiler.Compiler.PatchJump | compiler/compiler.rs:209 | the final state agrees with the specification |
| Compiler.CompileFresh | compiler/compiler.rs:53-69 | a fresh compiler returns the bytecode of the whole program, or the first failure unchanged |
| CompilerProps.EmitDecodes | compiler/compiler.rs:237-243 | emit appends exactly one instruction, keeps the old code, and the new bytes decode back to the opcode and its operand |
| CompilerProps.ChangeOperandInPlace | compiler/compiler.rs:276-280 | change_operand rewrites only the two operand bytes at pos, keeping the opcode and every other byte |
| CompilerProps.RemovePopUndoesEmit | compiler/compiler.rs:259-263 | removing the last pop right after emitting it restores the code and the last instruction |
| CompilerProps.RemoveLastPopDropsOneByte | compiler/compiler.rs:259-263 | exactly the final byte goes, and every other byte stays |
| CompilerProps.IntegerLiteral | compiler/compiler.rs:106-110 | an integer becomes a new constant plus OpConstant with its index |
| CompilerProps.StringLiteral | compiler/compiler.rs:118-122 | a string becomes a new constant plus OpConstant with its index |
| CompilerProps.BooleanLiteral | compiler/compiler.rs:111-117 | true/false emit OpTrue/OpFalse and add no constant |
| CompilerProps.IdentifierResolves | compiler/compiler.rs:94-103 | an identifier compiles if and only if it is defined: to OpGetGlobal with its index, or else to UndefinedVariable(name) with no change |
| CompilerProps.PrefixUnwraps | compiler/compiler.rs:137-139 | a failing operand of a prefix expression panics |
| CompilerProps.UnknownPrefixOperator | compiler/compiler.rs:137-148 | a prefix operator other than `-` and `!` fails with UnexpectedPrefixOp after its operand is compiled, emitting nothing for the operator |
| CompilerProps.InfixUnwraps | compiler/compiler.rs:151-159 | a failing first-compiled operand of an infix expression panics; for `<` that operand is the right one |
| CompilerProps.UnknownInfixOperator | compiler/compiler.rs:182-184 | an operator outside the table fails with UnexpectedInfixOp after both operands are compiled |
| CompilerProps.LetStatement | compiler/compiler.rs:73-80 | `let` defines the name at the next global index, emits OpSetGlobal with that index, and makes the name resolve to it |
| CompilerProps.ExpressionStatement | compiler/compiler.rs:84-88 | an expression statement is its code followed by OpPop |
| CompilerProps.ReturnStatement | compiler/compiler.rs:81-83 | a return statement compiles to nothing |
| CompilerProps.StatementFailure | compiler/compiler.rs:73-88 | a statement whose expression fails fails in the same way, with the same state |
| CompilerProps.ProgramFailFast | compiler/compiler.rs:55-58 | compiling a program stops at the first failing statement and returns its failure |
| CompilerProps.ProgramRuns | compiler/compiler.rs:55-58 | when every statement succeeds, the program succeeds with the state after running them all in order |
| CompilerProps.CompileIsPostfix | compiler/compiler.rs:92-186 | on expressions without if and with defined names and supported operators, the compiler emits exactly the postfix code (operands first, in order, then the operator; `a < b` as `b a >`) and appends exactly its constants |
| CompilerProps.IfJumpTargets | compiler/compiler.rs:187-210 | in a compiled if-expression, the OpJumpNotTruthy after the condition lands just past the consequence's OpJump, that OpJump lands at the end of the code, and without an alternative the code ends in OpNull |

## Left out

- The lexer is not part of this model. The parser reads a finite sequence of token kinds, and `EOF` is returned past its end.
- Display and `to_string` formatting of tokens, nodes and errors is left out. The tests that compare printed trees are modelled as tree equalities (`ParserExamples`).
- Error messages are left out as strings. Each error is a datatype case that carries the tokens or names the message would print.
- Reference counting and sharing of nodes (`Rc`, `clone`) are left out, because trees are values here.
- The evaluator, the REPL and all input/output are left out.
- Function literals, calls and index expressions compile to no code, as in compiler/compiler.rs:211-213.
- Compiling a `return` statement emits nothing, as in compiler/compiler.rs:81-83.
- Hash literals are compiled, but the parser has no rule that produces them.
- `[` has INDEX precedence, but `parse_infix_expression` has no rule for it: the infix loop stops there, as the source does.
- The symbol table, opcode and precedence modules are modelled only by the behaviour the two core files use.
- Operands above 65535 are truncated to their low 16 bits, explicitly, as a u16 cast in `make_instructions` would.
- The model does not capture concrete error texts or the panic message of `.unwrap()`. Only the fact of the panic and the error it carries are modelled.
- ParserShapes.LetNeedsIdentifier: states only the error direction: a `let` followed by a non-identifier fails. The success case is covered by ParserShapes.LetForm.
- ParserShapes.ExpressionListItems, ParserShapes.LeftAssociative, ParserShapes.ThreeOperands, ParserShapes.SimpleInfix, ParserShapes.TighterOnRight, ParserShapes.LooserOnRight, ParserShapes.PrefixBindsTighter, ParserShapes.GroupIsOperand: proved for operands that are single tokens (identifiers and literals), each followed by a token that ends an operand, not for arbitrary nested operands.
- CompilerProps.CompileIsPostfix: covers expressions without `if`. The jump layout of `if` is stated separately by CompilerProps.IfJumpTargets.
