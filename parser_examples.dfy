/** Cases from the parser's own tests (parser/lib.rs). Each case names its
    tokens with a predicate `...Tokens(t, pos)` (the case's tokens occur in t
    from position pos on), states what parse_expression makes of them
    wherever they occur, followed by a token that ends the expression, and
    states what parse_program returns when they are the whole input. */
module ParserExamples {
  import opened Results
  import opened Tokens
  import opened Precedences
  import opened Ast
  import opened ParserSpec
  import opened ParserShapes

  function Id(name: string): Expression { Identifier(name) }
  function Int(i: int): Expression { Lit(Integer(i)) }

  /** An expression statement: the expression, then one optional `;`. */
  lemma ExprStatement(t: seq<TokenKind>, q: nat, e: Expression, r: nat)
    requires q <= |t| && At(t, q) != LET && At(t, q) != RETURN
    requires ParseExpression(t, q, LOWEST) == Parsed(Ok(e), r)
    ensures r <= |t|
    ensures ParseStatement(t, q) == Parsed(Ok(ExprStmt(e)), SkipSemicolon(t, r))
  {
    assert ParseStatement(t, q) == ParseExpressionStatement(t, q);
  }

  /** One turn of parse_program over a statement that parsed. */
  lemma ProgramStep(t: seq<TokenKind>, pos: nat, stmts: seq<Statement>, st: Statement, q: nat)
    requires pos <= q <= |t| && At(t, pos) != EOF && ParseStatement(t, pos) == Parsed(Ok(st), q)
    ensures ProgramLoop(t, pos, stmts, []) == ProgramLoop(t, Advance(t, q), stmts + [st], [])
  {
  }

  /** One turn of parse_program over a statement that failed. */
  lemma ProgramErrStep(t: seq<TokenKind>, pos: nat, errors: seq<ParseError>, e: ParseError, q: nat)
    requires pos <= q <= |t| && At(t, pos) != EOF && ParseStatement(t, pos) == Parsed(Err(e), q)
    ensures ProgramLoop(t, pos, [], errors) == ProgramLoop(t, Advance(t, q), [], errors + [e])
  {
  }

  // ---- `let x = 5;` ----

  predicate LetTokens(t: seq<TokenKind>, pos: nat)
  {
    pos + 5 <= |t| && At(t, pos) == LET && At(t, pos + 1) == IDENTIFIER("x") && At(t, pos + 2) == ASSIGN
    && At(t, pos + 3) == INT(5) && At(t, pos + 4) == SEMICOLON
  }

  lemma LetStatement(t: seq<TokenKind>)
    requires |t| == 5 && LetTokens(t, 0)
    ensures ParseProgram(t) == Accepted(Program([Let("x", Int(5))]))
  {
    AtomOperand(t, 3, LOWEST);
    LetForm(t, 0, "x", Int(5), 3);
    ProgramStep(t, 0, [], Let("x", Int(5)), 4);
    AppendToEmpty(Let("x", Int(5)));
  }

  // ---- `return 5` and `return foobar;` ----

  lemma ReturnStatement(t: seq<TokenKind>)
    requires |t| == 2 && At(t, 0) == RETURN && At(t, 1) == INT(5)
    ensures ParseProgram(t) == Accepted(Program([Return(Int(5))]))
  {
    AtomOperand(t, 1, LOWEST);
    ReturnForm(t, 0);
    ProgramStep(t, 0, [], Return(Int(5)), 1);
    AppendToEmpty(Return(Int(5)));
  }

  lemma ReturnWithSemicolon(t: seq<TokenKind>)
    requires |t| == 3 && At(t, 0) == RETURN && At(t, 1) == IDENTIFIER("foobar") && At(t, 2) == SEMICOLON
    ensures ParseProgram(t) == Accepted(Program([Return(Id("foobar"))]))
  {
    AtomOperand(t, 1, LOWEST);
    ReturnForm(t, 0);
    ProgramStep(t, 0, [], Return(Id("foobar")), 2);
    AppendToEmpty(Return(Id("foobar")));
  }

  // ---- `5 > 4 == 3 < 4`: both comparisons end up under `==` ----

  predicate ComparisonsTokens(t: seq<TokenKind>, pos: nat)
  {
    pos + 7 <= |t| && At(t, pos) == INT(5) && At(t, pos + 1) == GT && At(t, pos + 2) == INT(4)
    && At(t, pos + 3) == EQ && At(t, pos + 4) == INT(3) && At(t, pos + 5) == LT && At(t, pos + 6) == INT(4)
  }

  lemma ComparisonsExpression(t: seq<TokenKind>, pos: nat)
    requires ComparisonsTokens(t, pos) && Ends(t, pos + 7)
    ensures ParseExpression(t, pos, LOWEST) ==
      Parsed(Ok(Infix(EQ, Infix(GT, Int(5), Int(4)), Infix(LT, Int(3), Int(4)))), pos + 6)
  {
    var gt, lt := Infix(GT, Int(5), Int(4)), Infix(LT, Int(3), Int(4));
    SimpleInfix(t, pos + 4, EQUALS);
    AtomThenLoop(t, pos, LOWEST);
    LoopTakesAtom(t, pos, LOWEST, Int(5));
    LoopInfix(t, pos + 2, LOWEST, gt, lt, pos + 6);
    LoopStops(t, pos + 6, LOWEST, Infix(EQ, gt, lt));
  }

  lemma ComparisonsUnderEquality(t: seq<TokenKind>)
    requires |t| == 7 && ComparisonsTokens(t, 0)
    ensures ParseProgram(t) ==
      Accepted(Program([ExprStmt(Infix(EQ, Infix(GT, Int(5), Int(4)), Infix(LT, Int(3), Int(4))))]))
  {
    ComparisonsExpression(t, 0);
    ExpressionProgram(t, Infix(EQ, Infix(GT, Int(5), Int(4)), Infix(LT, Int(3), Int(4))), 6);
  }

  // ---- `a + b * c + d / e - f` ----

  predicate MixedTokens(t: seq<TokenKind>, pos: nat)
  {
    pos + 11 <= |t| && At(t, pos) == IDENTIFIER("a") && At(t, pos + 1) == PLUS
    && At(t, pos + 2) == IDENTIFIER("b") && At(t, pos + 3) == ASTERISK && At(t, pos + 4) == IDENTIFIER("c")
    && At(t, pos + 5) == PLUS && At(t, pos + 6) == IDENTIFIER("d") && At(t, pos + 7) == SLASH
    && At(t, pos + 8) == IDENTIFIER("e") && At(t, pos + 9) == MINUS && At(t, pos + 10) == IDENTIFIER("f")
  }

  /** The two products are taken whole as right operands of `+`. */
  lemma MixedPrecedenceProducts(t: seq<TokenKind>, pos: nat)
    requires MixedTokens(t, pos)
    ensures ExpressionLoop(t, pos, LOWEST, Id("a")) ==
      ExpressionLoop(t, pos + 8, LOWEST, Infix(PLUS, Infix(PLUS, Id("a"), Infix(ASTERISK, Id("b"), Id("c"))),
                                                  Infix(SLASH, Id("d"), Id("e"))))
  {
    var bc, de := Infix(ASTERISK, Id("b"), Id("c")), Infix(SLASH, Id("d"), Id("e"));
    SimpleInfix(t, pos + 2, SUM);
    SimpleInfix(t, pos + 6, SUM);
    LoopInfix(t, pos, LOWEST, Id("a"), bc, pos + 4);
    LoopInfix(t, pos + 4, LOWEST, Infix(PLUS, Id("a"), bc), de, pos + 8);
  }

  lemma MixedPrecedenceExpression(t: seq<TokenKind>, pos: nat)
    requires MixedTokens(t, pos) && Ends(t, pos + 11)
    ensures ParseExpression(t, pos, LOWEST) ==
      Parsed(Ok(Infix(MINUS, Infix(PLUS, Infix(PLUS, Id("a"), Infix(ASTERISK, Id("b"), Id("c"))),
                                         Infix(SLASH, Id("d"), Id("e"))), Id("f"))), pos + 10)
  {
    var abcde := Infix(PLUS, Infix(PLUS, Id("a"), Infix(ASTERISK, Id("b"), Id("c"))), Infix(SLASH, Id("d"), Id("e")));
    AtomThenLoop(t, pos, LOWEST);
    MixedPrecedenceProducts(t, pos);
    LoopTakesAtom(t, pos + 8, LOWEST, abcde);
    LoopStops(t, pos + 10, LOWEST, Infix(MINUS, abcde, Id("f")));
  }

  lemma MixedPrecedence(t: seq<TokenKind>)
    requires |t| == 11 && MixedTokens(t, 0)
    ensures ParseProgram(t) ==
      Accepted(Program([ExprStmt(
        Infix(MINUS, Infix(PLUS, Infix(PLUS, Id("a"), Infix(ASTERISK, Id("b"), Id("c"))),
                                 Infix(SLASH, Id("d"), Id("e"))), Id("f")))]))
  {
    MixedPrecedenceExpression(t, 0);
    ExpressionProgram(t, Infix(MINUS, Infix(PLUS, Infix(PLUS, Id("a"), Infix(ASTERISK, Id("b"), Id("c"))),
                                               Infix(SLASH, Id("d"), Id("e"))), Id("f")), 10);
  }

  // ---- `3 + 4; -5 * 5`: the `;` ends the first statement ----

  predicate TwoStatementsTokens(t: seq<TokenKind>, pos: nat)
  {
    pos + 8 <= |t| && At(t, pos) == INT(3) && At(t, pos + 1) == PLUS && At(t, pos + 2) == INT(4)
    && At(t, pos + 3) == SEMICOLON && At(t, pos + 4) == MINUS && At(t, pos + 5) == INT(5)
    && At(t, pos + 6) == ASTERISK && At(t, pos + 7) == INT(5)
  }

  lemma SumStatement(t: seq<TokenKind>, pos: nat)
    requires TwoStatementsTokens(t, pos)
    ensures ParseStatement(t, pos) == Parsed(Ok(ExprStmt(Infix(PLUS, Int(3), Int(4)))), pos + 3)
  {
    SimpleInfix(t, pos, LOWEST);
    ExprStatement(t, pos, Infix(PLUS, Int(3), Int(4)), pos + 2);
  }

  lemma TwoStatementsSecond(t: seq<TokenKind>, stmts: seq<Statement>)
    requires |t| == 8 && TwoStatementsTokens(t, 0)
    ensures ProgramLoop(t, 4, stmts, []) ==
      Accepted(Program(stmts + [ExprStmt(Infix(ASTERISK, Prefix(MINUS, Int(5)), Int(5)))]))
  {
    PrefixBindsTighter(t, 4);
    LastStatement(t, 4, stmts, Infix(ASTERISK, Prefix(MINUS, Int(5)), Int(5)), 7);
  }

  lemma TwoStatements(t: seq<TokenKind>)
    requires |t| == 8 && TwoStatementsTokens(t, 0)
    ensures ParseProgram(t) ==
      Accepted(Program([ExprStmt(Infix(PLUS, Int(3), Int(4))),
                        ExprStmt(Infix(ASTERISK, Prefix(MINUS, Int(5)), Int(5)))]))
  {
    var first := ExprStmt(Infix(PLUS, Int(3), Int(4)));
    var none: seq<Statement> := [];
    SumStatement(t, 0);
    ProgramStep(t, 0, none, first, 3);
    AppendToEmpty(first);
    TwoStatementsSecond(t, [first]);
  }

  // ---- `if (x < y) { x } else { y }` ----

  predicate IfElseTokens(t: seq<TokenKind>, pos: nat)
  {
    pos + 13 <= |t| && At(t, pos) == IF && At(t, pos + 1) == LPAREN
    && At(t, pos + 2) == IDENTIFIER("x") && At(t, pos + 3) == LT && At(t, pos + 4) == IDENTIFIER("y")
    && At(t, pos + 5) == RPAREN && At(t, pos + 6) == LBRACE && At(t, pos + 7) == IDENTIFIER("x")
    && At(t, pos + 8) == RBRACE && At(t, pos + 9) == ELSE && At(t, pos + 10) == LBRACE
    && At(t, pos + 11) == IDENTIFIER("y") && At(t, pos + 12) == RBRACE
  }

  lemma IfElseBranches(t: seq<TokenKind>, pos: nat)
    requires IfElseTokens(t, pos)
    ensures ParseBlock(t, pos + 6) == Parsed(Ok(Block([ExprStmt(Id("x"))])), pos + 8)
    ensures ParseAlternative(t, pos + 8) == Parsed(Ok(Some(Block([ExprStmt(Id("y"))]))), pos + 12)
  {
    AtomBlock(t, pos + 6);
    AtomBlock(t, pos + 10);
    ElseBranch(t, pos + 8, Block([ExprStmt(Id("y"))]), pos + 12);
  }

  lemma IfElseParts(t: seq<TokenKind>, pos: nat)
    requires IfElseTokens(t, pos)
    ensures ParseIf(t, pos) ==
      Parsed(Ok(If(Infix(LT, Id("x"), Id("y")), Block([ExprStmt(Id("x"))]), Some(Block([ExprStmt(Id("y"))])))), pos + 12)
  {
    var cond, cons, alt := Infix(LT, Id("x"), Id("y")), Block([ExprStmt(Id("x"))]), Block([ExprStmt(Id("y"))]);
    SimpleInfix(t, pos + 2, LOWEST);
    IfElseBranches(t, pos);
    IfFromParts(t, pos, cond, pos + 4, cons, pos + 8, Some(alt), pos + 12);
  }

  lemma IfElseExpression(t: seq<TokenKind>, pos: nat)
    requires IfElseTokens(t, pos) && Ends(t, pos + 13)
    ensures ParseExpression(t, pos, LOWEST) ==
      Parsed(Ok(If(Infix(LT, Id("x"), Id("y")), Block([ExprStmt(Id("x"))]), Some(Block([ExprStmt(Id("y"))])))), pos + 12)
  {
    IfElseParts(t, pos);
    PrefixOperand(t, pos, LOWEST,
      If(Infix(LT, Id("x"), Id("y")), Block([ExprStmt(Id("x"))]), Some(Block([ExprStmt(Id("y"))]))), pos + 12);
  }

  lemma IfElse(t: seq<TokenKind>)
    requires |t| == 13 && IfElseTokens(t, 0)
    ensures ParseProgram(t) ==
      Accepted(Program([ExprStmt(If(Infix(LT, Id("x"), Id("y")), Block([ExprStmt(Id("x"))]),
                                    Some(Block([ExprStmt(Id("y"))]))))]))
  {
    IfElseExpression(t, 0);
    ExpressionProgram(t, If(Infix(LT, Id("x"), Id("y")), Block([ExprStmt(Id("x"))]), Some(Block([ExprStmt(Id("y"))]))), 12);
  }

  // ---- `fn(x, y, z) { x };` ----

  predicate FunctionTokens(t: seq<TokenKind>, pos: nat)
  {
    pos + 12 <= |t| && At(t, pos) == FUNCTION && At(t, pos + 1) == LPAREN
    && At(t, pos + 2) == IDENTIFIER("x") && At(t, pos + 3) == COMMA && At(t, pos + 4) == IDENTIFIER("y")
    && At(t, pos + 5) == COMMA && At(t, pos + 6) == IDENTIFIER("z") && At(t, pos + 7) == RPAREN
    && At(t, pos + 8) == LBRACE && At(t, pos + 9) == IDENTIFIER("x") && At(t, pos + 10) == RBRACE
    && At(t, pos + 11) == SEMICOLON
  }

  lemma FunctionParametersTail(t: seq<TokenKind>, pos: nat)
    requires FunctionTokens(t, pos)
    ensures ParametersLoop(t, pos + 4, ["x", "y"]) == Parsed(Ok(["x", "y", "z"]), pos + 7)
  {
    ParameterStep(t, pos + 4, ["x", "y"], "z");
    AppendToTwo("x", "y", "z");
    ParametersEnd(t, pos + 6, ["x", "y", "z"]);
  }

  lemma FunctionParameters(t: seq<TokenKind>, pos: nat)
    requires FunctionTokens(t, pos)
    ensures ParseFnParameters(t, pos + 1) == Parsed(Ok(["x", "y", "z"]), pos + 7)
  {
    ParametersFirst(t, pos + 1, "x");
    ParameterStep(t, pos + 2, ["x"], "y");
    AppendToOne("x", "y");
    FunctionParametersTail(t, pos);
  }

  lemma FunctionLiteralExpression(t: seq<TokenKind>, pos: nat)
    requires FunctionTokens(t, pos)
    ensures ParseExpression(t, pos, LOWEST) == Parsed(Ok(Function(["x", "y", "z"], Block([ExprStmt(Id("x"))]))), pos + 10)
  {
    var body := Block([ExprStmt(Id("x"))]);
    FunctionParameters(t, pos);
    AtomBlock(t, pos + 8);
    FnFromParts(t, pos, ["x", "y", "z"], pos + 7, body, pos + 10);
    PrefixOperand(t, pos, LOWEST, Function(["x", "y", "z"], body), pos + 10);
  }

  lemma FunctionLiteral(t: seq<TokenKind>)
    requires |t| == 12 && FunctionTokens(t, 0)
    ensures ParseProgram(t) ==
      Accepted(Program([ExprStmt(Function(["x", "y", "z"], Block([ExprStmt(Id("x"))])))]))
  {
    FunctionLiteralExpression(t, 0);
    ExpressionProgram(t, Function(["x", "y", "z"], Block([ExprStmt(Id("x"))])), 10);
  }

  // ---- `add(1, 2 * 3, 4 + 5);` ----

  predicate CallTokens(t: seq<TokenKind>, pos: nat)
  {
    pos + 13 <= |t| && At(t, pos) == IDENTIFIER("add") && At(t, pos + 1) == LPAREN
    && At(t, pos + 2) == INT(1) && At(t, pos + 3) == COMMA && At(t, pos + 4) == INT(2)
    && At(t, pos + 5) == ASTERISK && At(t, pos + 6) == INT(3) && At(t, pos + 7) == COMMA
    && At(t, pos + 8) == INT(4) && At(t, pos + 9) == PLUS && At(t, pos + 10) == INT(5)
    && At(t, pos + 11) == RPAREN && At(t, pos + 12) == SEMICOLON
  }

  lemma CallArgumentsOperands(t: seq<TokenKind>, pos: nat)
    requires CallTokens(t, pos)
    ensures ParseExpression(t, pos + 2, LOWEST) == Parsed(Ok(Int(1)), pos + 2)
    ensures ParseExpression(t, pos + 4, LOWEST) == Parsed(Ok(Infix(ASTERISK, Int(2), Int(3))), pos + 6)
    ensures ParseExpression(t, pos + 8, LOWEST) == Parsed(Ok(Infix(PLUS, Int(4), Int(5))), pos + 10)
  {
    AtomOperand(t, pos + 2, LOWEST);
    SimpleInfix(t, pos + 4, LOWEST);
    SimpleInfix(t, pos + 8, LOWEST);
  }

  lemma CallArgumentsList(t: seq<TokenKind>, pos: nat)
    requires CallTokens(t, pos)
    ensures ParseExpressionList(t, pos + 1, RPAREN) ==
      Parsed(Ok([Int(1), Infix(ASTERISK, Int(2), Int(3)), Infix(PLUS, Int(4), Int(5))]), pos + 11)
  {
    var m, s := Infix(ASTERISK, Int(2), Int(3)), Infix(PLUS, Int(4), Int(5));
    CallArgumentsOperands(t, pos);
    ListFirst(t, pos + 1, RPAREN, Int(1), pos + 2);
    ListStep(t, pos + 2, RPAREN, [Int(1)], m, pos + 6);
    ListStep(t, pos + 6, RPAREN, [Int(1), m], s, pos + 10);
    ListEnds(t, pos + 10, RPAREN, [Int(1), m, s]);
    AppendToOne(Int(1), m);
    AppendToTwo(Int(1), m, s);
  }

  lemma CallArgumentsLoop(t: seq<TokenKind>, pos: nat)
    requires CallTokens(t, pos)
    ensures ExpressionLoop(t, pos, LOWEST, Id("add")) ==
      Parsed(Ok(Call(Id("add"), [Int(1), Infix(ASTERISK, Int(2), Int(3)), Infix(PLUS, Int(4), Int(5))])), pos + 11)
  {
    var args := [Int(1), Infix(ASTERISK, Int(2), Int(3)), Infix(PLUS, Int(4), Int(5))];
    CallArgumentsList(t, pos);
    LoopCall(t, pos, LOWEST, Id("add"), args, pos + 11);
    LoopStops(t, pos + 11, LOWEST, Call(Id("add"), args));
  }

  lemma CallArgumentsExpression(t: seq<TokenKind>, pos: nat)
    requires CallTokens(t, pos)
    ensures ParseExpression(t, pos, LOWEST) ==
      Parsed(Ok(Call(Id("add"), [Int(1), Infix(ASTERISK, Int(2), Int(3)), Infix(PLUS, Int(4), Int(5))])), pos + 11)
  {
    AtomThenLoop(t, pos, LOWEST);
    CallArgumentsLoop(t, pos);
  }

  lemma CallArguments(t: seq<TokenKind>)
    requires |t| == 13 && CallTokens(t, 0)
    ensures ParseProgram(t) ==
      Accepted(Program([ExprStmt(Call(Id("add"), [Int(1), Infix(ASTERISK, Int(2), Int(3)), Infix(PLUS, Int(4), Int(5))]))]))
  {
    CallArgumentsExpression(t, 0);
    ExpressionProgram(t, Call(Id("add"), [Int(1), Infix(ASTERISK, Int(2), Int(3)), Infix(PLUS, Int(4), Int(5))]), 11);
  }

  // ---- `[]` ----

  lemma EmptyArray(t: seq<TokenKind>)
    requires |t| == 2 && At(t, 0) == LBRACKET && At(t, 1) == RBRACKET
    ensures ParseProgram(t) == Accepted(Program([ExprStmt(Lit(Array([])))]))
  {
    EmptyList(t, 0, RBRACKET);
    assert ParsePrefix(t, 0) == Parsed(Ok(Lit(Array([]))), 1);
    PrefixOperand(t, 0, LOWEST, Lit(Array([])), 1);
    ExpressionProgram(t, Lit(Array([])), 1);
  }

  // ---- `let 1 let 2`: both failures are recorded, in order ----

  lemma ProgramRecordsEveryError(t: seq<TokenKind>)
    requires |t| == 4 && At(t, 0) == LET && At(t, 1) == INT(1) && At(t, 2) == LET && At(t, 3) == INT(2)
    ensures ParseProgram(t) == Rejected([NotAnIdentifier, NotAnIdentifier])
  {
    LetNeedsIdentifier(t, 0);
    LetNeedsIdentifier(t, 2);
    ProgramErrStep(t, 0, [], NotAnIdentifier, 1);
    ProgramErrStep(t, 2, [NotAnIdentifier], NotAnIdentifier, 3);
  }

  // ---- `if (x) { let 1; y }`: inside a block the failing statements
  //      vanish (`let 1` and the stray `;` after it) ----

  predicate BlockErrorsTokens(t: seq<TokenKind>, pos: nat)
  {
    pos + 10 <= |t| && At(t, pos) == IF && At(t, pos + 1) == LPAREN && At(t, pos + 2) == IDENTIFIER("x")
    && At(t, pos + 3) == RPAREN && At(t, pos + 4) == LBRACE && At(t, pos + 5) == LET
    && At(t, pos + 6) == INT(1) && At(t, pos + 7) == SEMICOLON && At(t, pos + 8) == IDENTIFIER("y")
    && At(t, pos + 9) == RBRACE
  }

  lemma BlockSkipsLet(t: seq<TokenKind>, pos: nat)
    requires BlockErrorsTokens(t, pos)
    ensures BlockLoop(t, pos + 5, []) == BlockLoop(t, pos + 7, [])
  {
    LetNeedsIdentifier(t, pos + 5);
    BlockSkips(t, pos + 5, [], NotAnIdentifier, pos + 6);
  }

  lemma BlockSkipsSemicolon(t: seq<TokenKind>, pos: nat)
    requires BlockErrorsTokens(t, pos)
    ensures BlockLoop(t, pos + 7, []) == BlockLoop(t, pos + 8, [])
  {
    NoPrefixRule(t, pos + 7, LOWEST);
    BlockSkips(t, pos + 7, [], NoPrefixFunction(SEMICOLON), pos + 7);
  }

  lemma BlockDropsErrorsBody(t: seq<TokenKind>, pos: nat)
    requires BlockErrorsTokens(t, pos)
    ensures ParseBlock(t, pos + 4) == Parsed(Ok(Block([ExprStmt(Id("y"))])), pos + 9)
  {
    var y := ExprStmt(Id("y"));
    BlockSkipsLet(t, pos);
    BlockSkipsSemicolon(t, pos);
    AtomStatement(t, pos + 8);
    BlockTakes(t, pos + 8, [], y, pos + 8);
    AppendToEmpty(y);
  }

  lemma BlockDropsErrorsParts(t: seq<TokenKind>, pos: nat)
    requires BlockErrorsTokens(t, pos) && At(t, pos + 10) != ELSE
    ensures ParseIf(t, pos) == Parsed(Ok(If(Id("x"), Block([ExprStmt(Id("y"))]), None)), pos + 9)
  {
    BlockDropsErrorsBody(t, pos);
    AtomOperand(t, pos + 2, LOWEST);
    IfFromParts(t, pos, Id("x"), pos + 2, Block([ExprStmt(Id("y"))]), pos + 9, None, pos + 9);
  }

  lemma BlockDropsErrorsExpression(t: seq<TokenKind>, pos: nat)
    requires BlockErrorsTokens(t, pos) && At(t, pos + 10) != ELSE && Ends(t, pos + 10)
    ensures ParseExpression(t, pos, LOWEST) == Parsed(Ok(If(Id("x"), Block([ExprStmt(Id("y"))]), None)), pos + 9)
  {
    BlockDropsErrorsParts(t, pos);
    PrefixOperand(t, pos, LOWEST, If(Id("x"), Block([ExprStmt(Id("y"))]), None), pos + 9);
  }

  lemma BlockDropsErrors(t: seq<TokenKind>)
    requires |t| == 10 && BlockErrorsTokens(t, 0)
    ensures ParseProgram(t) == Accepted(Program([ExprStmt(If(Id("x"), Block([ExprStmt(Id("y"))]), None))]))
  {
    BlockDropsErrorsExpression(t, 0);
    ExpressionProgram(t, If(Id("x"), Block([ExprStmt(Id("y"))]), None), 9);
  }
}
