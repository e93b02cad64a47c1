/** Tree shapes precedence climbing produces: left association of equal
    precedences, nesting of tighter operators, prefix operators, groups and
    comma-separated lists, and the errors of malformed input. */
module ParserShapes {
  import opened Results
  import opened Tokens
  import opened Precedences
  import opened Ast
  import opened ParserSpec

  /** The node parse_prefix_expression builds for an identifier or literal. */
  function AtomExpr(k: TokenKind): (e: Expression)
    requires IsAtom(k)
    ensures e.Identifier? || e.Lit?
  {
    match k
    case IDENTIFIER(id) => Identifier(id)
    case INT(i) => Lit(Integer(i))
    case STRING(s) => Lit(Str(s))
    case TRUE => Lit(Boolean(true))
    case FALSE => Lit(Boolean(false))
  }

  /** The token at i ends an operand whatever the binding power: a `;` or a
      token with no infix rule. */
  predicate Ends(t: seq<TokenKind>, i: nat)
  {
    At(t, i) == SEMICOLON || PrecedenceOf(At(t, i)) == LOWEST
  }

  /** Appending to short sequence displays, kept apart from the parser
      terms so that the solver meets these equalities ready-made. */
  lemma AppendToEmpty<T>(x: T)
    ensures [] + [x] == [x]
  {
  }

  lemma AppendToOne<T>(x: T, y: T)
    ensures [x] + [y] == [x, y]
  {
  }

  lemma AppendToTwo<T>(x: T, y: T, z: T)
    ensures [x, y] + [z] == [x, y, z]
  {
  }

  /** An atom whose lookahead does not bind tighter than prec is a whole
      operand. */
  lemma AtomOperand(t: seq<TokenKind>, pos: nat, prec: Precedence)
    requires pos <= |t| && IsAtom(At(t, pos))
    requires At(t, pos + 1) == SEMICOLON || !Below(prec, PrecedenceOf(At(t, pos + 1)))
    ensures ParseExpression(t, pos, prec) == Parsed(Ok(AtomExpr(At(t, pos))), pos)
  {
  }

  /** The loop of parse_expression stops at a `;` or at a lookahead that
      does not bind tighter than prec. */
  lemma LoopStops(t: seq<TokenKind>, q: nat, prec: Precedence, left: Expression)
    requires q <= |t|
    requires At(t, q + 1) == SEMICOLON || !Below(prec, PrecedenceOf(At(t, q + 1)))
    ensures ExpressionLoop(t, q, prec, left) == Parsed(Ok(left), q)
  {
  }

  /** One turn of the loop of parse_expression over `op atom`, where the
      token after the atom does not bind tighter than op. */
  lemma LoopTakesAtom(t: seq<TokenKind>, q: nat, prec: Precedence, left: Expression)
    requires q <= |t| && IsBinaryOperator(At(t, q + 1)) && IsAtom(At(t, q + 2))
    requires Below(prec, PrecedenceOf(At(t, q + 1)))
    requires At(t, q + 3) == SEMICOLON || !Below(PrecedenceOf(At(t, q + 1)), PrecedenceOf(At(t, q + 3)))
    ensures q + 2 < |t|
    ensures ExpressionLoop(t, q, prec, left) ==
      ExpressionLoop(t, q + 2, prec, Infix(At(t, q + 1), left, AtomExpr(At(t, q + 2))))
  {
    var op := At(t, q + 1);
    AtomOperand(t, q + 2, PrecedenceOf(op));
    assert ParseInfix(t, q, left) == Parsed(Some(Ok(Infix(op, left, AtomExpr(At(t, q + 2))))), q + 2);
  }

  /** An expression starting with an atom continues with the loop. */
  lemma AtomThenLoop(t: seq<TokenKind>, q: nat, prec: Precedence)
    requires q <= |t| && IsAtom(At(t, q))
    ensures ParseExpression(t, q, prec) == ExpressionLoop(t, q, prec, AtomExpr(At(t, q)))
  {
  }

  /** One turn of the loop of parse_expression over a binary operator whose
      right operand parses to `right`, ending at r. */
  lemma LoopInfix(t: seq<TokenKind>, q: nat, prec: Precedence, left: Expression, right: Expression, r: nat)
    requires q < |t| && IsBinaryOperator(At(t, q + 1)) && Below(prec, PrecedenceOf(At(t, q + 1)))
    requires ParseExpression(t, q + 2, PrecedenceOf(At(t, q + 1))) == Parsed(Ok(right), r)
    ensures r <= |t|
    ensures ExpressionLoop(t, q, prec, left) == ExpressionLoop(t, r, prec, Infix(At(t, q + 1), left, right))
  {
    assert ParseInfix(t, q, left) == Parsed(Some(Ok(Infix(At(t, q + 1), left, right))), r);
  }

  /** An atom alone in a statement, without a trailing `;`. */
  lemma AtomStatement(t: seq<TokenKind>, q: nat)
    requires q <= |t| && IsAtom(At(t, q)) && Ends(t, q + 1) && At(t, q + 1) != SEMICOLON
    ensures ParseStatement(t, q) == Parsed(Ok(ExprStmt(AtomExpr(At(t, q)))), q)
  {
    AtomOperand(t, q, LOWEST);
    assert ParseStatement(t, q) == ParseExpressionStatement(t, q);
  }

  /** `a op b` as an operand at prec: op binds tighter than prec, and the
      token after `b` does not. */
  lemma SimpleInfix(t: seq<TokenKind>, q: nat, prec: Precedence)
    requires q <= |t| && IsAtom(At(t, q)) && IsBinaryOperator(At(t, q + 1)) && IsAtom(At(t, q + 2))
    requires Below(prec, PrecedenceOf(At(t, q + 1)))
    requires At(t, q + 3) == SEMICOLON || !Below(prec, PrecedenceOf(At(t, q + 3)))
    ensures ParseExpression(t, q, prec) ==
      Parsed(Ok(Infix(At(t, q + 1), AtomExpr(At(t, q)), AtomExpr(At(t, q + 2)))), q + 2)
  {
    AtomThenLoop(t, q, prec);
    LoopTakesAtom(t, q, prec, AtomExpr(At(t, q)));
    LoopStops(t, q + 2, prec, Infix(At(t, q + 1), AtomExpr(At(t, q)), AtomExpr(At(t, q + 2))));
  }

  /** The k-th operator and the k-th right operand of a chain `a op a op a ...`
      whose first operand is at pos. */
  function OpAt(t: seq<TokenKind>, pos: nat, k: nat): TokenKind
  {
    At(t, pos + 1 + 2 * k)
  }

  function OperandAt(t: seq<TokenKind>, pos: nat, k: nat): TokenKind
  {
    At(t, pos + 2 + 2 * k)
  }

  /** n operators, all of precedence p, each followed by an atom. */
  predicate Chain(t: seq<TokenKind>, pos: nat, n: nat, p: Precedence)
  {
    forall k :: 0 <= k < n ==>
      IsBinaryOperator(OpAt(t, pos, k)) && PrecedenceOf(OpAt(t, pos, k)) == p && IsAtom(OperandAt(t, pos, k))
  }

  /** A chain of n links at precedence p that ends the expression and whose
      operators all bind tighter than prec. */
  predicate ChainIn(t: seq<TokenKind>, pos: nat, p: Precedence, prec: Precedence, n: nat)
  {
    pos + 2 * n <= |t| && Chain(t, pos, n, p) && Below(prec, p) && Ends(t, pos + 1 + 2 * n)
  }

  /** The tree the loop of parse_expression builds from links k..n-1 of a
      chain when the tree so far is acc: each link `op atom` makes the tree
      so far its left operand, so the result is nested to the left. */
  function FoldFrom(t: seq<TokenKind>, pos: nat, p: Precedence, acc: Expression, k: nat, n: nat): Expression
    requires k <= n && Chain(t, pos, n, p)
    decreases n - k
  {
    if k == n then acc
    else FoldFrom(t, pos, p, Infix(OpAt(t, pos, k), acc, AtomExpr(OperandAt(t, pos, k))), k + 1, n)
  }

  /** Link k of a chain is one turn of the loop: the atom after the operator
      is a whole operand, since the next operator does not bind tighter. */
  lemma ChainLink(t: seq<TokenKind>, pos: nat, p: Precedence, prec: Precedence, acc: Expression, n: nat, k: nat)
    requires ChainIn(t, pos, p, prec, n) && k < n
    ensures ExpressionLoop(t, pos + 2 * k, prec, acc) ==
            ExpressionLoop(t, pos + 2 * (k + 1), prec, Infix(OpAt(t, pos, k), acc, AtomExpr(OperandAt(t, pos, k))))
  {
    var q := pos + 2 * k;
    assert IsBinaryOperator(OpAt(t, pos, k)) && PrecedenceOf(OpAt(t, pos, k)) == p && IsAtom(OperandAt(t, pos, k));
    if k + 1 < n {
      assert PrecedenceOf(OpAt(t, pos, k + 1)) == p;
    }
    assert At(t, q + 1) == OpAt(t, pos, k) && At(t, q + 2) == OperandAt(t, pos, k);
    LoopTakesAtom(t, q, prec, acc);
  }

  /** The loop of parse_expression, started at link k of the chain with the
      tree acc, folds the remaining links onto acc and stops after the last. */
  predicate FoldsFrom(t: seq<TokenKind>, pos: nat, p: Precedence, prec: Precedence, acc: Expression, n: nat, k: nat)
    requires ChainIn(t, pos, p, prec, n) && k <= n
  {
    ExpressionLoop(t, pos + 2 * k, prec, acc) == Parsed(Ok(FoldFrom(t, pos, p, acc, k, n)), pos + 2 * n)
  }

  /** What the loop gives from link k, given what it gives from link k + 1
      when there is one. */
  lemma ChainStep(t: seq<TokenKind>, pos: nat, p: Precedence, prec: Precedence, acc: Expression, n: nat, k: nat)
    requires ChainIn(t, pos, p, prec, n) && k <= n
    requires k < n ==> FoldsFrom(t, pos, p, prec, Infix(OpAt(t, pos, k), acc, AtomExpr(OperandAt(t, pos, k))), n, k + 1)
    ensures FoldsFrom(t, pos, p, prec, acc, n, k)
  {
    if k < n {
      ChainLink(t, pos, p, prec, acc, n, k);
    } else {
      assert Ends(t, pos + 2 * n + 1);
      LoopStops(t, pos + 2 * n, prec, acc);
    }
  }

  /** The loop of parse_expression folds a chain of equal precedence to the
      left: the right operand is parsed at the operator's own precedence, so
      the next equal operator is not taken inside it. */
  lemma {:induction false} LeftChain(t: seq<TokenKind>, pos: nat, p: Precedence, prec: Precedence, acc: Expression, n: nat, k: nat)
    requires ChainIn(t, pos, p, prec, n) && k <= n
    ensures FoldsFrom(t, pos, p, prec, acc, n, k)
    decreases n - k
  {
    if k < n {
      LeftChain(t, pos, p, prec, Infix(OpAt(t, pos, k), acc, AtomExpr(OperandAt(t, pos, k))), n, k + 1);
    }
    ChainStep(t, pos, p, prec, acc, n, k);
  }

  /** `a + b - c` parses as `(a + b) - c`: a whole chain of equal
      precedence nests to the left. */
  lemma LeftAssociative(t: seq<TokenKind>, pos: nat, p: Precedence, n: nat)
    requires pos + 2 * n <= |t| && IsAtom(At(t, pos))
    requires Chain(t, pos, n, p) && p != LOWEST && Ends(t, pos + 1 + 2 * n)
    ensures ParseExpression(t, pos, LOWEST) == Parsed(Ok(FoldFrom(t, pos, p, AtomExpr(At(t, pos)), 0, n)), pos + 2 * n)
  {
    AtomThenLoop(t, pos, LOWEST);
    LeftChain(t, pos, p, LOWEST, AtomExpr(At(t, pos)), n, 0);
  }

  /** `x o1 y o2 z` with o2 binding tighter: o2 takes y as its left operand. */
  lemma TighterOnRight(t: seq<TokenKind>, pos: nat)
    requires pos + 4 < |t|
    requires IsAtom(At(t, pos)) && IsAtom(At(t, pos + 2)) && IsAtom(At(t, pos + 4))
    requires IsBinaryOperator(At(t, pos + 1)) && IsBinaryOperator(At(t, pos + 3)) && Ends(t, pos + 5)
    requires Below(PrecedenceOf(At(t, pos + 1)), PrecedenceOf(At(t, pos + 3)))
    ensures var x, o1, y, o2, z := AtomExpr(At(t, pos)), At(t, pos + 1), AtomExpr(At(t, pos + 2)), At(t, pos + 3), AtomExpr(At(t, pos + 4));
      ParseExpression(t, pos, LOWEST) == Parsed(Ok(Infix(o1, x, Infix(o2, y, z))), pos + 4)
  {
    var x, o1, y, o2, z := AtomExpr(At(t, pos)), At(t, pos + 1), AtomExpr(At(t, pos + 2)), At(t, pos + 3), AtomExpr(At(t, pos + 4));
    assert ParseExpression(t, pos + 2, PrecedenceOf(o1)) == Parsed(Ok(Infix(o2, y, z)), pos + 4) by {
      AtomThenLoop(t, pos + 2, PrecedenceOf(o1));
      LoopTakesAtom(t, pos + 2, PrecedenceOf(o1), y);
      LoopStops(t, pos + 4, PrecedenceOf(o1), Infix(o2, y, z));
    }
    AtomThenLoop(t, pos, LOWEST);
    LoopInfix(t, pos, LOWEST, x, Infix(o2, y, z), pos + 4);
    LoopStops(t, pos + 4, LOWEST, Infix(o1, x, Infix(o2, y, z)));
  }

  /** `x o1 y o2 z` with o2 not binding tighter: `x o1 y` becomes o2's left
      operand. */
  lemma LooserOnRight(t: seq<TokenKind>, pos: nat)
    requires pos + 4 < |t|
    requires IsAtom(At(t, pos)) && IsAtom(At(t, pos + 2)) && IsAtom(At(t, pos + 4))
    requires IsBinaryOperator(At(t, pos + 1)) && IsBinaryOperator(At(t, pos + 3)) && Ends(t, pos + 5)
    requires !Below(PrecedenceOf(At(t, pos + 1)), PrecedenceOf(At(t, pos + 3)))
    ensures var x, o1, y, o2, z := AtomExpr(At(t, pos)), At(t, pos + 1), AtomExpr(At(t, pos + 2)), At(t, pos + 3), AtomExpr(At(t, pos + 4));
      ParseExpression(t, pos, LOWEST) == Parsed(Ok(Infix(o2, Infix(o1, x, y), z)), pos + 4)
  {
    var x, o1, y, o2, z := AtomExpr(At(t, pos)), At(t, pos + 1), AtomExpr(At(t, pos + 2)), At(t, pos + 3), AtomExpr(At(t, pos + 4));
    AtomThenLoop(t, pos, LOWEST);
    LoopTakesAtom(t, pos, LOWEST, x);
    LoopTakesAtom(t, pos + 2, LOWEST, Infix(o1, x, y));
    LoopStops(t, pos + 4, LOWEST, Infix(o2, Infix(o1, x, y), z));
  }

  /** `x o1 y o2 z`: when o2 binds tighter it takes y as its left operand,
      otherwise the first operation becomes o2's left operand. */
  lemma ThreeOperands(t: seq<TokenKind>, pos: nat)
    requires pos + 4 < |t|
    requires IsAtom(At(t, pos)) && IsAtom(At(t, pos + 2)) && IsAtom(At(t, pos + 4))
    requires IsBinaryOperator(At(t, pos + 1)) && IsBinaryOperator(At(t, pos + 3)) && Ends(t, pos + 5)
    ensures var x, o1, y, o2, z := AtomExpr(At(t, pos)), At(t, pos + 1), AtomExpr(At(t, pos + 2)), At(t, pos + 3), AtomExpr(At(t, pos + 4));
      ParseExpression(t, pos, LOWEST) ==
        Parsed(Ok(if Below(PrecedenceOf(o1), PrecedenceOf(o2)) then Infix(o1, x, Infix(o2, y, z))
                  else Infix(o2, Infix(o1, x, y), z)), pos + 4)
  {
    if Below(PrecedenceOf(At(t, pos + 1)), PrecedenceOf(At(t, pos + 3))) {
      TighterOnRight(t, pos);
    } else {
      LooserOnRight(t, pos);
    }
  }

  /** `-a * b` parses as `(-a) * b`: a prefix operator takes its operand at
      PREFIX precedence, above every binary operator. */
  lemma PrefixBindsTighter(t: seq<TokenKind>, pos: nat)
    requires pos + 3 < |t| && (At(t, pos) == MINUS || At(t, pos) == BANG)
    requires IsAtom(At(t, pos + 1)) && IsBinaryOperator(At(t, pos + 2)) && IsAtom(At(t, pos + 3)) && Ends(t, pos + 4)
    ensures ParseExpression(t, pos, LOWEST) ==
      Parsed(Ok(Infix(At(t, pos + 2), Prefix(At(t, pos), AtomExpr(At(t, pos + 1))), AtomExpr(At(t, pos + 3)))), pos + 3)
  {
    var a := AtomExpr(At(t, pos + 1));
    AtomOperand(t, pos + 1, PREFIX);
    assert ParsePrefix(t, pos) == Parsed(Ok(Prefix(At(t, pos), a)), pos + 1);
    LoopTakesAtom(t, pos + 1, LOWEST, Prefix(At(t, pos), a));
    LoopStops(t, pos + 3, LOWEST, Infix(At(t, pos + 2), Prefix(At(t, pos), a), AtomExpr(At(t, pos + 3))));
  }

  /** A parenthesised group restarts at LOWEST, adds no node of its own and
      must be closed by `)`; a missing `)` is reported even when the inner
      expression already failed. */
  lemma GroupOutcome(t: seq<TokenKind>, pos: nat)
    requires pos < |t| && At(t, pos) == LPAREN
    requires !ParseExpression(t, pos + 1, LOWEST).out.Panic?
    ensures var inner := ParseExpression(t, pos + 1, LOWEST);
      ParsePrefix(t, pos) ==
        if At(t, inner.pos + 1) == RPAREN then Parsed(inner.out, Advance(t, inner.pos))
        else Parsed(Err(ExpectedToken(RPAREN, At(t, inner.pos + 1))), Advance(t, inner.pos))
  {
  }

  /** A parenthesised `a op b` is one prefix operand ending at its `)`. */
  lemma GroupedPair(t: seq<TokenKind>, pos: nat)
    requires pos + 4 < |t| && At(t, pos) == LPAREN && At(t, pos + 4) == RPAREN
    requires IsAtom(At(t, pos + 1)) && IsBinaryOperator(At(t, pos + 2)) && IsAtom(At(t, pos + 3))
    ensures ParsePrefix(t, pos) ==
      Parsed(Ok(Infix(At(t, pos + 2), AtomExpr(At(t, pos + 1)), AtomExpr(At(t, pos + 3)))), pos + 4)
  {
    var inner := Infix(At(t, pos + 2), AtomExpr(At(t, pos + 1)), AtomExpr(At(t, pos + 3)));
    assert ParseExpression(t, pos + 1, LOWEST) == Parsed(Ok(inner), pos + 3) by {
      AtomThenLoop(t, pos + 1, LOWEST);
      LoopTakesAtom(t, pos + 1, LOWEST, AtomExpr(At(t, pos + 1)));
      LoopStops(t, pos + 3, LOWEST, inner);
    }
    GroupOutcome(t, pos);
  }

  /** `(a + b) * c` parses as `(a + b) * c`: the group is one operand. */
  lemma GroupIsOperand(t: seq<TokenKind>, pos: nat)
    requires pos + 6 < |t| && At(t, pos) == LPAREN && At(t, pos + 4) == RPAREN
    requires IsAtom(At(t, pos + 1)) && IsBinaryOperator(At(t, pos + 2)) && IsAtom(At(t, pos + 3))
    requires IsBinaryOperator(At(t, pos + 5)) && IsAtom(At(t, pos + 6)) && Ends(t, pos + 7)
    ensures var inner := Infix(At(t, pos + 2), AtomExpr(At(t, pos + 1)), AtomExpr(At(t, pos + 3)));
      ParseExpression(t, pos, LOWEST) == Parsed(Ok(Infix(At(t, pos + 5), inner, AtomExpr(At(t, pos + 6)))), pos + 6)
  {
    var inner := Infix(At(t, pos + 2), AtomExpr(At(t, pos + 1)), AtomExpr(At(t, pos + 3)));
    GroupedPair(t, pos);
    PrefixThenLoop(t, pos, LOWEST, inner, pos + 4);
    LoopTakesAtom(t, pos + 4, LOWEST, inner);
    LoopStops(t, pos + 6, LOWEST, Infix(At(t, pos + 5), inner, AtomExpr(At(t, pos + 6))));
  }

  /** The k-th item of a list whose opening delimiter is at pos, and the
      token that follows it. */
  function ItemAt(t: seq<TokenKind>, pos: nat, k: nat): TokenKind
  {
    At(t, pos + 1 + 2 * k)
  }

  function AfterItem(t: seq<TokenKind>, pos: nat, k: nat): TokenKind
  {
    At(t, pos + 2 + 2 * k)
  }

  /** n atoms separated by commas. */
  predicate AtomList(t: seq<TokenKind>, pos: nat, n: nat)
  {
    forall k :: 0 <= k < n ==> IsAtom(ItemAt(t, pos, k)) && (k + 1 < n ==> AfterItem(t, pos, k) == COMMA)
  }

  /** The expressions of the first k items, in source order. */
  function Items(t: seq<TokenKind>, pos: nat, k: nat): (items: seq<Expression>)
    requires AtomList(t, pos, k)
    ensures |items| == k
  {
    if k == 0 then [] else Items(t, pos, k - 1) + [AtomExpr(ItemAt(t, pos, k - 1))]
  }

  /** One turn of the loop of parse_expression_list over `, atom`. */
  lemma ListTakesAtom(t: seq<TokenKind>, q: nat, end: TokenKind, items: seq<Expression>)
    requires q <= |t| && At(t, q + 1) == COMMA && IsAtom(At(t, q + 2)) && Ends(t, q + 3)
    ensures q + 2 < |t|
    ensures ExpressionListLoop(t, q, end, items) == ExpressionListLoop(t, q + 2, end, items + [AtomExpr(At(t, q + 2))])
  {
    AtomOperand(t, q + 2, LOWEST);
  }

  /** The loop of parse_expression_list ends when no comma follows. */
  lemma ListEnds(t: seq<TokenKind>, q: nat, end: TokenKind, items: seq<Expression>)
    requires q < |t| && At(t, q + 1) != COMMA
    ensures ExpressionListLoop(t, q, end, items) ==
      if At(t, q + 1) == end then Parsed(Ok(items), q + 1) else Parsed(Err(ExpectedToken(end, At(t, q + 1))), q + 1)
  {
  }

  /** m further items after q, each a comma and an atom. */
  predicate AtomsAfter(t: seq<TokenKind>, q: nat, m: nat)
    decreases m
  {
    m == 0 || (At(t, q + 1) == COMMA && IsAtom(At(t, q + 2)) && AtomsAfter(t, q + 2, m - 1))
  }

  /** The expressions of those m items, in source order. */
  function ItemsAfter(t: seq<TokenKind>, q: nat, m: nat): (items: seq<Expression>)
    requires AtomsAfter(t, q, m)
    ensures |items| == m
    decreases m
  {
    if m == 0 then [] else [AtomExpr(At(t, q + 2))] + ItemsAfter(t, q + 2, m - 1)
  }

  lemma AppendNothing<T>(xs: seq<T>, ys: seq<T>)
    requires |ys| == 0
    ensures xs + ys == xs
  {
  }

  lemma AppendAssociates<T>(xs: seq<T>, ys: seq<T>, zs: seq<T>)
    ensures (xs + ys) + zs == xs + (ys + zs)
  {
  }

  /** How the loop of parse_expression_list ends at the token at i when it
      holds items: with them at the end delimiter, with an error elsewhere. */
  function ListVerdict(t: seq<TokenKind>, i: nat, end: TokenKind, items: seq<Expression>): Parsed<PResult<seq<Expression>>>
  {
    if At(t, i) == end then Parsed(Ok(items), i) else Parsed(Err(ExpectedToken(end, At(t, i))), i)
  }

  /** The loop of parse_expression_list from q over m further atoms: it
      appends their expressions to what it holds, and fails unless the end
      delimiter follows them. */
  predicate ListFrom(t: seq<TokenKind>, q: nat, end: TokenKind, items: seq<Expression>, m: nat)
    requires q < |t| && AtomsAfter(t, q, m)
  {
    q + 2 * m < |t| &&
    ExpressionListLoop(t, q, end, items) == ListVerdict(t, q + 2 * m + 1, end, items + ItemsAfter(t, q, m))
  }

  /** Past the first of m > 0 further atoms there are m - 1 more. */
  lemma AtomsAfterNext(t: seq<TokenKind>, q: nat, m: nat)
    requires q < |t| && 0 < m && AtomsAfter(t, q, m)
    ensures q + 2 < |t| && AtomsAfter(t, q + 2, m - 1)
  {
  }

  /** With no further atoms the loop ends at once. */
  lemma ListAfterNone(t: seq<TokenKind>, q: nat, end: TokenKind, items: seq<Expression>)
    requires q < |t| && At(t, q + 1) != COMMA
    ensures ListFrom(t, q, end, items, 0)
  {
    ListEnds(t, q, end, items);
    AppendNothing(items, ItemsAfter(t, q, 0));
  }

  /** The first of m > 0 further atoms is followed by a comma or by the
      token that ends the list. */
  lemma FirstAtomEnds(t: seq<TokenKind>, q: nat, m: nat)
    requires q < |t| && 0 < m && AtomsAfter(t, q, m) && Ends(t, q + 2 * m + 1)
    ensures Ends(t, q + 3)
  {
    if 1 < m {
      assert At(t, q + 3) == COMMA;
    }
  }

  /** The loop over m > 0 further atoms, given the loop over the m - 1 after
      the first of them. */
  lemma ListAfterSome(t: seq<TokenKind>, q: nat, end: TokenKind, items: seq<Expression>, m: nat)
    requires q < |t| && 0 < m && AtomsAfter(t, q, m) && Ends(t, q + 3)
    requires q + 2 < |t| && AtomsAfter(t, q + 2, m - 1)
    requires ListFrom(t, q + 2, end, items + [AtomExpr(At(t, q + 2))], m - 1)
    ensures ListFrom(t, q, end, items, m)
  {
    ListTakesAtom(t, q, end, items);
    AppendAssociates(items, [AtomExpr(At(t, q + 2))], ItemsAfter(t, q + 2, m - 1));
    assert (q + 2) + 2 * (m - 1) + 1 == q + 2 * m + 1;
  }

  lemma {:induction false} ListLoopAfter(t: seq<TokenKind>, q: nat, end: TokenKind, items: seq<Expression>, m: nat)
    requires q < |t| && AtomsAfter(t, q, m) && At(t, q + 2 * m + 1) != COMMA && Ends(t, q + 2 * m + 1)
    ensures ListFrom(t, q, end, items, m)
    decreases m
  {
    if m == 0 {
      ListAfterNone(t, q, end, items);
    } else {
      AtomsAfterNext(t, q, m);
      FirstAtomEnds(t, q, m);
      ListLoopAfter(t, q + 2, end, items + [AtomExpr(At(t, q + 2))], m - 1);
      ListAfterSome(t, q, end, items, m);
    }
  }

  /** The items after the k-th of n, in the recursive form. */
  lemma {:induction false} ItemsSplit(t: seq<TokenKind>, pos: nat, n: nat, k: nat)
    requires 1 <= k <= n && AtomList(t, pos, n)
    ensures AtomsAfter(t, pos + 2 * k - 1, n - k)
    ensures Items(t, pos, n) == Items(t, pos, k) + ItemsAfter(t, pos + 2 * k - 1, n - k)
    decreases n - k
  {
    if k < n {
      assert AfterItem(t, pos, k - 1) == COMMA && IsAtom(ItemAt(t, pos, k));
      ItemsSplit(t, pos, n, k + 1);
      assert Items(t, pos, k + 1) == Items(t, pos, k) + [AtomExpr(ItemAt(t, pos, k))];
      AppendAssociates(Items(t, pos, k), [AtomExpr(ItemAt(t, pos, k))], ItemsAfter(t, pos + 2 * k + 1, n - k - 1));
    }
  }

  /** A list whose first item is an atom continues with its loop after it. */
  lemma ListOpensWithAtom(t: seq<TokenKind>, pos: nat, end: TokenKind)
    requires pos < |t| && IsAtom(At(t, pos + 1)) && !IsAtom(end) && Ends(t, pos + 2)
    ensures ParseExpressionList(t, pos, end) == ExpressionListLoop(t, pos + 1, end, [AtomExpr(At(t, pos + 1))])
  {
    AtomOperand(t, pos + 1, LOWEST);
    ListFirst(t, pos, end, AtomExpr(At(t, pos + 1)), pos + 1);
  }

  /** An atom and m further atoms after commas, from pos + 1 on. */
  lemma {:induction false} AtomsList(t: seq<TokenKind>, pos: nat, end: TokenKind, m: nat)
    requires pos < |t| && IsAtom(At(t, pos + 1)) && AtomsAfter(t, pos + 1, m) && !IsAtom(end)
    requires At(t, pos + 2 * m + 2) != COMMA && Ends(t, pos + 2 * m + 2)
    ensures ParseExpressionList(t, pos, end) ==
      ListVerdict(t, pos + 2 * m + 2, end, [AtomExpr(At(t, pos + 1))] + ItemsAfter(t, pos + 1, m))
  {
    assert Ends(t, pos + 2) by {
      if 0 < m {
        assert At(t, pos + 2) == COMMA;
      }
    }
    ListOpensWithAtom(t, pos, end);
    ListLoopAfter(t, pos + 1, end, [AtomExpr(At(t, pos + 1))], m);
  }

  /** The n items of an atom list, in the recursive form. */
  lemma ItemsFirst(t: seq<TokenKind>, pos: nat, n: nat)
    requires 1 <= n && AtomList(t, pos, n)
    ensures IsAtom(At(t, pos + 1)) && AtomsAfter(t, pos + 1, n - 1)
    ensures Items(t, pos, n) == [AtomExpr(At(t, pos + 1))] + ItemsAfter(t, pos + 1, n - 1)
  {
    assert IsAtom(ItemAt(t, pos, 0));
    ItemsSplit(t, pos, n, 1);
    assert Items(t, pos, 1) == [AtomExpr(ItemAt(t, pos, 0))];
  }

  /** parse_expression_list yields one expression per comma-separated item,
      in source order, and fails unless the end delimiter follows. */
  lemma ExpressionListItems(t: seq<TokenKind>, pos: nat, end: TokenKind, n: nat)
    requires pos < |t| && 1 <= n && pos + 2 * n <= |t| && AtomList(t, pos, n) && !IsAtom(end)
    requires AfterItem(t, pos, n - 1) != COMMA && Ends(t, pos + 2 * n)
    ensures ParseExpressionList(t, pos, end) ==
      if At(t, pos + 2 * n) == end then Parsed(Ok(Items(t, pos, n)), pos + 2 * n)
      else Parsed(Err(ExpectedToken(end, At(t, pos + 2 * n))), pos + 2 * n)
  {
    ItemsFirst(t, pos, n);
    AtomsList(t, pos, end, n - 1);
  }

  /** After the prefix form, parse_expression continues with its loop. */
  lemma PrefixThenLoop(t: seq<TokenKind>, pos: nat, prec: Precedence, e: Expression, r: nat)
    requires pos <= |t| && ParsePrefix(t, pos) == Parsed(Ok(e), r)
    ensures ParseExpression(t, pos, prec) == ExpressionLoop(t, r, prec, e)
  {
  }

  /** A prefix form that is not followed by a tighter operator is a whole
      operand. */
  lemma PrefixOperand(t: seq<TokenKind>, pos: nat, prec: Precedence, e: Expression, r: nat)
    requires pos <= |t| && ParsePrefix(t, pos) == Parsed(Ok(e), r)
    requires At(t, r + 1) == SEMICOLON || !Below(prec, PrecedenceOf(At(t, r + 1)))
    ensures ParseExpression(t, pos, prec) == Parsed(Ok(e), r)
  {
    PrefixThenLoop(t, pos, prec, e, r);
    LoopStops(t, r, prec, e);
  }

  /** What parse_if_expression does once the condition and the opening
      brace of the consequence are behind it, the brace at p. */
  function IfRest(t: seq<TokenKind>, cond: Expression, p: nat): Parsed<PResult<Expression>>
    requires p <= |t|
  {
    var cons := ParseBlock(t, p);
    if !cons.out.Ok? then Parsed(cons.out.Propagate(), cons.pos)
    else
      var alt := ParseAlternative(t, cons.pos);
      if !alt.out.Ok? then Parsed(alt.out.Propagate(), alt.pos)
      else Parsed(Ok(If(cond, cons.out.value, alt.out.value)), alt.pos)
  }

  /** `( cond ) {`: the head of an if-expression. */
  lemma IfHead(t: seq<TokenKind>, pos: nat, cond: Expression, q: nat)
    requires pos < |t| && At(t, pos + 1) == LPAREN
    requires ParseExpression(t, pos + 2, LOWEST) == Parsed(Ok(cond), q)
    requires At(t, q + 1) == RPAREN && At(t, q + 2) == LBRACE
    ensures q + 2 <= |t| && ParseIf(t, pos) == IfRest(t, cond, q + 2)
  {
    assert Advance(t, pos + 1) == pos + 2;
  }

  /** An if-expression is `( cond ) { block }` followed by its optional
      alternative, each part parsed where the previous one ended. */
  lemma IfFromParts(t: seq<TokenKind>, pos: nat, cond: Expression, q: nat, cons: Block, q2: nat,
                    alt: Option<Block>, q3: nat)
    requires pos < |t| && At(t, pos + 1) == LPAREN
    requires ParseExpression(t, pos + 2, LOWEST) == Parsed(Ok(cond), q)
    requires At(t, q + 1) == RPAREN && At(t, q + 2) == LBRACE
    requires ParseBlock(t, q + 2) == Parsed(Ok(cons), q2)
    requires ParseAlternative(t, q2) == Parsed(Ok(alt), q3)
    ensures ParseIf(t, pos) == Parsed(Ok(If(cond, cons, alt)), q3)
  {
    IfHead(t, pos, cond, q);
  }

  /** `else { block }` after the consequence. */
  lemma ElseBranch(t: seq<TokenKind>, pos: nat, alt: Block, q: nat)
    requires pos <= |t| && At(t, pos + 1) == ELSE && At(t, pos + 2) == LBRACE
    requires ParseBlock(t, pos + 2) == Parsed(Ok(alt), q)
    ensures ParseAlternative(t, pos) == Parsed(Ok(Some(alt)), q)
  {
    assert ExpectPeek(t, pos + 1, LBRACE) == Parsed(Ok(()), pos + 2);
  }

  /** One turn of the block loop over a statement that parsed. */
  lemma BlockTakes(t: seq<TokenKind>, q: nat, stmts: seq<Statement>, st: Statement, r: nat)
    requires q <= r <= |t| && At(t, q) != RBRACE && At(t, q) != EOF
    requires ParseStatement(t, q) == Parsed(Ok(st), r)
    ensures BlockLoop(t, q, stmts) == BlockLoop(t, Advance(t, r), stmts + [st])
  {
  }

  /** One turn of the block loop over a statement that failed: it is dropped. */
  lemma BlockSkips(t: seq<TokenKind>, q: nat, stmts: seq<Statement>, e: ParseError, r: nat)
    requires q <= r <= |t| && At(t, q) != RBRACE && At(t, q) != EOF
    requires ParseStatement(t, q) == Parsed(Err(e), r)
    ensures BlockLoop(t, q, stmts) == BlockLoop(t, Advance(t, r), stmts)
  {
  }

  /** `{ atom }`: a block holding one expression statement. */
  lemma AtomBlock(t: seq<TokenKind>, pos: nat)
    requires pos + 2 < |t| && IsAtom(At(t, pos + 1)) && At(t, pos + 2) == RBRACE
    ensures ParseBlock(t, pos) == Parsed(Ok(Block([ExprStmt(AtomExpr(At(t, pos + 1)))])), pos + 2)
  {
    AtomStatement(t, pos + 1);
    BlockTakes(t, pos + 1, [], ExprStmt(AtomExpr(At(t, pos + 1))), pos + 1);
    AppendToEmpty(ExprStmt(AtomExpr(At(t, pos + 1))));
  }

  /** A function literal is `( parameters ) { body }`. */
  lemma FnFromParts(t: seq<TokenKind>, pos: nat, params: seq<string>, q: nat, body: Block, q2: nat)
    requires pos < |t| && At(t, pos + 1) == LPAREN
    requires ParseFnParameters(t, pos + 1) == Parsed(Ok(params), q)
    requires At(t, q + 1) == LBRACE
    requires ParseBlock(t, q + 1) == Parsed(Ok(body), q2)
    ensures ParseFn(t, pos) == Parsed(Ok(Function(params, body)), q2)
  {
    assert Advance(t, pos) == pos + 1;
    assert ExpectPeek(t, pos, LPAREN) == Parsed(Ok(()), pos + 1);
    assert q < |t| && Advance(t, q) == q + 1;
    assert ExpectPeek(t, q, LBRACE) == Parsed(Ok(()), q + 1);
  }

  /** One turn of the parameter loop over `, name`. */
  lemma ParameterStep(t: seq<TokenKind>, q: nat, params: seq<string>, name: string)
    requires q + 2 < |t| && At(t, q + 1) == COMMA && At(t, q + 2) == IDENTIFIER(name)
    ensures ParametersLoop(t, q, params) == ParametersLoop(t, q + 2, params + [name])
  {
  }

  /** The parameter loop ends at `)`. */
  lemma ParametersEnd(t: seq<TokenKind>, q: nat, params: seq<string>)
    requires q + 1 < |t| && At(t, q + 1) == RPAREN
    ensures ParametersLoop(t, q, params) == Parsed(Ok(params), q + 1)
  {
  }

  /** The names of the `, name` pairs that follow the token at q, as far as
      they go, in source order. */
  function NamesAfter(t: seq<TokenKind>, q: nat): (names: seq<string>)
    requires q <= |t|
    ensures q + 2 * |names| <= |t|
    decreases |t| - q
  {
    if At(t, q + 1) == COMMA && At(t, q + 2).IDENTIFIER? then [At(t, q + 2).name] + NamesAfter(t, q + 2) else []
  }

  /** How the parameter loop ends at the token after e when it holds
      params: a comma there is followed by something other than a name, `)`
      closes the list, and anything else is a missing `)`. */
  function ParametersVerdict(t: seq<TokenKind>, e: nat, params: seq<string>): Parsed<PResult<seq<string>>>
    requires e <= |t|
  {
    if At(t, e + 1) == COMMA then Parsed(Err(ParameterNotIdentifier(At(t, e + 2))), e + 2)
    else if At(t, e + 1) == RPAREN then Parsed(Ok(params), e + 1)
    else Parsed(Err(ExpectedToken(RPAREN, At(t, e + 1))), Advance(t, e))
  }

  /** Where no `, name` pair follows, the parameter loop ends at once. */
  lemma ParametersStop(t: seq<TokenKind>, q: nat, params: seq<string>)
    requires q <= |t| && !(At(t, q + 1) == COMMA && At(t, q + 2).IDENTIFIER?)
    ensures ParametersLoop(t, q, params) == ParametersVerdict(t, q, params)
  {
    if At(t, q + 1) == COMMA {
      assert Advance(t, Advance(t, q)) == q + 2;
    }
  }

  /** The parameter loop from q appends every name of the `, name` pairs
      that follow, and then ends as ParametersVerdict says. */
  lemma {:induction false} ParametersOutcome(t: seq<TokenKind>, q: nat, params: seq<string>)
    requires q <= |t|
    ensures ParametersLoop(t, q, params) == ParametersVerdict(t, q + 2 * |NamesAfter(t, q)|, params + NamesAfter(t, q))
    decreases |t| - q
  {
    if At(t, q + 1) == COMMA && At(t, q + 2).IDENTIFIER? {
      var name := At(t, q + 2).name;
      ParameterStep(t, q, params, name);
      ParametersOutcome(t, q + 2, params + [name]);
      AppendAssociates(params, [name], NamesAfter(t, q + 2));
    } else {
      ParametersStop(t, q, params);
      AppendNothing(params, NamesAfter(t, q));
    }
  }

  /** parse_fn_parameters over any input: `)` at once is the empty list; a
      first parameter that is not a name is an error naming it; otherwise
      the names separated by commas are collected, in order, and the list
      ends as ParametersVerdict says. */
  lemma FnParametersOutcome(t: seq<TokenKind>, pos: nat)
    requires pos <= |t|
    ensures ParseFnParameters(t, pos) ==
      if At(t, pos + 1) == RPAREN then Parsed(Ok([]), pos + 1)
      else if !At(t, pos + 1).IDENTIFIER? then Parsed(Err(ParameterNotIdentifier(At(t, pos + 1))), Advance(t, pos))
      else ParametersVerdict(t, pos + 1 + 2 * |NamesAfter(t, pos + 1)|, [At(t, pos + 1).name] + NamesAfter(t, pos + 1))
  {
    if At(t, pos + 1) == RPAREN {
      assert ParseFnParameters(t, pos) == Parsed(Ok([]), pos + 1);
    } else if At(t, pos + 1).IDENTIFIER? {
      var name := At(t, pos + 1).name;
      assert ParseFnParameters(t, pos) == ParametersLoop(t, pos + 1, [name]);
      ParametersOutcome(t, pos + 1, [name]);
    } else {
      assert ParseFnParameters(t, pos) == Parsed(Err(ParameterNotIdentifier(At(t, pos + 1))), Advance(t, pos));
    }
  }

  /** The first item of a non-empty expression list. */
  lemma ListFirst(t: seq<TokenKind>, pos: nat, end: TokenKind, e: Expression, r: nat)
    requires pos < |t| && At(t, pos + 1) != end
    requires ParseExpression(t, pos + 1, LOWEST) == Parsed(Ok(e), r)
    ensures ParseExpressionList(t, pos, end) == ExpressionListLoop(t, r, end, [e])
  {
  }

  /** One turn of the loop of parse_expression_list over `, expression`. */
  lemma ListStep(t: seq<TokenKind>, q: nat, end: TokenKind, items: seq<Expression>, e: Expression, r: nat)
    requires q + 1 < |t| && At(t, q + 1) == COMMA
    requires ParseExpression(t, q + 2, LOWEST) == Parsed(Ok(e), r)
    ensures ExpressionListLoop(t, q, end, items) == ExpressionListLoop(t, r, end, items + [e])
  {
  }

  /** A `(` after an operand applies it to the argument list, at CALL
      precedence. */
  lemma LoopCall(t: seq<TokenKind>, q: nat, prec: Precedence, callee: Expression, args: seq<Expression>, r: nat)
    requires q < |t| && At(t, q + 1) == LPAREN && Below(prec, CALL)
    requires ParseExpressionList(t, q + 1, RPAREN) == Parsed(Ok(args), r)
    ensures ExpressionLoop(t, q, prec, callee) == ExpressionLoop(t, r, prec, Call(callee, args))
  {
    assert ParseFnCall(t, q + 1, callee) == Parsed(Ok(Call(callee, args)), r);
    assert ParseInfix(t, q, callee) == Parsed(Some(Ok(Call(callee, args))), r);
  }

  /** The last statement of a program: an expression statement that ends
      at the last token, or just before a final `;`. */
  lemma LastStatement(t: seq<TokenKind>, pos: nat, stmts: seq<Statement>, e: Expression, r: nat)
    requires pos < |t| && t[pos] != LET && t[pos] != RETURN
    requires ParseExpression(t, pos, LOWEST) == Parsed(Ok(e), r)
    requires SkipSemicolon(t, r) + 1 >= |t|
    ensures ProgramLoop(t, pos, stmts, []) == Accepted(Program(stmts + [ExprStmt(e)]))
  {
    assert ParseStatement(t, pos) == ParseExpressionStatement(t, pos);
  }

  /** `let name = value`, then one optional `;`. */
  lemma LetForm(t: seq<TokenKind>, pos: nat, name: string, e: Expression, r: nat)
    requires pos + 2 < |t| && At(t, pos) == LET && At(t, pos + 1) == IDENTIFIER(name) && At(t, pos + 2) == ASSIGN
    requires ParseExpression(t, pos + 3, LOWEST) == Parsed(Ok(e), r)
    ensures ParseStatement(t, pos) == Parsed(Ok(Let(name, e)), SkipSemicolon(t, r))
  {
    assert ExpectPeek(t, pos + 1, ASSIGN) == Parsed(Ok(()), pos + 2);
  }

  /** `return value`, then one optional `;`; a failing value fails the
      statement with the same error, at the same position. */
  lemma ReturnForm(t: seq<TokenKind>, pos: nat)
    requires pos < |t| && At(t, pos) == RETURN
    ensures var v := ParseExpression(t, pos + 1, LOWEST);
      && (v.out.Ok? ==> ParseStatement(t, pos) == Parsed(Ok(Return(v.out.value)), SkipSemicolon(t, v.pos)))
      && (v.out.Err? ==> ParseStatement(t, pos) == Parsed(Err(v.out.error), v.pos))
      && (v.out.Panic? ==> ParseStatement(t, pos) == Parsed(Panic(v.out.error), v.pos))
  {
  }

  /** An expression list whose end delimiter comes at once is empty. */
  lemma EmptyList(t: seq<TokenKind>, pos: nat, end: TokenKind)
    requires pos < |t| && At(t, pos + 1) == end
    ensures ParseExpressionList(t, pos, end) == Parsed(Ok([]), pos + 1)
  {
  }

  /** A program that is one expression statement. */
  lemma ExpressionProgram(t: seq<TokenKind>, e: Expression, r: nat)
    requires 0 < |t| && t[0] != LET && t[0] != RETURN
    requires ParseExpression(t, 0, LOWEST) == Parsed(Ok(e), r)
    requires SkipSemicolon(t, r) + 1 >= |t|
    ensures ParseProgram(t) == Accepted(Program([ExprStmt(e)]))
  {
    LastStatement(t, 0, [], e, r);
    AppendToEmpty(ExprStmt(e));
  }

  /** The first parameter of a list that does not start with `)`. */
  lemma ParametersFirst(t: seq<TokenKind>, q: nat, name: string)
    requires q + 1 < |t| && At(t, q + 1) == IDENTIFIER(name)
    ensures ParseFnParameters(t, q) == ParametersLoop(t, q + 1, [name])
  {
  }

  /** Tokens parse_prefix_expression has a rule for. */
  predicate HasPrefixRule(k: TokenKind)
  {
    IsAtom(k) || k == BANG || k == MINUS || k == LPAREN || k == LBRACKET || k == IF || k == FUNCTION
  }

  /** An expression cannot start with a token that has no prefix rule; as a
      statement it fails with the same error and stays on that token. */
  lemma NoPrefixRule(t: seq<TokenKind>, pos: nat, prec: Precedence)
    requires pos <= |t| && !HasPrefixRule(At(t, pos)) && At(t, pos) != LET && At(t, pos) != RETURN
    ensures ParseExpression(t, pos, prec) == Parsed(Err(NoPrefixFunction(At(t, pos))), pos)
    ensures ParseStatement(t, pos) == Parsed(Err(NoPrefixFunction(At(t, pos))), pos)
  {
    assert ParsePrefix(t, pos) == Parsed(Err(NoPrefixFunction(At(t, pos))), pos);
    var v := ParseExpression(t, pos, LOWEST);
    assert v == Parsed(Err(NoPrefixFunction(At(t, pos))), pos);
    var r: PResult<Statement> := v.out.Propagate();
    assert r == Err(NoPrefixFunction(At(t, pos)));
    assert ParseExpressionStatement(t, pos) == Parsed(r, pos);
    assert ParseStatement(t, pos) == ParseExpressionStatement(t, pos);
  }

  /** `let` must be followed by an identifier. */
  lemma LetNeedsIdentifier(t: seq<TokenKind>, pos: nat)
    requires pos < |t| && At(t, pos) == LET
    ensures !At(t, pos + 1).IDENTIFIER? ==> ParseStatement(t, pos) == Parsed(Err(NotAnIdentifier), pos + 1)
  {
  }

  /** A function parameter that is not an identifier is an error naming it,
      whether it is the first parameter or follows any comma. */
  lemma ParameterMustBeIdentifier(t: seq<TokenKind>, pos: nat)
    requires pos < |t| && At(t, pos + 1) != RPAREN
    ensures !At(t, pos + 1).IDENTIFIER? ==>
      ParseFnParameters(t, pos) == Parsed(Err(ParameterNotIdentifier(At(t, pos + 1))), Advance(t, pos))
    ensures At(t, pos + 1).IDENTIFIER? && At(t, pos + 2 + 2 * |NamesAfter(t, pos + 1)|) == COMMA ==>
      var comma := pos + 2 + 2 * |NamesAfter(t, pos + 1)|;
      ParseFnParameters(t, pos) == Parsed(Err(ParameterNotIdentifier(At(t, comma + 1))), comma + 1)
  {
    FnParametersOutcome(t, pos);
  }
}
