/** What the parser promises: how programs and blocks treat failing
    statements, and the shapes precedence climbing gives to expressions. */
module ParserProps {
  import opened Results
  import opened Tokens
  import opened Precedences
  import opened Ast
  import opened ParserSpec

  /** The outcome of every statement a statement loop starting at pos
      parses: up to EOF (and, inside a block, `}`), or up to and including
      the first abort. */
  function StatementOutcomes(t: seq<TokenKind>, pos: nat, inBlock: bool): seq<PResult<Statement>>
    requires pos <= |t|
    decreases |t| - pos
  {
    if At(t, pos) == EOF || (inBlock && At(t, pos) == RBRACE) then []
    else
      var s := ParseStatement(t, pos);
      if s.out.Panic? then [s.out] else [s.out] + StatementOutcomes(t, Advance(t, s.pos), inBlock)
  }

  /** The statements that parsed, in order. */
  function Oks(rs: seq<PResult<Statement>>): seq<Statement>
  {
    if rs == [] then [] else (if rs[0].Ok? then [rs[0].value] else []) + Oks(rs[1..])
  }

  /** One error per statement that failed, in order. */
  function Errs(rs: seq<PResult<Statement>>): seq<ParseError>
  {
    if rs == [] then [] else (if rs[0].Err? then [rs[0].error] else []) + Errs(rs[1..])
  }

  predicate Aborts(rs: seq<PResult<Statement>>)
  {
    |rs| > 0 && rs[|rs| - 1].Panic?
  }

  /** No error is recorded exactly when no statement failed. */
  lemma {:induction false} ErrsEmpty(rs: seq<PResult<Statement>>)
    ensures Errs(rs) == [] <==> forall i :: 0 <= i < |rs| ==> !rs[i].Err?
  {
    if rs != [] {
      ErrsEmpty(rs[1..]);
      if !rs[0].Err? {
        forall i | 1 <= i < |rs| ensures rs[i] == rs[1..][i - 1] { }
      }
    }
  }

  /** What parse_program returns after the statements with outcomes rs,
      having collected stmts and errors before them. */
  function ProgramVerdict(rs: seq<PResult<Statement>>, stmts: seq<Statement>, errors: seq<ParseError>): ProgramOutcome
  {
    if Aborts(rs) then Aborted(rs[|rs| - 1].error)
    else if errors + Errs(rs) == [] then Accepted(Program(stmts + Oks(rs)))
    else Rejected(errors + Errs(rs))
  }

  /** What a block returns after the statements with outcomes rs, having
      collected stmts before them. */
  function BlockVerdict(rs: seq<PResult<Statement>>, stmts: seq<Statement>): PResult<Block>
  {
    if Aborts(rs) then Panic(rs[|rs| - 1].error) else Ok(Block(stmts + Oks(rs)))
  }

  /** The statements kept and the errors recorded after one more outcome. */
  function KeepOk(r: PResult<Statement>, stmts: seq<Statement>): seq<Statement>
  {
    if r.Ok? then stmts + [r.value] else stmts
  }

  function KeepErr(r: PResult<Statement>, errors: seq<ParseError>): seq<ParseError>
  {
    if r.Err? then errors + [r.error] else errors
  }

  lemma OutcomesCons(r: PResult<Statement>, rest: seq<PResult<Statement>>, stmts: seq<Statement>, errors: seq<ParseError>)
    requires !r.Panic?
    ensures KeepOk(r, stmts) + Oks(rest) == stmts + Oks([r] + rest)
    ensures KeepErr(r, errors) + Errs(rest) == errors + Errs([r] + rest)
    ensures Aborts([r] + rest) == Aborts(rest)
    ensures Aborts(rest) ==> ([r] + rest)[|[r] + rest| - 1] == rest[|rest| - 1]
  {
    assert ([r] + rest)[1..] == rest && ([r] + rest)[0] == r;
  }

  /** Folding one statement that did not abort into the verdicts. */
  lemma VerdictCons(r: PResult<Statement>, rest: seq<PResult<Statement>>, stmts: seq<Statement>, errors: seq<ParseError>)
    requires !r.Panic?
    ensures ProgramVerdict([r] + rest, stmts, errors) == ProgramVerdict(rest, KeepOk(r, stmts), KeepErr(r, errors))
    ensures BlockVerdict([r] + rest, stmts) == BlockVerdict(rest, KeepOk(r, stmts))
  {
    OutcomesCons(r, rest, stmts, errors);
  }

  /** The first statement of a loop that did not abort. */
  lemma OutcomesStep(t: seq<TokenKind>, pos: nat, inBlock: bool)
    requires pos <= |t| && At(t, pos) != EOF && !(inBlock && At(t, pos) == RBRACE)
    requires !ParseStatement(t, pos).out.Panic?
    ensures var s := ParseStatement(t, pos);
      StatementOutcomes(t, pos, inBlock) == [s.out] + StatementOutcomes(t, Advance(t, s.pos), inBlock)
  {
  }

  lemma ProgramLoopStep(t: seq<TokenKind>, pos: nat, stmts: seq<Statement>, errors: seq<ParseError>)
    requires pos <= |t| && At(t, pos) != EOF && !ParseStatement(t, pos).out.Panic?
    ensures var s := ParseStatement(t, pos);
      ProgramLoop(t, pos, stmts, errors) == ProgramLoop(t, Advance(t, s.pos), KeepOk(s.out, stmts), KeepErr(s.out, errors))
  {
  }

  lemma BlockLoopStep(t: seq<TokenKind>, pos: nat, stmts: seq<Statement>)
    requires pos <= |t| && At(t, pos) != EOF && At(t, pos) != RBRACE && !ParseStatement(t, pos).out.Panic?
    ensures var s := ParseStatement(t, pos);
      BlockLoop(t, pos, stmts) == BlockLoop(t, Advance(t, s.pos), KeepOk(s.out, stmts))
  {
  }

  /** parse_program records every failing statement and keeps going; only an
      abort stops it early. */
  lemma {:induction false} ProgramLoopSummary(t: seq<TokenKind>, pos: nat, stmts: seq<Statement>, errors: seq<ParseError>)
    requires pos <= |t|
    ensures ProgramLoop(t, pos, stmts, errors) == ProgramVerdict(StatementOutcomes(t, pos, false), stmts, errors)
    decreases |t| - pos
  {
    if At(t, pos) != EOF {
      var s := ParseStatement(t, pos);
      if !s.out.Panic? {
        var next := Advance(t, s.pos);
        ProgramLoopSummary(t, next, KeepOk(s.out, stmts), KeepErr(s.out, errors));
        OutcomesStep(t, pos, false);
        ProgramLoopStep(t, pos, stmts, errors);
        VerdictCons(s.out, StatementOutcomes(t, next, false), stmts, errors);
      }
    }
  }

  /** parse_program succeeds exactly when no statement failed or aborted,
      and then holds every statement in order; otherwise it returns one
      error per failing statement, in order. */
  lemma ParseProgramSummary(t: seq<TokenKind>)
    ensures var rs := StatementOutcomes(t, 0, false);
      && (ParseProgram(t).Accepted? <==> !Aborts(rs) && forall i :: 0 <= i < |rs| ==> !rs[i].Err?)
      && (ParseProgram(t).Accepted? ==> ParseProgram(t).program.statements == Oks(rs))
      && (ParseProgram(t).Rejected? <==> !Aborts(rs) && Errs(rs) != [])
      && (ParseProgram(t).Rejected? ==> ParseProgram(t).errors == Errs(rs))
      && (ParseProgram(t).Aborted? <==> Aborts(rs))
  {
    ProgramLoopSummary(t, 0, [], []);
    ErrsEmpty(StatementOutcomes(t, 0, false));
  }

  /** parse_block_statement keeps the statements that parsed and silently
      drops the ones that failed; only an abort escapes. */
  lemma {:induction false} BlockLoopSummary(t: seq<TokenKind>, pos: nat, stmts: seq<Statement>)
    requires pos <= |t|
    ensures BlockLoop(t, pos, stmts).out == BlockVerdict(StatementOutcomes(t, pos, true), stmts)
    decreases |t| - pos
  {
    if At(t, pos) != RBRACE && At(t, pos) != EOF {
      var s := ParseStatement(t, pos);
      if !s.out.Panic? {
        var next := Advance(t, s.pos);
        BlockLoopSummary(t, next, KeepOk(s.out, stmts));
        OutcomesStep(t, pos, true);
        BlockLoopStep(t, pos, stmts);
        VerdictCons(s.out, StatementOutcomes(t, next, true), stmts, []);
      }
    } else {
      assert stmts + Oks([]) == stmts;
    }
  }

  /** A block never fails with an error of its own. */
  lemma ParseBlockNeverErrs(t: seq<TokenKind>, pos: nat)
    requires pos <= |t|
    ensures !ParseBlock(t, pos).out.Err?
    ensures ParseBlock(t, pos).out.Ok? ==>
      ParseBlock(t, pos).out.value.statements == Oks(StatementOutcomes(t, Advance(t, pos), true))
  {
    BlockLoopSummary(t, Advance(t, pos), []);
  }
}
