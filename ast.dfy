/** The syntax tree the parser builds and the compiler walks. Each composite
    node owns its children; the tree is acyclic by construction. */
module Ast {
  import opened Results
  import opened Tokens

  datatype Program = Program(statements: seq<Statement>)

  datatype Statement =
    | Let(name: string, value: Expression)
    | Return(value: Expression)
    | ExprStmt(expr: Expression)

  datatype Block = Block(statements: seq<Statement>)

  datatype Expression =
    | Identifier(name: string)
    | Lit(literal: Literal)
    | Prefix(op: TokenKind, operand: Expression)
    | Infix(op: TokenKind, left: Expression, right: Expression)
    | If(condition: Expression, consequent: Block, alternate: Option<Block>)
    | Function(parameters: seq<string>, body: Block)
    | Call(callee: Expression, arguments: seq<Expression>)
    | Index(collection: Expression, index: Expression)

  datatype Literal =
    | Integer(i: int)
    | Boolean(b: bool)
    | Str(s: string)
    | Array(elements: seq<Expression>)
    | Hash(pairs: seq<(Expression, Expression)>)

  /** What `parse` hands to `compile`. */
  datatype Node =
    | ProgramNode(program: Program)
    | StatementNode(statement: Statement)
    | ExpressionNode(expression: Expression)
}
