/** Tokens of the JDA shell (sys/jda/token.hxx). */
module JdaTokens {
  /** jda_number_t: arithmetic reads and writes the real part only. */
  datatype Number = Number(re: real, im: real, power: real)

  datatype Op = Sum | Sub | Mul | Div | Rem | Exponent

  datatype Token =
    | Num(value: Number)
    | Ident(name: string)
    | Str(text: string)
    | Assign
    | Dot
    | Colon
    | Function(name: string, argCount: nat)
    | Comma
    | LParen
    | RParen
    | Operator(op: Op)
    | LBrace
    | RBrace
    | Semicolon
    | Dummy
}
