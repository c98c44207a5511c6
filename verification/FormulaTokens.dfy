/** The tokens of the formula language. */
module FormulaTokens {

  datatype Kind =
    | Operator | StringLiteral | Identifier | Integer | Decimal | LParens | RParens | LSquare | RSquare
    | Comma | Semicolon | Whitespace | Eol | Keyword | Comment | Pointer

  datatype Token = Token(kind: Kind, text: string)
}
