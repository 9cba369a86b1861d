/** Format specifications, shared by the parser and the writers. */
module FormatSpecs {

  datatype Align = AlignDefault | AlignLeft | AlignRight | AlignCenter | AlignNumeric

  /** precision is -1 and typ is NUL when not given. */
  datatype FormatSpec = FormatSpec(
    width: nat, fill: char, align: Align,
    sign: bool, plus: bool, minus: bool, hash: bool,
    precision: int, typ: char)

  const PLAIN := FormatSpec(0, ' ', AlignDefault, false, false, false, false, -1, '\0')
}
