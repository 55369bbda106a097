/** The requested styling and the per-call options. */
module FormatTypes {
  import opened Wrappers

  datatype Size = NormalSize | H1 | H2 | H3 | H4 | H5

  datatype Font = NormalFont | Serif | Monospace | Script

  /**
   * A formatting request. `underlinePhrase` is optional in the interface; an
   * absent value reads as false, which is what the converter's truthiness
   * test makes of it.
   */
  datatype TextFormat = TextFormat(
    bold: bool,
    italic: bool,
    underline: bool,
    underlinePhrase: bool,
    strikethrough: bool,
    size: Size,
    font: Font)

  /** Options of one conversion; an absent `skipSpacesForCombining` defaults to true. */
  datatype TransformOptions = TransformOptions(skipSpacesForCombining: Option<bool>)

  const DefaultOptions: TransformOptions := TransformOptions(None)

  /** `const { skipSpacesForCombining = true } = options` */
  function SkipSpaces(o: TransformOptions): bool {
    o.skipSpacesForCombining.GetOr(true)
  }

  /** The optional `{ underline?, strikethrough? }` of the table-forcing entry point; absent reads as false. */
  datatype CombiningOptions = CombiningOptions(underline: bool, strikethrough: bool)
}
