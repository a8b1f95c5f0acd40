/** Cell values shared by every stage of the deduplication engine. */
module Values {

  /** An optional value: `None` stands for a pandas cell holding `None`. */
  datatype Option<+T> = None | Some(value: T)

  /**
   * A cell of the table. `Text` is a Python `str`; `Number` stands for every
   * cell value that is not a string (an integer id, a float). A text never equals
   * a number, so a numeric item code never collides with a normalised name, while a
   * textual one can. Missing values (NaN, which equals nothing) are not modelled.
   */
  datatype Value = Text(s: string) | Number(n: int)
}
