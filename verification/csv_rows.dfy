/** The shape both sheet readers of src/modules/data-loader.js share: a
    parsed CSV row is a list of cell texts, and reading past its end gives
    `undefined`, which the readers turn into `''`. */
module CsvRows {
  /** One CSV row; a cell past the end is `undefined`. */
  type Row = seq<string>

  /** `String(r[k] || '')`: a missing cell reads as `''`. */
  function Cell(r: Row, k: nat): (c: string)
    ensures k >= |r| ==> c == ""
  {
    if k < |r| then r[k] else ""
  }
}
