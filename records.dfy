/** The record every provider path hands back to the dispatcher
    (`TranslateResult` of the translator's main module). */
module Records {

  /** One translated piece: the text that was sent, its translation, and any
      alternative translations. */
  datatype TranslateResult = TranslateResult(orig: string, trans: string, alter: seq<string>)
}
