/** The language selection the pages capture and send as the `config` form field. */
module Lang {
  /** One entry of the language picker; `symbol` is the only member this core reads. */
  datatype Language = Language(symbol: string)

  /** `LangObj`: the from/to pair captured when speech ends. */
  datatype LangObj = LangObj(fromLanguage: Language, toLanguage: Language)
}
