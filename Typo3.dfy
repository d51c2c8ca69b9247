/** What the controller reads from TYPO3: the table configuration array
    (TCA) and the localisation service. Both are given as plain values. */
module Typo3 {
  import opened Php

  /** The outcome of `LanguageService::sL($input)`: the translated string, or
      an `InvalidArgumentException`. */
  datatype Translation = Throws | Translated(text: string)

  /** The `ctrl` section of one table's TCA: its `title` and, when set, its
      `rootLevel`. */
  datatype Ctrl = Ctrl(title: string, rootLevel: Option<Value>)

  /** One entry of a table's TCA `columns`: its `label` (here `caption`, as `label` is a Dafny keyword) and, when set, its
      `config.eval` list. */
  datatype Column = Column(caption: string, eval: Option<string>)
}
