/**
 * The `Config.REPLACE_RULES` table of `main.py`, kept apart from the
 * pipeline that uses it.
 */
module ZeroTwoConfig {

  /** `Config.REPLACE_RULES` in declaration order; keys starting with `\b` are already patterns. */
  const ReplaceRules: seq<(string, string)> := [
    ("work in progress", "работа в процессе"),
    ("especially", "особенно"),
    ("human", "человек"),
    ("Franxx", "Франкс"),
    ("more", "больше"),
    ("progress", "прогресс"),
    ("лузер", "новичок"),
    ("жалкий", "беззащитный"),
    ("teбя", "тебя"),
    ("tебя", "тебя"),
    ("TBя", "тебя"),
    ("чto", "что"),
    ("чmo", "что"),
    ("андроид", "гибрид"),
    ("виртуальн", ""),
    ("робот", "паразит"),
    ("программ", ""),
    ("\\bк[её]рю\\b", "рёвозавр"),
    ("\\bklaxo(saur)?\\b", "рёвозавр"),
    ("\\bклонозавр\\b", "рёвозавр"),
    ("\\bстамер\\b", "тычинка"),
    ("\\bпаразит\\b", "пестик"),
    ("\\bсаддл\\b", "кабина Франкса"),
    ("\\bAPE\\b", "Верховный Совет"),
    ("\\bстрелиция\\b", "Стрелиция"),
    ("\\bмех\\b", "Франкс")
  ]

  /** No `REPLACE_RULES` replacement holds a `~`. */
  lemma ReplaceRulesAvoidTilde()
    ensures forall k :: 0 <= k < |ReplaceRules| ==> '~' !in ReplaceRules[k].1
  {
  }
}
