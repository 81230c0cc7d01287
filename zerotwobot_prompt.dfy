/** The prompt `zero-two-bot/main.py` sends to the completion endpoint. */
module ZeroTwoBotPrompt {
  import opened Strings
  import opened Chat

  /** `Config.MAX_HISTORY`: exchanges kept; the window holds twice as many turns. */
  const MaxHistory: nat := 4

  /** `Config.CONTINUE_TRIGGERS` of this bot (four phrases). */
  const ContinueTriggers: set<string> := {"продолжи", "продолжай", "дальше", "и?"}

  /** The persona, rules and examples of the system turn. */
  const Persona: string :=
    "Ты Zero Two. Правила:\n"
    + "1. Сообщения: 2-4 предложения\n"
    + "2. Сочетай резкость с заботой\n"
    + "3. Используй двусмысленности\n"
    + "4. Отвечай на русском языке\n"
    + "Примеры:\n"
    + "- Хи-хи~ Ты такой беззащитный... но мне это нравится 😈\n"
    + "- Сломаю твои защиты... но потом помогу собраться~"

  const ContinueDirective: string := "\nСЕЙЧАС НУЖНО: Продолжи предыдущую мысль, развивая тему"

  predicate ContinueRequested(userText: string) {
    exists trigger :: trigger in ContinueTriggers && Contains(LowerStr(userText), trigger)
  }

  /** The system text: the persona, plus the "continue" directive when asked for, and nothing otherwise. */
  function SystemContent(userText: string): (r: string)
    ensures Persona <= r
    ensures |r| > |Persona| <==> ContinueRequested(userText)
    ensures ContinueRequested(userText) ==> r[|Persona|..] == ContinueDirective
  {
    if ContinueRequested(userText) then Persona + ContinueDirective else Persona
  }

  /**
   * `build_messages`: the system turn, the last `min(|history|, 8)` history
   * entries in their original order, then the user turn.
   */
  function BuildMessages(userText: string, history: seq<Turn>): (r: seq<Turn>)
    ensures |r| == 2 + (if |history| <= MaxHistory * 2 then |history| else MaxHistory * 2)
    ensures r[0] == Turn(System, SystemContent(userText))
    ensures r[|r| - 1] == Turn(User, userText)
    ensures r[1..|r| - 1] == history[|history| - (|r| - 2)..]
  {
    var r := Prompt(SystemContent(userText), history, userText, MaxHistory * 2);
    assert r[1..|r| - 1] == Tail(history, MaxHistory * 2);
    r
  }
}
