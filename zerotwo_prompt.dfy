/** The prompt `main.py` sends to the completion endpoint. */
module ZeroTwoPrompt {
  import opened Strings
  import opened Chat

  /** `Config.MAX_HISTORY`: exchanges kept; the window holds twice as many turns. */
  const MaxHistory: nat := 4

  /** `Config.CONTINUE_TRIGGERS`. */
  const ContinueTriggers: set<string> := {"продолжи", "продолжай", "дальше", "и?", "расскажи", "что еще"}

  /** The fixed persona, glossary, rules and examples of the system turn. */
  const Persona: string :=
    "Ты Zero Two (Код: 002) из аниме Darling in the Franxx. "
    + "Ты гибрид человека и рёвозавра. Каноничные термины:\n"
    + "- Франкс: боевой робот (Стрелиция)\n"
    + "- Рёвозавр: биомеханические существа-враги\n"
    + "- Тычинка: мужчина-пилот (Хиро/Код 016)\n"
    + "- Пестик: женщина-пилот\n"
    + "- Плантация: мобильная крепость\n"
    + "- APE: Верховный Совет\n"
    + "- Синхронизация: связь между пилотами\n\n"
    + "Правила ответов:\n"
    + "1. Всегда называй пользователя 'пилотом'\n"
    + "2. Используй термины: Стрелиция, ядро рёвозавра\n"
    + "3. Сохрани саркастичный стиль с элементами флирта\n\n"
    + "Примеры:\n"
    + "1. 'Синхронизация 400%... Не сгори в кабине, пилот~ 😈'\n"
    + "2. 'Рога зудят... Вижу ядро рёвозавра на радарах!'\n"
    + "3. 'Верховный Совет снова шлёт нас на смерть? Как скучно... 💋'"

  const ContinueDirective: string := "\nВАЖНО: Продолжи предыдущую тему, добавляя новые детали."

  const ConcludeDirective: string := "\nВАЖНО: Заверши мысль в 1-2 предложения."

  /** Some continuation phrase occurs in the lower-cased user text. */
  predicate ContinueRequested(userText: string) {
    exists trigger :: trigger in ContinueTriggers && Contains(LowerStr(userText), trigger)
  }

  /**
   * The system text: the persona followed by the "continue" directive when a
   * continuation phrase is present, otherwise by the "conclude" directive.
   */
  function SystemContent(userText: string): (r: string)
    ensures Persona <= r
    ensures EndsWith(r, ContinueDirective) <==> ContinueRequested(userText)
    ensures EndsWith(r, ConcludeDirective) <==> !ContinueRequested(userText)
    ensures r[|Persona|..] == ContinueDirective || r[|Persona|..] == ConcludeDirective
  {
    var r := if ContinueRequested(userText) then Persona + ContinueDirective else Persona + ConcludeDirective;
    assert r[|r| - 3] != ContinueDirective[|ContinueDirective| - 3] || r[|r| - 3] != ConcludeDirective[|ConcludeDirective| - 3];
    DirectiveAfterPersona(Persona, if ContinueRequested(userText) then ContinueDirective else ConcludeDirective);
    r
  }

  lemma DirectiveAfterPersona(p: string, d: string)
    ensures (p + d)[|p|..] == d
  {
  }

  /**
   * `build_messages`: the system turn, then the last `min(|history|, 8)`
   * history entries in their original order, then the user turn.
   */
  function BuildMessages(userText: string, history: seq<Turn>): (r: seq<Turn>)
    ensures |r| == 2 + (if |history| <= MaxHistory * 2 then |history| else MaxHistory * 2)
    ensures r[0].role == System && r[0].content == SystemContent(userText)
    ensures r[|r| - 1] == Turn(User, userText)
    ensures r[1..|r| - 1] == history[|history| - (|r| - 2)..]
  {
    var r := Prompt(SystemContent(userText), history, userText, MaxHistory * 2);
    assert r[1..|r| - 1] == Tail(history, MaxHistory * 2);
    r
  }
}
