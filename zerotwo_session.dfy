/**
 * The per-user state machine of `main.py`'s `handle_message`: ban check,
 * silence window, keyword triggers, the safety filter with its warn, silence
 * and ban transitions, and finally the completion with its shaping and the
 * history update. `Handle` specifies one message on values; `Session` is the
 * per-user `context.user_data` whose method follows the handler step by step.
 */
module ZeroTwoSession {
  import opened Strings
  import opened Chat
  import opened Regex
  import opened Moderation
  import opened ZeroTwoPrompt
  import opened ZeroTwoShaper

  /** `Config.WARN_LIMIT`. */
  const WarnLimit: nat := 3

  /** `Config.SILENT_TIMEOUT`, in seconds. */
  const SilentTimeout: real := 300.0

  /** The history is trimmed to `MAX_HISTORY * 2` entries. */
  const HistoryLimit: nat := MaxHistory * 2

  const SafetyResponses: seq<string> := [
    "Хи-хи~ Рога начинают гореть... Прекрати, а то сожгу дотла~ 🔥",
    "Ой, тычинка... Ты же не хочешь увидеть истинную форму рёвозавра? 😈",
    "Так близко к ядру Кёрю... Опасно играешь, Код 016~"
  ]

  const BanReply: string := "🚫 Синхронизация разорвана~"
  const MissingKeyReply: string := "💥 Системный сбой... API ключ не найден"
  const HttpErrorReply: string := "💥 Системный сбой... попробуй снова~"
  const TimeoutReply: string := "⏱\U{FE0F} Время синхронизации истекло... попробуй снова~"
  const ConnectionReply: string := "🌐 Проблемы с подключением к Верховному Совету..."
  const CrashReply: string := "💔 Критическое повреждение... опять..."

  /** `context.user_data`: the three keys the handler reads, with their defaults. */
  datatype UserData = UserData(warnings: nat, silentUntil: real, history: seq<Turn>)

  /** The state of a user the bot has not seen (or who has just sent `/start`). */
  const Fresh: UserData := UserData(0, 0.0, [])

  /** The random picks of one message: a safety line, and the shaping draws. */
  datatype Dice = Dice(safety: nat, shaping: Draws)

  predicate ValidDice(dice: Dice) {
    dice.safety < |SafetyResponses| && ValidDraws(dice.shaping)
  }

  /**
   * A completion request: the user text and the history stored when the
   * message arrived. The message list posted is `Messages()`.
   */
  datatype Request = Request(userText: string, history: seq<Turn>)
  {
    function Messages(): seq<Turn> {
      BuildMessages(userText, history)
    }
  }

  /**
   * What one message does: the new user data and ban set, the reply sent (if
   * any), and the request posted to the completion endpoint (if any).
   */
  datatype Step = Step(data: UserData, banned: set<BanEntry>, reply: Option<string>, request: Option<Request>)

  /** The reply for each way the completion call can fail. */
  function FailureReply(call: Completion): string
    requires !call.Completed?
  {
    match call
    case MissingKey => MissingKeyReply
    case HttpError(_) => HttpErrorReply
    case TimedOut => TimeoutReply
    case RequestFailed => ConnectionReply
    case Crashed => CrashReply
  }

  /**
   * One message of user `userId` with text `text` at time `now`. `call` is how
   * the completion ended for the messages posted, `rx` and `latn` the regex
   * and morphology behaviour, `dice` the random picks.
   */
  function Handle(d: UserData, banned: set<BanEntry>, userId: int, text: string, now: real,
                  call: Completion, rx: Substitution, latn: string -> bool, dice: Dice): Step
    requires ValidDice(dice)
  {
    if IsBanned(banned, userId) then Step(d, banned, None, None)
    else if d.silentUntil > now then Step(d, banned, None, None)
    else if TriggerReply(text).Some? then Step(d, banned, TriggerReply(text), None)
    else if CheckSafetyRules(text) then
      var w := d.warnings + 1;
      if w >= WarnLimit then Step(d.(warnings := w), banned + {BanEntryFor(userId)}, Some(BanReply), None)
      else Step(d.(warnings := w, silentUntil := now + SilentTimeout), banned, Some(SafetyResponses[dice.safety]), None)
    else Converse(d, banned, text, call, rx, latn, dice.shaping)
  }

  /**
   * The part of `handle_message` after every check has passed: post the
   * prompt, shape the answer and record the exchange, or report the failure.
   */
  function Converse(d: UserData, banned: set<BanEntry>, text: string, call: Completion,
                    rx: Substitution, latn: string -> bool, shaping: Draws): Step
    requires ValidDraws(shaping)
  {
    var request := Request(text, d.history);
    match call
    case MissingKey => Step(d, banned, Some(MissingKeyReply), None)
    case Completed(raw) =>
      var answer := Shaped(raw, rx, latn, shaping);
      Step(d.(history := RecordExchange(d.history, text, answer, HistoryLimit)), banned, Some(answer), Some(request))
    case _ => Step(d, banned, Some(FailureReply(call)), Some(request))
  }

  // ---------------------------------------------------------------------
  // The transitions, one lemma each
  // ---------------------------------------------------------------------

  /** A banned user, by number or by string form, is ignored and nothing changes. */
  lemma BannedUserIsIgnored(d: UserData, banned: set<BanEntry>, userId: int, text: string, now: real,
                            call: Completion, rx: Substitution, latn: string -> bool, dice: Dice)
    requires ValidDice(dice)
    requires Num(userId) in banned || Text(IntToString(userId)) in banned
    ensures Handle(d, banned, userId, text, now, call, rx, latn, dice) == Step(d, banned, None, None)
  {
  }

  /**
   * A message gets no reply exactly when the user is banned or still inside
   * the silence window; then no call is made and nothing changes.
   */
  lemma DroppedExactlyWhenBannedOrSilenced(d: UserData, banned: set<BanEntry>, userId: int, text: string, now: real,
                                           call: Completion, rx: Substitution, latn: string -> bool, dice: Dice)
    requires ValidDice(dice)
    ensures var s := Handle(d, banned, userId, text, now, call, rx, latn, dice);
      s.reply == None <==> IsBanned(banned, userId) || d.silentUntil > now
    ensures var s := Handle(d, banned, userId, text, now, call, rx, latn, dice);
      s.reply == None ==> s == Step(d, banned, None, None)
  {
  }

  /** A keyword trigger answers first, even for an unsafe text, and changes nothing. */
  lemma TriggerBypassesSafety(d: UserData, banned: set<BanEntry>, userId: int, text: string, now: real,
                              call: Completion, rx: Substitution, latn: string -> bool, dice: Dice, k: nat)
    requires ValidDice(dice)
    requires !IsBanned(banned, userId) && d.silentUntil <= now
    requires k < |KlaxoTriggers| && Contains(LowerStr(text), KlaxoTriggers[k].0)
    ensures var s := Handle(d, banned, userId, text, now, call, rx, latn, dice);
      s.data == d && s.banned == banned && s.request == None
      && s.reply.Some? && exists j :: 0 <= j <= k && s.reply == Some(KlaxoTriggers[j].1)
  {
  }

  /**
   * An unsafe message below the limit: one more warning, silence until
   * `now + 300`, one of the canned safety lines, no call, history and bans kept.
   */
  lemma UnsafeMessageWarnsAndSilences(d: UserData, banned: set<BanEntry>, userId: int, text: string, now: real,
                                      call: Completion, rx: Substitution, latn: string -> bool, dice: Dice)
    requires ValidDice(dice)
    requires !IsBanned(banned, userId) && d.silentUntil <= now
    requires TriggerReply(text) == None && CheckSafetyRules(text)
    requires d.warnings + 1 < WarnLimit
    ensures var s := Handle(d, banned, userId, text, now, call, rx, latn, dice);
      s.data == UserData(d.warnings + 1, now + SilentTimeout, d.history) && s.banned == banned
      && s.request == None && s.reply.Some? && s.reply.value in SafetyResponses
  {
  }

  /**
   * The unsafe message that reaches the limit bans the user's string id,
   * leaves the silence window alone, and every later message is ignored.
   */
  lemma LimitReachedBans(d: UserData, banned: set<BanEntry>, userId: int, text: string, now: real,
                         call: Completion, rx: Substitution, latn: string -> bool, dice: Dice,
                         later: string, laterTime: real, call2: Completion, dice2: Dice)
    requires ValidDice(dice) && ValidDice(dice2)
    requires !IsBanned(banned, userId) && d.silentUntil <= now
    requires TriggerReply(text) == None && CheckSafetyRules(text)
    requires d.warnings + 1 >= WarnLimit
    ensures var s := Handle(d, banned, userId, text, now, call, rx, latn, dice);
      s.data == d.(warnings := d.warnings + 1) && s.banned == banned + {Text(IntToString(userId))}
      && s.reply == Some(BanReply) && s.request == None
      && IsBanned(s.banned, userId)
      && Handle(s.data, s.banned, userId, later, laterTime, call2, rx, latn, dice2) == Step(s.data, s.banned, None, None)
  {
    BanIsTargeted(banned, userId, userId);
  }

  /**
   * A message that passes every check is sent: the request carries the text and
   * the stored history `build_messages` turns into the prompt.
   */
  lemma SafeMessageIsSent(d: UserData, banned: set<BanEntry>, userId: int, text: string, now: real,
                          call: Completion, rx: Substitution, latn: string -> bool, dice: Dice)
    requires ValidDice(dice)
    requires !IsBanned(banned, userId) && d.silentUntil <= now
    requires TriggerReply(text) == None && !CheckSafetyRules(text)
    ensures var s := Handle(d, banned, userId, text, now, call, rx, latn, dice);
      s.banned == banned && s.data.warnings == d.warnings && s.data.silentUntil == d.silentUntil
      && (s.request.Some? <==> !call.MissingKey?)
      && (s.request.Some? ==> s.request.value == Request(text, d.history))
      && (call.Completed? ==> s.reply == Some(Shaped(call.raw, rx, latn, dice.shaping)) && s.reply.value != [])
      && (!call.Completed? ==> s.reply == Some(FailureReply(call)) && s.data == d)
  {
    var s := Handle(d, banned, userId, text, now, call, rx, latn, dice);
    var request := Request(text, d.history);
    match call
    case Completed(raw) =>
      var answer := Shaped(raw, rx, latn, dice.shaping);
      ShapedIsNeverEmpty(raw, rx, latn, dice.shaping);
      assert s == Step(d.(history := RecordExchange(d.history, text, answer, HistoryLimit)), banned, Some(answer), Some(request));
    case MissingKey =>
      assert s == Step(d, banned, Some(MissingKeyReply), None);
    case _ =>
      assert s == Step(d, banned, Some(FailureReply(call)), Some(request));
  }

  /**
   * The history after step `s` from `d`: within eight entries, and when it
   * changed, the call completed, a reply was sent and a request posted, and the
   * history ends with the user turn and that reply.
   */
  predicate HistoryFollows(s: Step, d: UserData, text: string, call: Completion) {
    var h := s.data.history;
    && |h| <= HistoryLimit
    && (h != d.history ==>
          call.Completed? && s.reply.Some? && s.request.Some?
          && |h| >= 2 && h[|h| - 2] == Turn(User, text) && h[|h| - 1] == Turn(Assistant, s.reply.value))
  }

  /**
   * Only a completed call changes the history: the exchange is appended, the
   * history stays within eight entries and ends with the pair just exchanged.
   */
  lemma HistoryRecordsCompletedExchanges(d: UserData, banned: set<BanEntry>, userId: int, text: string, now: real,
                                         call: Completion, rx: Substitution, latn: string -> bool, dice: Dice)
    requires ValidDice(dice)
    requires |d.history| <= HistoryLimit
    ensures HistoryFollows(Handle(d, banned, userId, text, now, call, rx, latn, dice), d, text, call)
  {
    var s := Handle(d, banned, userId, text, now, call, rx, latn, dice);
    if IsBanned(banned, userId) || d.silentUntil > now || TriggerReply(text).Some? || CheckSafetyRules(text) {
      assert s.data.history == d.history;
    } else {
      assert s == Converse(d, banned, text, call, rx, latn, dice.shaping);
      ConverseRecords(d, banned, text, call, rx, latn, dice.shaping);
    }
  }

  /** `HistoryRecordsCompletedExchanges` for the part after the checks. */
  lemma ConverseRecords(d: UserData, banned: set<BanEntry>, text: string, call: Completion,
                        rx: Substitution, latn: string -> bool, shaping: Draws)
    requires ValidDraws(shaping) && |d.history| <= HistoryLimit
    ensures HistoryFollows(Converse(d, banned, text, call, rx, latn, shaping), d, text, call)
  {
    var s := Converse(d, banned, text, call, rx, latn, shaping);
    if call.Completed? {
      var answer := Shaped(call.raw, rx, latn, shaping);
      assert s == Step(d.(history := RecordExchange(d.history, text, answer, HistoryLimit)), banned,
                       Some(answer), Some(Request(text, d.history)));
      RecordedStepFollows(s, d, text, call, answer);
    } else {
      assert s.data == d;
    }
  }

  /** A step that recorded `text` and its reply `answer` keeps `HistoryFollows`. */
  lemma RecordedStepFollows(s: Step, d: UserData, text: string, call: Completion, answer: string)
    requires |d.history| <= HistoryLimit && call.Completed?
    requires s.data.history == RecordExchange(d.history, text, answer, HistoryLimit)
    requires s.reply == Some(answer) && s.request.Some?
    ensures HistoryFollows(s, d, text, call)
  {
  }

  /** Warnings never decrease, and rise by one exactly on an unsafe, untriggered message. */
  lemma WarningsCountUnsafeMessages(d: UserData, banned: set<BanEntry>, userId: int, text: string, now: real,
                                    call: Completion, rx: Substitution, latn: string -> bool, dice: Dice)
    requires ValidDice(dice)
    ensures var s := Handle(d, banned, userId, text, now, call, rx, latn, dice);
      s.data.warnings == d.warnings + (if !IsBanned(banned, userId) && d.silentUntil <= now
                                          && TriggerReply(text) == None && CheckSafetyRules(text) then 1 else 0)
  {
  }

  /**
   * Three unsafe messages, each sent after the previous silence ran out, get
   * a new user banned; the first two are answered with safety lines.
   */
  lemma ThirdStrikeBans(banned: set<BanEntry>, userId: int, text: string, t0: real, t1: real, t2: real,
                        call: Completion, rx: Substitution, latn: string -> bool, dice: Dice)
    requires ValidDice(dice) && !IsBanned(banned, userId)
    requires TriggerReply(text) == None && CheckSafetyRules(text)
    requires 0.0 <= t0 && t0 + SilentTimeout <= t1 && t1 + SilentTimeout <= t2
    ensures var s0 := Handle(Fresh, banned, userId, text, t0, call, rx, latn, dice);
      var s1 := Handle(s0.data, s0.banned, userId, text, t1, call, rx, latn, dice);
      var s2 := Handle(s1.data, s1.banned, userId, text, t2, call, rx, latn, dice);
      s0.reply.Some? && s0.reply.value in SafetyResponses && s0.data.silentUntil == t0 + SilentTimeout
      && s1.reply.Some? && s1.reply.value in SafetyResponses && s1.data.silentUntil == t1 + SilentTimeout
      && s2.reply == Some(BanReply) && IsBanned(s2.banned, userId) && s2.data.warnings == 3
  {
    BanIsTargeted(banned, userId, userId);
  }

  /** Inside the silence window even an unsafe message costs no warning. */
  lemma SilenceShieldsWarnings(d: UserData, banned: set<BanEntry>, userId: int, text: string, now: real,
                               call: Completion, rx: Substitution, latn: string -> bool, dice: Dice)
    requires ValidDice(dice) && now < d.silentUntil
    ensures Handle(d, banned, userId, text, now, call, rx, latn, dice).data == d
  {
  }

  // ---------------------------------------------------------------------
  // The handler on mutable state
  // ---------------------------------------------------------------------

  /** One user's `context.user_data`. */
  class Session {
    var warnings: nat
    var silentUntil: real
    var history: seq<Turn>

    function Data(): UserData
      reads this
    {
      UserData(warnings, silentUntil, history)
    }

    constructor ()
      ensures Data() == Fresh
    {
      warnings := 0;
      silentUntil := 0.0;
      history := [];
    }

    /** `context.user_data.clear()` in `/start`: warnings, silence and history are forgotten. */
    method Clear()
      modifies this
      ensures Data() == Fresh
    {
      warnings := 0;
      silentUntil := 0.0;
      history := [];
    }

    /**
     * An unsafe message: one more warning; at the limit the user's id is
     * banned, below it the user is silenced and gets safety line `pick`.
     */
    method Strike(bans: BanList, userId: int, now: real, pick: nat) returns (reply: string)
      requires pick < |SafetyResponses|
      modifies this, bans
      ensures warnings == old(warnings) + 1 && history == old(history)
      ensures warnings >= WarnLimit ==>
        bans.banned == old(bans.banned) + {BanEntryFor(userId)} && silentUntil == old(silentUntil) && reply == BanReply
      ensures warnings < WarnLimit ==>
        bans.banned == old(bans.banned) && silentUntil == now + SilentTimeout && reply == SafetyResponses[pick]
    {
      warnings := warnings + 1;
      if warnings >= WarnLimit {
        bans.Add(BanEntryFor(userId));
        reply := BanReply;
        return;
      }
      reply := SafetyResponses[pick];
      silentUntil := now + SilentTimeout;
    }

    /** The history update: append the exchange, then keep the last eight entries. */
    method Remember(text: string, answer: string)
      modifies this
      ensures Data() == old(Data()).(history := RecordExchange(old(history), text, answer, HistoryLimit))
    {
      history := history + [Turn(User, text), Turn(Assistant, answer)];
      if |history| > HistoryLimit {
        history := history[|history| - HistoryLimit..];
      }
    }

    /** The completion call and what follows it, once every check has passed. */
    method Answer(bans: BanList, text: string, call: Completion, rx: Substitution, latn: string -> bool, shaping: Draws)
      returns (reply: Option<string>, request: Option<Request>)
      requires ValidDraws(shaping)
      modifies this
      ensures var s := Converse(old(Data()), bans.banned, text, call, rx, latn, shaping);
        Data() == s.data && reply == s.reply && request == s.request
    {
      var before := Data();
      var prompt := Request(text, history);
      if call.MissingKey? {
        reply, request := Some(MissingKeyReply), None;
        return;
      }
      request := Some(prompt);
      if call.Completed? {
        var answer := Shape(call.raw, rx, latn, shaping);
        Remember(text, answer);
        reply := Some(answer);
        assert Converse(before, bans.banned, text, call, rx, latn, shaping)
          == Step(Data(), bans.banned, reply, request);
      } else {
        reply := Some(FailureReply(call));
      }
    }

    /** `handle_message` for this user, against the shared ban list. */
    method HandleMessage(bans: BanList, userId: int, text: string, now: real, call: Completion,
                         rx: Substitution, latn: string -> bool, dice: Dice)
      returns (reply: Option<string>, request: Option<Request>)
      requires ValidDice(dice)
      modifies this, bans
      ensures var s := Handle(old(Data()), old(bans.banned), userId, text, now, call, rx, latn, dice);
        Data() == s.data && bans.banned == s.banned && reply == s.reply && request == s.request
    {
      reply, request := None, None;
      var before := Data();
      var banned := bans.banned;
      if IsBanned(banned, userId) || silentUntil > now {
        assert Handle(before, banned, userId, text, now, call, rx, latn, dice) == Step(before, banned, None, None);
        return;
      }
      var triggered := MatchTrigger(text);
      if triggered.Some? {
        reply := triggered;
        assert Handle(before, banned, userId, text, now, call, rx, latn, dice) == Step(before, banned, reply, None);
        return;
      }
      if CheckSafetyRules(text) {
        var r := Strike(bans, userId, now, dice.safety);
        reply := Some(r);
        assert Handle(before, banned, userId, text, now, call, rx, latn, dice) == Step(Data(), bans.banned, reply, None);
        return;
      }
      assert Handle(before, banned, userId, text, now, call, rx, latn, dice)
        == Converse(before, banned, text, call, rx, latn, dice.shaping);
      reply, request := Answer(bans, text, call, rx, latn, dice.shaping);
    }
  }
}
