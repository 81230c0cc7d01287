/**
 * `handle_message` of `zero-two-bot/main.py`: every text message gets an
 * answer; the history grows only when the completion call succeeds. This bot
 * has no ban list, no safety filter and no trigger table.
 */
module ZeroTwoBotSession {
  import opened Strings
  import opened Chat
  import opened ZeroTwoBotPrompt
  import opened ZeroTwoBotShaper

  /** History entries kept per user: two per exchange. */
  const HistoryLimit: nat := MaxHistory * 2

  /** The reply to a non-200 status. */
  const ApiErrorReply: string := "💥 Системный " + "сбой... попробуй снова~"

  /** The reply when anything raises inside `handle_message`. */
  const CrashReply: string := "💔 Критическое " + "повреждение... опять..."

  /** What one message does: the new history, the reply, and the message list posted (if any). */
  datatype Exchange = Exchange(history: seq<Turn>, reply: string, request: Option<seq<Turn>>)

  /**
   * `handle_message` for one text. A missing `MISTRAL_API_KEY` raises before
   * the post, so no request is made; every other outcome follows the post of
   * `build_messages`.
   */
  function Respond(history: seq<Turn>, text: string, call: Completion, d: LiteDraws): Exchange
    requires ValidLiteDraws(d)
  {
    var messages := BuildMessages(text, history);
    match call
    case Completed(raw) =>
      var answer := ShapedLite(raw, d);
      Exchange(RecordExchange(history, text, answer, HistoryLimit), answer, Some(messages))
    case HttpError(_) => Exchange(history, ApiErrorReply, Some(messages))
    case MissingKey => Exchange(history, CrashReply, None)
    case _ => Exchange(history, CrashReply, Some(messages))
  }

  /** Every message is answered with a non-empty text of at most 180 characters. */
  lemma EveryMessageIsAnswered(history: seq<Turn>, text: string, call: Completion, d: LiteDraws)
    requires ValidLiteDraws(d)
    ensures var e := Respond(history, text, call, d); e.reply != [] && |e.reply| <= ZeroTwoBotShaper.MaxLength
  {
    if call.Completed? {
      LiteReplyBounds(call.raw, d);
    }
  }

  /** A failed call leaves the history as it was, and the failure text says which kind of failure. */
  lemma FailureKeepsHistory(history: seq<Turn>, text: string, call: Completion, d: LiteDraws)
    requires ValidLiteDraws(d) && !call.Completed?
    ensures Respond(history, text, call, d).history == history
    ensures Respond(history, text, call, d).reply == (if call.HttpError? then ApiErrorReply else CrashReply)
  {
  }

  /**
   * An exchange that recorded `text` and `answer`: it answers with `answer`,
   * its history has grown by two entries up to eight, ends with the user turn
   * and the answer, and before them keeps the newest entries of the old history.
   */
  predicate Recorded(e: Exchange, history: seq<Turn>, text: string, answer: string) {
    && e.reply == answer
    && |e.history| == (if |history| + 2 <= HistoryLimit then |history| + 2 else HistoryLimit)
    && e.history[|e.history| - 2] == Turn(User, text) && e.history[|e.history| - 1] == Turn(Assistant, answer)
    && e.history[..|e.history| - 2] == history[|history| - (|e.history| - 2)..]
  }

  /**
   * A completed call appends the user text and the shaped reply to the
   * history, drops the oldest entries beyond eight, and answers with that reply.
   */
  lemma CompletedCallIsRecorded(history: seq<Turn>, text: string, raw: string, d: LiteDraws)
    requires ValidLiteDraws(d)
    ensures Recorded(Respond(history, text, Completed(raw), d), history, text, ShapedLite(raw, d))
  {
    RespondToCompleted(history, text, raw, d);
    ExchangeIsRecorded(Respond(history, text, Completed(raw), d), history, text, ShapedLite(raw, d));
  }

  /** `Respond` on a completed call, spelled out. */
  lemma RespondToCompleted(history: seq<Turn>, text: string, raw: string, d: LiteDraws)
    requires ValidLiteDraws(d)
    ensures var answer := ShapedLite(raw, d);
      Respond(history, text, Completed(raw), d)
      == Exchange(RecordExchange(history, text, answer, HistoryLimit), answer, Some(BuildMessages(text, history)))
  {
  }

  /** What `RecordExchange` promises, read off an exchange that used it. */
  lemma ExchangeIsRecorded(e: Exchange, history: seq<Turn>, text: string, answer: string)
    requires e.history == RecordExchange(history, text, answer, HistoryLimit) && e.reply == answer
    ensures Recorded(e, history, text, answer)
  {
  }

  /**
   * The message list posted is the system turn, the stored history (at most
   * eight entries) and the user turn; with no key set nothing is posted.
   */
  lemma RequestShowsHistory(history: seq<Turn>, text: string, call: Completion, d: LiteDraws)
    requires ValidLiteDraws(d) && |history| <= HistoryLimit
    ensures var e := Respond(history, text, call, d);
      (e.request.None? <==> call.MissingKey?)
      && (e.request.Some? ==> e.request.value == [Turn(System, SystemContent(text))] + history + [Turn(User, text)])
  {
    var m := BuildMessages(text, history);
    assert m == [m[0]] + m[1..|m| - 1] + [m[|m| - 1]];
  }

  /** A history of at most eight entries stays so, whatever the call does. */
  lemma HistoryStaysBounded(history: seq<Turn>, text: string, call: Completion, d: LiteDraws)
    requires ValidLiteDraws(d) && |history| <= HistoryLimit
    ensures |Respond(history, text, call, d).history| <= HistoryLimit
  {
  }

  /**
   * After a completed exchange, the next prompt shows that exchange right
   * before the new user turn.
   */
  lemma NextPromptFollowsUp(history: seq<Turn>, text: string, raw: string, d: LiteDraws, next: string)
    requires ValidLiteDraws(d)
    ensures var e := Respond(history, text, Completed(raw), d);
      var p := BuildMessages(next, e.history);
      |p| >= 4 && p[|p| - 3] == Turn(User, text) && p[|p| - 2] == Turn(Assistant, e.reply)
  {
    var e := Respond(history, text, Completed(raw), d);
    NextPromptEndsWithLastExchange(SystemContent(next), history, text, e.reply, HistoryLimit, next, HistoryLimit);
  }

  /** One user's `context.user_data`: here only the chat history. */
  class ChatSession {
    var history: seq<Turn>

    constructor ()
      ensures history == []
    {
      history := [];
    }

    /** `/start`: `context.user_data.clear()`. */
    method Start()
      modifies this
      ensures history == []
    {
      history := [];
    }

    /** The history update: append the exchange, then keep the last eight entries. */
    method Remember(text: string, answer: string)
      modifies this
      ensures history == RecordExchange(old(history), text, answer, HistoryLimit)
    {
      history := history + [Turn(User, text), Turn(Assistant, answer)];
      if |history| > HistoryLimit {
        history := history[|history| - HistoryLimit..];
      }
    }

    /** `handle_message` for this user. */
    method HandleMessage(text: string, call: Completion, d: LiteDraws)
      returns (reply: string, request: Option<seq<Turn>>)
      requires ValidLiteDraws(d)
      modifies this
      ensures var e := Respond(old(history), text, call, d);
        history == e.history && reply == e.reply && request == e.request
    {
      var before := history;
      if call.MissingKey? {
        reply, request := CrashReply, None;
        assert Respond(before, text, call, d) == Exchange(history, reply, request);
        return;
      }
      var messages := BuildMessages(text, history);
      request := Some(messages);
      if call.Completed? {
        var answer := ShapeLite(call.raw, d);
        Remember(text, answer);
        reply := answer;
        assert Respond(before, text, call, d) == Exchange(history, answer, Some(messages));
      } else if call.HttpError? {
        reply := ApiErrorReply;
        assert Respond(before, text, call, d) == Exchange(history, reply, request);
      } else {
        reply := CrashReply;
        assert Respond(before, text, call, d) == Exchange(history, reply, request);
      }
    }
  }
}
