/**
 * What both bots share around the completion call: the chat turns sent to the
 * model, the per-user history window, and the ways the call can end.
 */
module Chat {

  datatype Option<T> = None | Some(value: T)

  datatype Role = System | User | Assistant

  /** One `{"role": ..., "content": ...}` entry of the message list. */
  datatype Turn = Turn(role: Role, content: string)

  /**
   * How the completion step ended. `Completed` carries the text of a status-200
   * answer; `HttpError` any other status; `TimedOut` is `httpx.TimeoutException`,
   * `RequestFailed` any other `httpx.RequestError`, `Crashed` any other
   * exception (a malformed JSON body included); `MissingKey` means the
   * `MISTRAL_API_KEY` variable is not set.
   */
  datatype Completion =
    | Completed(raw: string)
    | HttpError(status: int)
    | TimedOut
    | RequestFailed
    | Crashed
    | MissingKey

  /** Python's `h[-n:]` for `n > 0`: the last `n` entries, or all of them. */
  function Tail<T>(h: seq<T>, n: nat): (r: seq<T>)
    ensures |r| == if |h| <= n then |h| else n
    ensures r == h[|h| - |r|..]
  {
    if |h| <= n then h else h[|h| - n..]
  }

  /**
   * The message list sent to the model: the system turn, the tail of the
   * history in its original order, then the new user turn.
   */
  function Prompt(system: string, history: seq<Turn>, userText: string, window: nat): (r: seq<Turn>)
    ensures |r| == 2 + (if |history| <= window then |history| else window)
    ensures r[0] == Turn(System, system) && r[|r| - 1] == Turn(User, userText)
    ensures forall j :: 1 <= j < |r| - 1 ==> r[j] == history[|history| - (|r| - 2) + (j - 1)]
  {
    [Turn(System, system)] + Tail(history, window) + [Turn(User, userText)]
  }

  /**
   * The history update after a reply: `history.extend([user, assistant])`,
   * then keep the last `limit` entries when it grew past `limit`.
   */
  function RecordExchange(history: seq<Turn>, userText: string, answer: string, limit: nat): (r: seq<Turn>)
    requires limit >= 2
    ensures |r| == if |history| + 2 <= limit then |history| + 2 else limit
    ensures r[|r| - 2] == Turn(User, userText) && r[|r| - 1] == Turn(Assistant, answer)
    ensures r[..|r| - 2] == history[|history| - (|r| - 2)..]
  {
    var grown := history + [Turn(User, userText), Turn(Assistant, answer)];
    var r := if |grown| > limit then grown[|grown| - limit..] else grown;
    assert r == Tail(grown, limit);
    r
  }

  /**
   * The next prompt built from an updated history shows the exchange just
   * recorded immediately before the new user turn.
   */
  lemma NextPromptEndsWithLastExchange(system: string, history: seq<Turn>, userText: string, answer: string,
                                       limit: nat, next: string, window: nat)
    requires limit >= 2 && window >= 2
    ensures var p := Prompt(system, RecordExchange(history, userText, answer, limit), next, window);
      |p| >= 4 && p[|p| - 3] == Turn(User, userText) && p[|p| - 2] == Turn(Assistant, answer)
  {
    var h := RecordExchange(history, userText, answer, limit);
    var p := Prompt(system, h, next, window);
    assert p[|p| - 3] == h[|h| - (|p| - 2) + (|p| - 4)];
    assert p[|p| - 2] == h[|h| - (|p| - 2) + (|p| - 3)];
  }

  /** While the stored history fits the window, the prompt carries all of it. */
  lemma PromptCarriesWholeHistory(system: string, history: seq<Turn>, userText: string, window: nat)
    requires |history| <= window
    ensures Prompt(system, history, userText, window) == [Turn(System, system)] + history + [Turn(User, userText)]
  {
  }
}
