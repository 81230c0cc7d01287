# Zero Two chat bots — a Dafny model of the message handling

Two Telegram bots answer users in the voice of Zero Two. Each one passes the
user's text to a chat-completion endpoint and rewrites the answer before
sending it. This project models the logic of both handlers: what each bot
decides for one message, and the string rewrites applied to the completion.
The transport and the HTTP call are not modelled.

- `main.py` has the larger handler. It keeps a ban set and a per-user record
  (`warnings`, `silent_until`, `chat_history`), and checks each message in a
  fixed order:
  1. the ban list;
  2. the silence window;
  3. the keyword triggers;
  4. the safety filter: a warning, then 300 seconds of silence, and a ban at
     the third warning;
  5. the prompt and the completion call, then a thirteen-stage rewrite of the
     answer and the history update.
- `zero-two-bot/main.py` is the smaller bot. It has no moderation. It uses its
  own prompt, a nine-stage rewrite and the same history window.

## Modules

| file | module | contents |
|---|---|---|
| `strings.dfy` | `Strings` | Python string operations used by both bots: `strip`, `split`, `join`, `replace`, `lower`, and character classes such as `\w`, `\s` and Cyrillic |
| `regex.dfy` | `Regex` | `re.sub` kept abstract, and an ordered table of rewrites |
| `chat.dfy` | `Chat` | turns, the history window (`history[-8:]`), the history update, and the ways a completion call can end |
| `moderation.dfy` | `Moderation` | `is_banned`, the ban set and the `/ban` command, `check_safety_rules`, and the trigger table |
| `zerotwo_prompt.dfy` | `ZeroTwoPrompt` | `build_messages` of `main.py` |
| `zerotwo_config.dfy` | `ZeroTwoConfig` | the `REPLACE_RULES` table of `main.py` |
| `zerotwo_shaper.dfy` | `ZeroTwoShaper` | the answer rewrite of `main.py`, as functions with a method per loop |
| `zerotwo_session.dfy` | `ZeroTwoSession` | `handle_message` of `main.py` |
| `zerotwobot_prompt.dfy` | `ZeroTwoBotPrompt` | `build_messages` of `zero-two-bot/main.py` |
| `zerotwobot_shaper.dfy` | `ZeroTwoBotShaper` | the answer rewrite of `zero-two-bot/main.py` |
| `zerotwobot_session.dfy` | `ZeroTwoBotSession` | `handle_message` of `zero-two-bot/main.py` |

**How each handler is modelled.** Each handler is a function that takes the
old state and returns the new one: `ZeroTwoSession.Handle` and
`ZeroTwoBotSession.Respond`. A class stands for the per-user `user_data`:
`ZeroTwoSession.Session` and `ZeroTwoBotSession.ChatSession`. Its
`HandleMessage` method follows the handler step by step, and its contract ties
the resulting state to the function. The transitions are proved as lemmas
about the function. In `main.py`'s model a step records the request it posts
as the user text and the stored history (`ZeroTwoSession.Request`); the message
list sent is `BuildMessages` of the two, whose shape is stated on its own.

**What is passed in as a parameter.** Randomness, the clock, the completion
and the regular-expression engine are parameters:
- `Draws`, `LiteDraws` and `Dice` hold the random picks;
- `now` is the time;
- a `Completion` value says how the call ended;
- `rx` is `re.sub` for the patterns of `main.py`;
- `latn` is the morphological "is this a Latin word" test.

**Facts proved about `main.py`:**
- **The length cap only works on some texts.** The cap at lines 344-345 fires
  above 25 words. It keeps the first two `~`-separated segments and appends
  `...`. A text with at most one `~` therefore gets only `...` appended and
  stays above 25 words (`ZeroTwoShaper.LengthCapOnlyAppends`,
  `ZeroTwoShaper.LengthCapDoesNotBoundWords`).
- **The empty-answer fallback never fires.** The canned fallback at lines
  335-336 is never used, because padding always adds a phrase to a text with
  fewer than five words (`ZeroTwoShaper.PaddedIsNeverBlank`).
- **Words separated by `~` are counted as one.** After sentence capping the
  two sentences are joined by `~` with no space. Padding (line 331) and the
  cap (line 344) count words with `split()`, so a word on each side of a `~`
  counts as a single word (`ZeroTwoShaper.TildeJoinsWords`).
- **The emoji step removes every trailing terminator.** Before adding the
  emoji, line 341 strips all trailing `.`, `!` and `?`, not only one
  (`ZeroTwoShaper.AddEmoji`, whose cut is `Strings.DropWhileEnd`: everything
  it removes is a terminator, and what is left does not end with one).
- **`/start` resets moderation as well as history.** `/start` clears the whole
  `user_data`, so it resets the warnings and the silence window too, not only
  the history (`ZeroTwoSession.Session.Clear`).
- **Ban entries may be numbers or strings.** The ban set is loaded from JSON,
  so an entry can be a number or a string. `is_banned` tests both, and the
  model keeps both kinds of entry (`Moderation.BanEntry`).

## Model

| member | source | states |
|---|---|---|
| Chat.Tail | main.py:191 | `h[-n:]` has `min(|h|, n)` entries and is the suffix of `h` of that length |
| Chat.Prompt | main.py:189-193 | the message list is the system turn, then the last `min(|h|, window)` history entries in order, then the user turn |
| Chat.RecordExchange | main.py:348-355 | after `extend` and trimming, the history has `min(|h|+2, limit)` entries, the older ones are the newest of the old history, and the last two are the user turn and the assistant answer |
| Chat.NextPromptEndsWithLastExchange | main.py:348-355 | the next prompt built from the updated history shows the exchange just recorded right before the new user turn |
| Chat.PromptCarriesWholeHistory | main.py:189-193 | while the history fits the window the prompt carries all of it |
| Moderation.IntToString | main.py:156 | `str(n)` is non-empty, made of digits for `n >= 0`, and starts with `-` for negative `n`; being non-empty, it never equals an unset (empty) `ADMIN_ID` |
| Moderation.NatToStringInjective | main.py:156 | two non-negative numbers with the same `str` are equal |
| Moderation.IntToStringInjective | main.py:156 | two integers with the same `str` are equal, so the string form of an id identifies the user |
| Moderation.IsBanned | main.py:155-156 | the ban test: a user is banned iff the string form of the id or the number itself is in the set (its consequences: `BanIsTargeted`, `ZeroTwoSession.BannedUserIsIgnored`) |
| Moderation.BanIsTargeted | main.py:254 | adding `str(user.id)` bans that user and leaves every other user's ban status as it was |
| Moderation.BanList.constructor | main.py:127 | the ban set starts as the loaded set |
| Moderation.BanList.Add | main.py:254 | `banned_users.add(entry)` adds exactly that entry |
| Moderation.BanList.BanCommand | main.py:396-408 | a non-admin caller gets no reply and no change; the admin without an argument gets the usage line; otherwise the first argument, as a string, joins the set and is echoed back |
| Moderation.SafetyWordsAreLowerCyrillic | main.py:106-110 | every word of the three filters is a non-empty lower-case Cyrillic word |
| Moderation.WholeWordSurvivesLowering | main.py:158-160 | a lower-case word between non-word characters stays a whole-word match after `lower()` |
| Moderation.UnsafeWordIsCaught | main.py:106-110 | a filter word standing on its own, in any letter case, makes `check_safety_rules` true |
| Moderation.CheckSafetyRules | main.py:158-160 | a text is unsafe iff one of the three filters finds one of its words, as a whole word, in the lower-cased text (its consequences: `UnsafeWordIsCaught`, `SafeWithoutFilterWords`, `SafetyIgnoresCase`) |
| Moderation.SafeWithoutFilterWords | main.py:158-160 | a text in which no filter word occurs, even inside another word, is safe |
| Moderation.SafetyIgnoresCase | main.py:158-160 | the filter gives the same verdict on a text and on its lower-cased form |
| Moderation.TriggerFrom | main.py:244-247 | a reply exists iff some keyword occurs; it is the reply of the first such keyword in declaration order |
| Moderation.MatchTrigger | main.py:244-247 | the trigger loop returns the reply of the first keyword contained in the lower-cased text |
| Moderation.TriggerReply | main.py:244-247 | the trigger test on the lower-cased text: `TriggerFrom` from the first keyword, so the reply of the first contained keyword, or none |
| Regex.ApplyRules | main.py:202-203 | a rewrite table run in order, each rule on the previous output; with a copying `re.sub` every character comes from the text or a replacement |
| Regex.ApplyRulesAppend | main.py:202-203 | running two tables one after the other equals running their concatenation |
| Regex.ApplyRulesKeepsAbsent | main.py:202-203 | a character in no replacement and not in the text never appears |
| ZeroTwoPrompt.SystemContent | main.py:164-187 | the persona, then the "continue" directive iff a trigger occurs in the lower-cased text, otherwise the "conclude" directive; what follows the persona is exactly one of the two |
| ZeroTwoPrompt.BuildMessages | main.py:162-193 | system turn with that content, the last `min(|history|, 8)` entries in order, then the user turn |
| ZeroTwoShaper.Escape | main.py:313 | `re.escape` only adds characters and keeps every non-special character |
| ZeroTwoShaper.UnescapeEscape | main.py:313 | an escaped key matches exactly the literal key: `re.escape` loses nothing |
| ZeroTwoShaper.Compile | main.py:309-313 | a key starting with `\b` is used as the pattern; any other key is escaped and wrapped in `\b`; the replacement is kept and matching ignores case |
| ZeroTwoShaper.CompiledReplaceRules | main.py:309-313 | one compiled rule per `REPLACE_RULES` entry, in declaration order |
| ZeroTwoShaper.FirstSegment | main.py:298 | the text before the first `~` (all of the text when there is none), stripped; so no `~` and no surrounding whitespace |
| ZeroTwoShaper.PurgeWords | main.py:316-319 | the Latin-word loop only deletes: every character comes from the text, and with no Latin word the text is unchanged |
| ZeroTwoShaper.FrontShape | main.py:322-324 | the result is empty or starts with a Cyrillic letter, every character is in the allow-set, and the only new character is a space |
| ZeroTwoShaper.FrontShapeDropsNoise | main.py:322-324 | non-Cyrillic characters in front of a text that is already clean (starts with a Cyrillic letter, trimmed, single-spaced, only allowed characters) are removed and that text comes out unchanged |
| ZeroTwoShaper.FrontStartsCyrillic | main.py:322-323 | after dropping the non-Cyrillic prefix, collapsing and stripping, the text is empty or starts with a Cyrillic letter |
| ZeroTwoShaper.FrontKeepsChars | main.py:322-323 | those steps bring in no character except a space |
| ZeroTwoShaper.StrippedNonEmpty | main.py:328 | at most as many pieces, each non-empty and stripped |
| ZeroTwoShaper.StrippedStep | main.py:328 | the first piece contributes its strip in front, or nothing exactly when it is blank |
| ZeroTwoShaper.StrippedNonEmptyAppend | main.py:328 | the comprehension works piece by piece and keeps the order: on `a + b` it is the result on `a` followed by the result on `b` |
| ZeroTwoShaper.StrippedEmptyIffBlank | main.py:328 | nothing is left exactly when every piece is blank |
| ZeroTwoShaper.CapSentences | main.py:327-328 | the capped text holds no `.`, `!`, `?` or `…`, and at most one `~` when the input had none |
| ZeroTwoShaper.OneSentenceKept | main.py:327-328 | a text with no terminator is only stripped |
| ZeroTwoShaper.TwoSentencesKept | main.py:327-328 | two non-blank sentences, each ended by a terminator, become the two stripped sentences joined by `~`; whatever follows the second terminator is dropped |
| ZeroTwoShaper.JoinAvoids | main.py:328 | joining pieces that avoid a set with a separator outside it avoids the set |
| ZeroTwoShaper.SplitPiecesInside | main.py:327 | every character of a split piece comes from the text and is not a separator |
| ZeroTwoShaper.Pad | main.py:331-332 | fewer than five words: a space and the phrase are appended; otherwise unchanged |
| ZeroTwoShaper.OrFallback | main.py:335-336 | the result is never blank, and a non-blank text is unchanged |
| ZeroTwoShaper.AddEmoji | main.py:339-341 | every trailing `.`, `!`, `?` removed, then a space and the emoji; the result ends with the emoji |
| ZeroTwoShaper.LengthCap | main.py:344-345 | at most 25 words: unchanged; above: the text up to (not including) its second `~`, or all of it when it has fewer than two, followed by `...` |
| ZeroTwoShaper.FirstTwoSegments | main.py:345 | `'~'.join(s.split('~')[:2])` is the prefix of `s` that stops right before its second `~` and holds exactly one `~` when `s` has one |
| ZeroTwoShaper.RewrittenHasNoTilde | main.py:298-319 | when `re.sub` copies characters on the rules the handler passes, stages 1-5 never produce a `~` |
| ZeroTwoConfig.ReplaceRulesAvoidTilde | main.py:76-103 | no replacement text of `REPLACE_RULES` holds a `~` |
| ZeroTwoShaper.CompiledRulesAvoidTilde | main.py:309-313 | compiling keeps each replacement, so no compiled rule brings in a `~` |
| ZeroTwoShaper.TemplatesAvoidTilde | main.py:195-204 | neither the terminology replacements, the mixed-script rewrite's template nor the compiled rules hold a `~` |
| ZeroTwoShaper.Rewritten | main.py:298-319 | stages 1-5 in order: first segment, terminology, mixed-script rewrite, `REPLACE_RULES`, Latin words (its properties: `RewrittenHasNoTilde`) |
| ZeroTwoShaper.Cleaned | main.py:298-328 | the text before padding holds no sentence terminator |
| ZeroTwoShaper.CleanedHasAtMostTwoSentences | main.py:327-328 | when `re.sub` copies characters on the rules the handler passes, the cleaned text splits on `~` into at most two sentences |
| ZeroTwoShaper.TildeJoinsWords | main.py:328-331 | two words joined by `~` with no space count as one word for `split()` |
| ZeroTwoShaper.PaddedIsNeverBlank | main.py:331-336 | padding always leaves non-blank text, so the fallback never fires |
| ZeroTwoShaper.FinishedIsNeverEmpty | main.py:331-345 | padding, fallback, emoji and cap give a non-empty reply |
| ZeroTwoShaper.ShapedIsNeverEmpty | main.py:298-345 | the user never receives an empty reply |
| ZeroTwoShaper.Finished | main.py:331-345 | stages 10-13 in order: padding, fallback, emoji on the coin, length cap (its properties: `FinishedIsNeverEmpty`) |
| ZeroTwoShaper.Shaped | main.py:298-345 | the whole rewrite: the cleaned text, then the finishing stages (its properties: `ShapedIsNeverEmpty`) |
| ZeroTwoShaper.LengthCapOnlyAppends | main.py:344-345 | on a long text with at most one `~` the cap only appends `...` |
| ZeroTwoShaper.LengthCapDoesNotBoundWords | main.py:344-345 | such a text still has more than 25 words after the cap |
| ZeroTwoShaper.FixTerminology | main.py:195-204 | the loop applies the four terminology rules in order |
| ZeroTwoShaper.ApplyReplaceRules | main.py:309-313 | the loop applies the compiled `REPLACE_RULES` in order |
| ZeroTwoShaper.ApplyTable | main.py:309-313 | the loop over a `(key, replacement)` table applies each entry's compiled rule in order |
| ZeroTwoShaper.PurgeLatinWords | main.py:316-319 | the loop over the words split before it starts deletes each Latin word everywhere |
| ZeroTwoShaper.CleanAnswer | main.py:298-328 | stages 1-9 step by step compute the cleaned text |
| ZeroTwoShaper.FinishAnswer | main.py:331-345 | stages 10-13 step by step compute the finished reply, which is non-empty |
| ZeroTwoShaper.Shape | main.py:298-345 | the whole rewrite, non-empty |
| ZeroTwoSession.BannedUserIsIgnored | main.py:223-224 | a user banned by number or by string form gets no reply, no call, and nothing changes |
| ZeroTwoSession.DroppedExactlyWhenBannedOrSilenced | main.py:221-228 | no reply iff banned or `silent_until > now`, and then nothing changes |
| ZeroTwoSession.TriggerBypassesSafety | main.py:243-250 | a contained keyword answers with a trigger reply (of that keyword or an earlier one) before the safety check, and changes nothing |
| ZeroTwoSession.UnsafeMessageWarnsAndSilences | main.py:250-262 | below the limit: warnings + 1, silence until `now + 300`, a safety line, no call, history and bans kept |
| ZeroTwoSession.LimitReachedBans | main.py:250-257 | at the limit: warnings + 1, `str(id)` banned, silence unchanged, the ban line; every later message is ignored |
| ZeroTwoSession.SafeMessageIsSent | main.py:264-364 | a message passing every check posts a request of its text and the stored history (the input of `build_messages`) unless the key is missing; a completed call answers with the non-empty shaped text, a failure with its canned line and no state change |
| ZeroTwoSession.HistoryRecordsCompletedExchanges | main.py:347-355 | the history stays within 8 entries and changes only on a completed call, ending with that user turn and answer |
| ZeroTwoSession.WarningsCountUnsafeMessages | main.py:250-251 | warnings rise by exactly one on an unsafe, untriggered message that gets past ban and silence, and are unchanged otherwise |
| ZeroTwoSession.ThirdStrikeBans | main.py:250-262 | three unsafe messages, each after the previous silence: two safety lines with silences, then the ban, with three warnings |
| ZeroTwoSession.SilenceShieldsWarnings | main.py:227-228 | inside the silence window even an unsafe message leaves the user data unchanged |
| ZeroTwoSession.Handle | main.py:221-381 | the handler as a transition on the user data and ban set: ban, silence, triggers, safety, then `Converse` (its properties: the `ZeroTwoSession` lemmas above) |
| ZeroTwoSession.Converse | main.py:264-381 | the request, the call and what follows: shaping and the history update on a 200 answer, a canned line otherwise (its properties: `SafeMessageIsSent`, `HistoryRecordsCompletedExchanges`) |
| ZeroTwoSession.Session.constructor | main.py:227 | a user starts with no warnings, no silence and no history (the `.get` defaults) |
| ZeroTwoSession.Session.Clear | main.py:208 | `/start` clears warnings, silence and history |
| ZeroTwoSession.Session.Strike | main.py:250-262 | one more warning; at the limit `str(id)` joins the ban set, silence is kept and the ban line is the reply; below it the user is silenced until `now + 300` and gets the picked safety line |
| ZeroTwoSession.Session.Remember | main.py:348-355 | `extend` then the trim leave the history as `RecordExchange` says, and warnings and silence as they were |
| ZeroTwoSession.Session.Answer | main.py:264-381 | the call and everything after it leave the user data, the reply and the posted request as `Converse` says |
| ZeroTwoSession.Session.HandleMessage | main.py:221-381 | the step-by-step handler leaves the user data, the ban set, the reply and the posted request as `Handle` says |
| ZeroTwoBotPrompt.SystemContent | zero-two-bot/main.py:71-83 | the persona, plus the "continue" directive iff a trigger occurs in the lower-cased text, and nothing otherwise |
| ZeroTwoBotPrompt.BuildMessages | zero-two-bot/main.py:69-92 | system turn, the last `min(|history|, 8)` entries in order, then the user turn |
| ZeroTwoBotShaper.FirstPart | zero-two-bot/main.py:140-144 | the text before the first `~` (all of it when there is none), with double spaces replaced, stripped; so no `~` and no surrounding whitespace |
| ZeroTwoBotShaper.DropNoise | zero-two-bot/main.py:147 | the longest leading run of non-word characters and digits is removed: the rest is a suffix, the removed part is all noise, and the rest starts with a word character that is not a digit |
| ZeroTwoBotShaper.DropNoiseAvoids | zero-two-bot/main.py:147 | removing the leading noise brings no character in |
| ZeroTwoBotShaper.LetterRun | zero-two-bot/main.py:150 | the length of the maximal leading run of ASCII letters |
| ZeroTwoBotShaper.DropLatin | zero-two-bot/main.py:150 | the Latin-word removal never lengthens the text |
| ZeroTwoBotShaper.DropLatinOnlyDeletes | zero-two-bot/main.py:150 | the removal only deletes: every character left comes from the text, and a text without ASCII letters is unchanged |
| ZeroTwoBotShaper.DropLatinSplit | zero-two-bot/main.py:150 | after a non-word character the scan restarts as if the text began there |
| ZeroTwoBotShaper.StandaloneLatinWordIsDropped | zero-two-bot/main.py:150 | a Latin word between non-word characters or text ends disappears, and each side is cleaned on its own |
| ZeroTwoBotShaper.LeadingLatinWordIsDropped | zero-two-bot/main.py:150 | a Latin word at the start, followed by a non-word character or the end, disappears and the rest is cleaned as a text of its own |
| ZeroTwoBotShaper.LatinRunBeforeWordCharStays | zero-two-bot/main.py:150 | a run of ASCII letters followed by another word character (Cyrillic, a digit, `_`) is not a whole word: it stays, and so does that character |
| ZeroTwoBotShaper.LatinAfterWordCharStays | zero-two-bot/main.py:150 | ASCII letters right after a word character stay |
| ZeroTwoBotShaper.ApplyReplacements | zero-two-bot/main.py:153-154 | rules apply in order; a rule whose key is absent when its turn comes changes nothing; every character comes from the text or a replacement |
| ZeroTwoBotShaper.ApplyReplacementsStep | zero-two-bot/main.py:153-154 | one more rule runs `replace` on what the earlier rules produced |
| ZeroTwoBotShaper.ApplyReplacementsAvoids | zero-two-bot/main.py:153-154 | a character in neither the text nor any replacement never appears |
| ZeroTwoBotShaper.ReplacementsAvoidTilde | zero-two-bot/main.py:57-66 | no replacement text of `REPLACE_RULES` holds a `~` |
| ZeroTwoBotShaper.ReplacedAvoidsTilde | zero-two-bot/main.py:140-154 | stages 1-4 leave no `~`: the first removes them all and the rest bring none in |
| ZeroTwoBotShaper.Cleaned | zero-two-bot/main.py:140-157 | after stage 5 every character is outside the forbidden class, and no `~` is left |
| ZeroTwoBotShaper.Soften | zero-two-bot/main.py:160-162 | with none of `~`, `...`, `ведь` present, only the first `.` becomes the mark; otherwise unchanged |
| ZeroTwoBotShaper.PadLite | zero-two-bot/main.py:165-166 | the suffix is appended iff fewer than 10 words and no trailing `...` or `~` |
| ZeroTwoBotShaper.RFind | zero-two-bot/main.py:174 | `rfind` gives the last index of the character, or -1 when absent |
| ZeroTwoBotShaper.CapLength | zero-two-bot/main.py:173-175 | at most 180 characters: unchanged; above: a prefix of at most 175 characters plus `...`, cut at the last space in the first 175 characters, or at 175 when there is none |
| ZeroTwoBotShaper.PaddedIsNonEmpty | zero-two-bot/main.py:165-166 | padding never leaves the reply empty |
| ZeroTwoBotShaper.FinishedBounds | zero-two-bot/main.py:159-175 | stages 6-9 give a non-empty reply of at most 180 characters |
| ZeroTwoBotShaper.LiteReplyBounds | zero-two-bot/main.py:140-175 | the shaped reply is never empty and never longer than 180 characters |
| ZeroTwoBotShaper.Finished | zero-two-bot/main.py:159-175 | stages 6-9 in order: softening, padding, an emoji on the coin, the length cap (its properties: `FinishedBounds`) |
| ZeroTwoBotShaper.ShapedLite | zero-two-bot/main.py:140-175 | the whole rewrite: the cleaned text, then the finishing stages (its properties: `LiteReplyBounds`) |
| ZeroTwoBotShaper.ReplaceWords | zero-two-bot/main.py:153-154 | the loop applies `REPLACE_RULES` in order |
| ZeroTwoBotShaper.CleanText | zero-two-bot/main.py:140-157 | stages 1-5 step by step compute the cleaned text |
| ZeroTwoBotShaper.FinishText | zero-two-bot/main.py:159-175 | stages 6-9 step by step give the finished reply, non-empty and at most 180 characters |
| ZeroTwoBotShaper.ShapeLite | zero-two-bot/main.py:140-175 | the whole rewrite, non-empty and at most 180 characters |
| ZeroTwoBotSession.EveryMessageIsAnswered | zero-two-bot/main.py:134-199 | every message gets a non-empty reply of at most 180 characters |
| ZeroTwoBotSession.FailureKeepsHistory | zero-two-bot/main.py:189-199 | a failed call keeps the history; a non-200 status gets the "system failure" line, anything else the "critical damage" line |
| ZeroTwoBotSession.CompletedCallIsRecorded | zero-two-bot/main.py:177-184 | a completed call answers with the shaped text, appends the user turn and the answer, and keeps the newest eight entries |
| ZeroTwoBotSession.RequestShowsHistory | zero-two-bot/main.py:115-132 | a request is posted iff the key is set, and it is the system turn, the stored history, and the user turn |
| ZeroTwoBotSession.HistoryStaysBounded | zero-two-bot/main.py:183-184 | a history of at most eight entries stays so |
| ZeroTwoBotSession.NextPromptFollowsUp | zero-two-bot/main.py:178-184 | the next prompt shows the exchange just recorded right before the new user turn |
| ZeroTwoBotSession.Respond | zero-two-bot/main.py:109-199 | the handler as a transition on the history: the request, then the shaped answer and the history update on a 200 answer, a canned line otherwise (its properties: the `ZeroTwoBotSession` lemmas above) |
| ZeroTwoBotSession.ChatSession.constructor | zero-two-bot/main.py:70 | a new user has an empty history |
| ZeroTwoBotSession.ChatSession.Start | zero-two-bot/main.py:96 | `/start` clears the history |
| ZeroTwoBotSession.ChatSession.Remember | zero-two-bot/main.py:178-184 | `extend` then the trim leave the history as `RecordExchange` says |
| ZeroTwoBotSession.ChatSession.HandleMessage | zero-two-bot/main.py:109-199 | the step-by-step handler leaves the history, the reply and the posted messages as `Respond` says |

## Left out

- Telegram I/O is not modelled: replies, the `/help` and error handlers, `main` and polling. The model returns the reply text instead.
- The HTTP call is not modelled. Its outcome is the `Completion` input: a 200 answer, another status, a timeout, a connection error, any other exception, or a missing key.
- An exception raised inside the shaping stages themselves is not modelled.
- The ban list's JSON file and the lock file are not modelled, because they are file I/O. Only the in-memory set is.
- The sentiment analyzer is not modelled. It is an ML model and does not affect the reply.
- Logging and the float request parameters (temperature, penalties) are not modelled.
- ZeroTwoShaper.FixTerminology, ZeroTwoShaper.ApplyReplaceRules: the patterns of `main.py` go through an abstract `re.sub` (`rx`). Only the order, the choice of pattern and what a copying substitution can produce are proved. The regular-expression engine is not modelled.
- ZeroTwoShaper.Rewritten: the mixed-script rewrite at `main.py`:302-306 is one abstract `re.sub` call, for the same reason.
- ZeroTwoShaper.PurgeWords: the `pymorphy3` "LATN" test is the parameter `latn`, because it is a foreign library.
- Python's `\w`, `\s` and `lower()` cover only ASCII, the Cyrillic alphabet (with `ё`/`Ё`) and the usual whitespace characters. Other Unicode letters and digits are treated as non-word characters.
- `random.choice`, `random.random` and `time.time()` are parameters: `Draws`, `LiteDraws`, `Dice` and `now`.
- Emoji are modelled as sequences of code points. `❤️🔥` is the three code points of the source text.

