/**
 * The checks `main.py` runs on every incoming message before any model call:
 * the ban list, the safety filter and the keyword triggers, together with the
 * administrator's `/ban` command that adds to the ban list.
 */
module Moderation {
  import opened Strings
  import opened Chat

  // ---------------------------------------------------------------------
  // Ban list
  // ---------------------------------------------------------------------

  /**
   * One entry of `config.banned_users`. The list is loaded from JSON, so an
   * entry may be a number or a string; the bot itself only ever adds strings.
   */
  datatype BanEntry = Num(id: int) | Text(name: string)

  function DigitChar(d: nat): (c: char)
    requires d < 10
    ensures IsDigit(c)
  {
    ('0' as int + d) as char
  }

  /** Python's `str(n)` for `n >= 0`. */
  function NatToString(n: nat): (r: string)
    ensures |r| >= 1 && (n >= 10 ==> |r| >= 2)
    ensures forall i :: 0 <= i < |r| ==> IsDigit(r[i])
    decreases n
  {
    if n < 10 then [DigitChar(n)] else NatToString(n / 10) + [DigitChar(n % 10)]
  }

  /**
   * Python's `str(n)`. It is never empty, so with `ADMIN_ID` unset (its
   * default is the empty string) no caller's id matches it and nobody can
   * use `/ban`.
   */
  function IntToString(n: int): (r: string)
    ensures r != []
    ensures n >= 0 ==> forall i :: 0 <= i < |r| ==> IsDigit(r[i])
    ensures n < 0 ==> r[0] == '-'
  {
    if n < 0 then "-" + NatToString(-n) else NatToString(n)
  }

  /** Distinct numbers print differently. */
  lemma {:induction false} NatToStringInjective(a: nat, b: nat)
    requires NatToString(a) == NatToString(b)
    ensures a == b
    decreases a
  {
    if a >= 10 && b >= 10 {
      var sa, sb := NatToString(a), NatToString(b);
      assert sa[|sa| - 1] == sb[|sb| - 1];
      assert DigitChar(a % 10) == DigitChar(b % 10);
      assert sa[..|sa| - 1] == NatToString(a / 10);
      assert sb[..|sb| - 1] == NatToString(b / 10);
      NatToStringInjective(a / 10, b / 10);
    } else if a < 10 && b < 10 {
      assert DigitChar(a) == DigitChar(b);
    }
  }

  lemma IntToStringInjective(a: int, b: int)
    requires IntToString(a) == IntToString(b)
    ensures a == b
  {
    if a < 0 && b < 0 {
      assert NatToString(-a) == IntToString(a)[1..];
      assert NatToString(-b) == IntToString(b)[1..];
      NatToStringInjective(-a, -b);
    } else if a >= 0 && b >= 0 {
      NatToStringInjective(a, b);
    }
  }

  /** `is_banned`: the id is on the list as its string form or as a number. */
  predicate IsBanned(banned: set<BanEntry>, userId: int) {
    Text(IntToString(userId)) in banned || Num(userId) in banned
  }

  /** The entry the safety transition adds: `str(user.id)`. */
  function BanEntryFor(userId: int): BanEntry {
    Text(IntToString(userId))
  }

  /** Banning one user bans that user and leaves every other user's status as it was. */
  lemma BanIsTargeted(banned: set<BanEntry>, userId: int, other: int)
    ensures IsBanned(banned + {BanEntryFor(userId)}, userId)
    ensures other != userId ==> (IsBanned(banned + {BanEntryFor(userId)}, other) <==> IsBanned(banned, other))
  {
    if other != userId && IntToString(other) == IntToString(userId) {
      IntToStringInjective(other, userId);
    }
  }

  /** `config.banned_users`, the in-memory ban set (its JSON file is not modelled). */
  class BanList {
    var banned: set<BanEntry>

    /** The set as `load_banned_users` returned it. */
    constructor (loaded: set<BanEntry>)
      ensures banned == loaded
    {
      banned := loaded;
    }

    /** `config.banned_users.add(entry)`. */
    method Add(entry: BanEntry)
      modifies this
      ensures banned == old(banned) + {entry}
    {
      banned := banned + {entry};
    }

    /**
     * The `/ban <user_id>` command: only the administrator may use it; without
     * an argument it answers with the usage line; otherwise the argument, as
     * typed, joins the ban list.
     */
    method BanCommand(callerId: int, adminId: string, args: seq<string>) returns (reply: Option<string>)
      modifies this
      ensures IntToString(callerId) != adminId ==> reply == None && banned == old(banned)
      ensures IntToString(callerId) == adminId && args == [] ==> reply == Some(BanUsage) && banned == old(banned)
      ensures IntToString(callerId) == adminId && args != [] ==>
        reply == Some("Пользователь " + args[0] + " забанен") && banned == old(banned) + {Text(args[0])}
    {
      if IntToString(callerId) != adminId {
        return None;
      }
      if args == [] {
        return Some(BanUsage);
      }
      var target := args[0];
      Add(Text(target));
      reply := Some("Пользователь " + target + " забанен");
    }
  }

  const BanUsage: string := "Использование: /ban <user_id>"

  // ---------------------------------------------------------------------
  // Safety filter
  // ---------------------------------------------------------------------

  /** The word lists of the three `SAFETY_FILTERS` patterns `\b(w1|w2|...)\b`. */
  const SafetyFilters: seq<seq<string>> := [
    ["минет", "грудь", "сиськи", "уебать", "хер", "пенис", "секс", "порно", "эротика"],
    ["китаез", "чурок", "япошек", "кореец", "негр", "черномазый", "узкоглазый"],
    ["расизм", "нацист", "геи", "лгбт", "фашист", "гомосек", "пидор"]
  ]

  /** `\b` at position `i` of `t`: a word character on exactly one side. */
  predicate Boundary(t: string, i: int)
    requires 0 <= i <= |t|
  {
    (i > 0 && IsWordChar(t[i - 1])) != (i < |t| && IsWordChar(t[i]))
  }

  /** `w` occurs at position `i` of `t` with a word boundary on both sides. */
  predicate WholeWordAt(t: string, i: int, w: string) {
    0 <= i && i + |w| <= |t| && t[i..i + |w|] == w && Boundary(t, i) && Boundary(t, i + |w|)
  }

  /** `pattern.search(t)` for a pattern `\b(w1|...|wn)\b`. */
  predicate Search(words: seq<string>, t: string) {
    exists k, i :: 0 <= k < |words| && 0 <= i <= |t| && WholeWordAt(t, i, words[k])
  }

  /** `check_safety_rules`: some filter finds one of its words in the lower-cased text. */
  predicate CheckSafetyRules(userText: string) {
    exists g :: 0 <= g < |SafetyFilters| && Search(SafetyFilters[g], LowerStr(userText))
  }

  lemma LowerAppend(a: string, b: string)
    ensures LowerStr(a + b) == LowerStr(a) + LowerStr(b)
  {
  }

  lemma LowerIdempotent(s: string)
    ensures LowerStr(LowerStr(s)) == LowerStr(s)
  {
  }

  /** Every filter word is a non-empty run of lower-case Cyrillic letters. */
  lemma SafetyWordsAreLowerCyrillic(g: nat, k: nat)
    requires g < |SafetyFilters| && k < |SafetyFilters[g]|
    ensures SafetyFilters[g][k] != []
    ensures forall i :: 0 <= i < |SafetyFilters[g][k]| ==> 'а' <= SafetyFilters[g][k][i] <= 'я'
  {
  }

  /**
   * A lower-case word standing on its own (start of text or a non-word
   * character before it, end of text or a non-word character after it) is
   * found as a whole word in the lower-cased text.
   */
  lemma WholeWordSurvivesLowering(before: string, w: string, after: string)
    requires w != [] && forall i :: 0 <= i < |w| ==> 'а' <= w[i] <= 'я'
    requires before == [] || !IsWordChar(before[|before| - 1])
    requires after == [] || !IsWordChar(after[0])
    ensures WholeWordAt(LowerStr(before + w + after), |before|, w)
  {
    LowerAppend(before, w);
    LowerAppend(before + w, after);
    LowerKeepsLowerWord(w);
    var x, y := LowerStr(before), LowerStr(after);
    assert LowerStr(before + w + after) == x + w + y;
    assert x == [] || !IsWordChar(x[|x| - 1]);
    assert y == [] || !IsWordChar(y[0]);
    WholeWordBetween(x, w, y);
  }

  /** Lower-casing leaves a word of lower-case Cyrillic letters as it is. */
  lemma LowerKeepsLowerWord(w: string)
    requires forall i :: 0 <= i < |w| ==> 'а' <= w[i] <= 'я'
    ensures LowerStr(w) == w
    ensures forall i :: 0 <= i < |w| ==> IsWordChar(w[i])
  {
  }

  /** A run of word characters between non-word neighbours is a whole word. */
  lemma WholeWordBetween(x: string, w: string, y: string)
    requires w != [] && forall i :: 0 <= i < |w| ==> IsWordChar(w[i])
    requires x == [] || !IsWordChar(x[|x| - 1])
    requires y == [] || !IsWordChar(y[0])
    ensures WholeWordAt(x + w + y, |x|, w)
  {
    var t := x + w + y;
    assert t[|x|..|x| + |w|] == w;
    assert t[|x|] == w[0] && t[|x| + |w| - 1] == w[|w| - 1];
    if x != [] {
      assert t[|x| - 1] == x[|x| - 1];
    }
    if y != [] {
      assert t[|x| + |w|] == y[0];
    }
  }

  /**
   * A filter word standing on its own, in any letter case, makes the message
   * unsafe.
   */
  lemma UnsafeWordIsCaught(before: string, g: nat, k: nat, after: string)
    requires g < |SafetyFilters| && k < |SafetyFilters[g]|
    requires before == [] || !IsWordChar(before[|before| - 1])
    requires after == [] || !IsWordChar(after[0])
    ensures CheckSafetyRules(before + SafetyFilters[g][k] + after)
  {
    SafetyWordsAreLowerCyrillic(g, k);
    var text := before + SafetyFilters[g][k] + after;
    WholeWordSurvivesLowering(before, SafetyFilters[g][k], after);
    assert Search(SafetyFilters[g], LowerStr(text));
  }

  lemma WholeWordIsContained(t: string, i: int, w: string)
    ensures WholeWordAt(t, i, w) ==> Contains(t, w)
  {
    if WholeWordAt(t, i, w) {
      assert w <= t[i..];
    }
  }

  /** A message in which no filter word occurs at all, even inside other words, is safe. */
  lemma SafeWithoutFilterWords(userText: string)
    requires forall g, k :: 0 <= g < |SafetyFilters| && 0 <= k < |SafetyFilters[g]| ==>
      !Contains(LowerStr(userText), SafetyFilters[g][k])
    ensures !CheckSafetyRules(userText)
  {
    var t := LowerStr(userText);
    forall g, k, i | 0 <= g < |SafetyFilters| && 0 <= k < |SafetyFilters[g]| && 0 <= i <= |t|
      ensures !WholeWordAt(t, i, SafetyFilters[g][k])
    {
      WholeWordIsContained(t, i, SafetyFilters[g][k]);
    }
  }

  /** The filter ignores letter case. */
  lemma SafetyIgnoresCase(userText: string)
    ensures CheckSafetyRules(userText) <==> CheckSafetyRules(LowerStr(userText))
  {
    LowerIdempotent(userText);
  }

  // ---------------------------------------------------------------------
  // Keyword triggers
  // ---------------------------------------------------------------------

  /** `KLAXO_TRIGGERS`, in declaration order: keyword and canned reply. */
  const KlaxoTriggers: seq<(string, string)> := [
    ("рог", "*лёгкое касание рогов* Ты ведь знаешь, что это... интимно?"),
    ("ядро", "Моя голубая кровь рёвозавра... Хочешь попробовать? 💉"),
    ("клубника", "*подаёт клубнику на лезвии* Сладкая опасность от Верховного Совета~")
  ]

  /**
   * The reply of the first trigger, from index `k` on, whose keyword occurs in
   * the lower-cased text `t`.
   */
  function TriggerFrom(t: string, k: nat): (r: Option<string>)
    ensures r.Some? <==> exists j :: k <= j < |KlaxoTriggers| && Contains(t, KlaxoTriggers[j].0)
    ensures r.Some? ==> exists j :: k <= j < |KlaxoTriggers| && Contains(t, KlaxoTriggers[j].0)
                                && r.value == KlaxoTriggers[j].1
                                && forall m :: k <= m < j ==> !Contains(t, KlaxoTriggers[m].0)
    decreases |KlaxoTriggers| - k
  {
    if k >= |KlaxoTriggers| then None
    else if Contains(t, KlaxoTriggers[k].0) then Some(KlaxoTriggers[k].1)
    else TriggerFrom(t, k + 1)
  }

  /** The canned reply the trigger loop answers with, if any. */
  function TriggerReply(userText: string): Option<string> {
    TriggerFrom(LowerStr(userText), 0)
  }

  /** The trigger loop of `handle_message`: the first keyword found answers. */
  method MatchTrigger(userText: string) returns (reply: Option<string>)
    ensures reply == TriggerReply(userText)
  {
    var lowered := LowerStr(userText);
    var k := 0;
    while k < |KlaxoTriggers|
      invariant 0 <= k <= |KlaxoTriggers|
      invariant TriggerFrom(lowered, k) == TriggerFrom(lowered, 0)
    {
      var (keyword, response) := KlaxoTriggers[k];
      if Contains(lowered, keyword) {
        return Some(response);
      }
      k := k + 1;
    }
    return None;
  }
}
