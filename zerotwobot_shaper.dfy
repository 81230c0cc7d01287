/**
 * The rewrite `zero-two-bot/main.py` applies to a completion. Every stage of
 * this bot is a literal string operation or a regular expression that reduces
 * to a character-class scan, so all of it is modelled concretely; only the
 * random choices are parameters (`LiteDraws`).
 */
module ZeroTwoBotShaper {
  import opened Strings

  /** `Config.REPLACE_RULES`, applied with `str.replace` in declaration order. */
  const ReplaceRules: seq<(string, string)> := [
    ("work in progress", "работа в процессе"),
    ("especially", "особенно"),
    ("human", "человек"),
    ("Franxx", "Франкс"),
    ("more", "больше"),
    ("progress", "прогресс"),
    ("лузер", "новичок"),
    ("жалкий", "беззащитный")
  ]

  const EmojiProbability: real := 0.5

  const Softeners: seq<string> := ["~", "..."]

  const Emojis: seq<string> := ["💥", "😈", "❤\U{FE0F}🔥"]

  const PadSuffix: string := " Хочешь продолжим? 💬"

  /** Below this many words (and without a trailing `...` or `~`) the reply is padded. */
  const PadBelowWords: nat := 10

  /** Replies longer than this are cut. */
  const MaxLength: nat := 180

  /** The cut looks for a space within this many leading characters. */
  const CutWindow: nat := 175

  /** The random choices of one run: the softening mark, the emoji coin, the emoji. */
  datatype LiteDraws = LiteDraws(soft: nat, roll: real, emoji: nat)

  predicate ValidLiteDraws(d: LiteDraws) {
    d.soft < |Softeners| && 0.0 <= d.roll < 1.0 && d.emoji < |Emojis|
  }

  // ---------------------------------------------------------------------
  // The stages
  // ---------------------------------------------------------------------

  /** `raw.split("~")[0].replace("  ", " ").strip()`. */
  function FirstPart(raw: string): (r: string)
    ensures '~' !in r
    ensures Trimmed(r)
    ensures '~' !in raw ==> r == Strip(ReplaceAll(raw, "  ", " "))
    ensures '~' in raw ==> r == Strip(ReplaceAll(raw[..IndexOf(raw, '~')], "  ", " "))
  {
    var head := SplitOn(raw, {'~'})[0];
    assert '~' !in head by { assert Avoids(head, {'~'}); }
    assert '~' !in raw ==> head == raw by {
      if '~' !in raw { assert Avoids(raw, {'~'}); }
    }
    assert '~' in raw ==> head == raw[..IndexOf(raw, '~')] by {
      if '~' in raw { SplitHead(raw, '~'); }
    }
    Strip(ReplaceAll(head, "  ", " "))
  }

  /** The class `[\W\d]`: a non-word character or a digit. */
  predicate IsNoise(c: char) { !IsWordChar(c) || IsDigit(c) }

  /**
   * `re.sub(r'^[\W\d]+\.?\s*', '', s)`: the greedy class already takes the
   * dot and the spaces, so this drops the longest leading run of noise.
   */
  function DropNoise(s: string): (r: string)
    ensures |r| <= |s| && r == s[|s| - |r|..]
    ensures forall i :: 0 <= i < |s| - |r| ==> IsNoise(s[i])
    ensures r == [] || (IsWordChar(r[0]) && !IsDigit(r[0]))
  {
    DropWhile(IsNoise, s)
  }

  /** The length of the run of ASCII letters at the front of `s`. */
  function LetterRun(s: string): (n: nat)
    ensures n <= |s|
    ensures forall i :: 0 <= i < n ==> IsAsciiLetter(s[i])
    ensures n == |s| || !IsAsciiLetter(s[n])
  {
    if s != [] && IsAsciiLetter(s[0]) then 1 + LetterRun(s[1..]) else 0
  }

  /**
   * `re.sub(r'\b[a-zA-Z]+\b', '', s)` scanned from the left; `afterWord` says
   * whether the character before `s` in the original text is a word character.
   * A run of ASCII letters goes when it starts a word and the character after
   * it is not a word character; any other run stays.
   */
  function DropLatin(s: string, afterWord: bool): (r: string)
    ensures |r| <= |s|
    decreases |s|
  {
    if s == [] then []
    else if IsAsciiLetter(s[0]) && !afterWord then
      var n := LetterRun(s);
      if n == |s| || !IsWordChar(s[n]) then DropLatin(s[n..], true)
      else s[..n] + DropLatin(s[n..], true)
    else [s[0]] + DropLatin(s[1..], IsWordChar(s[0]))
  }

  /**
   * The removal only deletes: every character left comes from the text, and a
   * text without ASCII letters is left as it is.
   */
  lemma {:induction false} DropLatinOnlyDeletes(s: string, f: bool)
    ensures forall c :: c in DropLatin(s, f) ==> c in s
    ensures (forall i :: 0 <= i < |s| ==> !IsAsciiLetter(s[i])) ==> DropLatin(s, f) == s
    decreases |s|
  {
    if s != [] {
      if IsAsciiLetter(s[0]) && !f {
        var n := LetterRun(s);
        DropLatinOnlyDeletes(s[n..], true);
        forall c | c in DropLatin(s[n..], true) ensures c in s {
          var i :| 0 <= i < |s[n..]| && s[n..][i] == c;
          assert s[n + i] == c;
        }
        assert forall c :: c in s[..n] ==> c in s;
      } else {
        DropLatinOnlyDeletes(s[1..], IsWordChar(s[0]));
        assert forall c :: c in s[1..] ==> c in s;
        assert s == [s[0]] + s[1..];
      }
    }
  }

  /** The Latin-word removal on a whole answer. */
  function DropLatinWords(s: string): string {
    DropLatin(s, false)
  }

  /** After a non-word character the scan restarts as if the text began there. */
  lemma {:induction false} DropLatinSplit(a: string, t: string, f: bool)
    requires a != [] && !IsWordChar(a[|a| - 1])
    ensures DropLatin(a + t, f) == DropLatin(a, f) + DropLatin(t, false)
    decreases |a|, 1
  {
    if IsAsciiLetter(a[0]) && !f {
      DropLatinSplitRun(a, t, f);
    } else {
      DropLatinSplitChar(a, t, f);
    }
  }

  /** `DropLatinSplit` when `a` starts with a run of letters the scan examines. */
  lemma {:induction false} DropLatinSplitRun(a: string, t: string, f: bool)
    requires a != [] && !IsWordChar(a[|a| - 1])
    requires IsAsciiLetter(a[0]) && !f
    ensures DropLatin(a + t, f) == DropLatin(a, f) + DropLatin(t, false)
    decreases |a|, 0
  {
    var n := LetterRun(a);
    assert n < |a|;
    LetterRunOfAppend(a, t);
    var s := a + t;
    assert s[0] == a[0] && s[n] == a[n];
    assert s[..n] == a[..n];
    assert s[n..] == a[n..] + t;
    DropLatinSplit(a[n..], t, true);
  }

  /** `DropLatinSplit` when the scan keeps the first character of `a`. */
  lemma {:induction false} DropLatinSplitChar(a: string, t: string, f: bool)
    requires a != [] && !IsWordChar(a[|a| - 1])
    requires !(IsAsciiLetter(a[0]) && !f)
    ensures DropLatin(a + t, f) == DropLatin(a, f) + DropLatin(t, false)
    decreases |a|, 0
  {
    var w := IsWordChar(a[0]);
    var rest := a[1..];
    assert DropLatin(a + t, f) == [a[0]] + DropLatin(rest + t, w) by {
      DropLatinKeepsFirst(a + t, f);
      assert (a + t)[0] == a[0] && (a + t)[1..] == rest + t;
    }
    assert DropLatin(a, f) == [a[0]] + DropLatin(rest, w) by {
      DropLatinKeepsFirst(a, f);
    }
    assert DropLatin(rest + t, w) == DropLatin(rest, w) + DropLatin(t, false) by {
      if rest == [] {
        assert rest + t == t && !w;
      } else {
        assert rest[|rest| - 1] == a[|a| - 1];
        DropLatinSplit(rest, t, w);
      }
    }
    JoinAfterFirst(a[0], DropLatin(a + t, f), DropLatin(a, f), DropLatin(rest + t, w), DropLatin(rest, w), DropLatin(t, false));
  }

  /** Regrouping: from `whole == [c] + m`, `part == [c] + x` and `m == x + y`, `whole == part + y`. */
  lemma JoinAfterFirst(c: char, whole: string, part: string, m: string, x: string, y: string)
    requires whole == [c] + m && part == [c] + x && m == x + y
    ensures whole == part + y
  {
    assert [c] + (x + y) == ([c] + x) + y;
  }

  /** One step of the scan over a character it keeps. */
  lemma DropLatinKeepsFirst(s: string, f: bool)
    requires s != [] && !(IsAsciiLetter(s[0]) && !f)
    ensures DropLatin(s, f) == [s[0]] + DropLatin(s[1..], IsWordChar(s[0]))
  {
  }

  /** A letter run that stops inside `a` is not affected by what follows `a`. */
  lemma {:induction false} LetterRunOfAppend(a: string, t: string)
    requires LetterRun(a) < |a|
    ensures LetterRun(a + t) == LetterRun(a)
    decreases |a|
  {
    if IsAsciiLetter(a[0]) {
      assert (a + t)[1..] == a[1..] + t;
      LetterRunOfAppend(a[1..], t);
    }
  }

  /**
   * A Latin run that a word character follows is not a whole word: it stays,
   * and so does the character after it.
   */
  lemma LatinRunBeforeWordCharStays(w: string, c: char, t: string)
    requires w != [] && forall i :: 0 <= i < |w| ==> IsAsciiLetter(w[i])
    requires IsWordChar(c) && !IsAsciiLetter(c)
    ensures DropLatin(w + [c] + t, false) == w + [c] + DropLatin(t, true)
  {
    var u := [c] + t;
    Regroup(w, c, t);
    LetterRunOfLetters(w, u);
    DropLatinKeepsRun(w + u);
    Halves(w, u);
    assert u[1..] == t;
    assert DropLatin(u, true) == [c] + DropLatin(t, true);
    Regroup(w, c, DropLatin(t, true));
  }

  lemma Regroup(w: string, c: char, t: string)
    ensures w + [c] + t == w + ([c] + t)
  {
  }

  lemma Halves(w: string, u: string)
    ensures (w + u)[..|w|] == w && (w + u)[|w|..] == u
  {
  }

  /** A run of letters at the start of a word, followed by a word character, stays. */
  lemma DropLatinKeepsRun(s: string)
    requires s != [] && IsAsciiLetter(s[0])
    requires LetterRun(s) < |s| && IsWordChar(s[LetterRun(s)])
    ensures DropLatin(s, false) == s[..LetterRun(s)] + DropLatin(s[LetterRun(s)..], true)
  {
  }

  /** The run of letters `w` at the front of `w + t`, when `t` does not start with one. */
  lemma {:induction false} LetterRunOfLetters(w: string, t: string)
    requires forall i :: 0 <= i < |w| ==> IsAsciiLetter(w[i])
    requires t == [] || !IsAsciiLetter(t[0])
    ensures LetterRun(w + t) == |w|
    decreases |w|
  {
    if w == [] {
      assert w + t == t;
    } else {
      assert (w + t)[1..] == w[1..] + t;
      LetterRunOfLetters(w[1..], t);
    }
  }

  /** Letters right after a word character stay: the run does not start a word. */
  lemma {:induction false} LatinAfterWordCharStays(w: string, t: string)
    requires forall i :: 0 <= i < |w| ==> IsAsciiLetter(w[i])
    ensures DropLatin(w + t, true) == w + DropLatin(t, true)
    decreases |w|
  {
    if w == [] {
      assert w + t == t;
    } else {
      assert (w + t)[1..] == w[1..] + t;
      LatinAfterWordCharStays(w[1..], t);
      assert DropLatin(w + t, true) == [w[0]] + DropLatin(w[1..] + t, true);
      assert [w[0]] + (w[1..] + DropLatin(t, true)) == w + DropLatin(t, true);
    }
  }

  /** At a character that is not a letter, the flag does not matter. */
  lemma DropLatinFlag(t: string, f: bool)
    requires t == [] || !IsAsciiLetter(t[0])
    ensures DropLatin(t, f) == DropLatin(t, false)
  {
  }

  /**
   * A Latin word standing between non-word characters (or the ends of the
   * text) disappears, and the text on each side is cleaned as if on its own.
   */
  lemma StandaloneLatinWordIsDropped(a: string, w: string, b: string)
    requires a == [] || !IsWordChar(a[|a| - 1])
    requires w != [] && forall i :: 0 <= i < |w| ==> IsAsciiLetter(w[i])
    requires b == [] || !IsWordChar(b[0])
    ensures DropLatinWords(a + w + b) == DropLatinWords(a) + DropLatinWords(b)
  {
    LeadingLatinWordIsDropped(w, b);
    if a == [] {
      assert a + w + b == w + b;
    } else {
      assert a + w + b == a + (w + b);
      DropLatinSplit(a, w + b, false);
    }
  }

  /** A Latin word at the start of the text goes, and the scan resumes as at a text start. */
  lemma LeadingLatinWordIsDropped(w: string, b: string)
    requires w != [] && forall i :: 0 <= i < |w| ==> IsAsciiLetter(w[i])
    requires b == [] || !IsWordChar(b[0])
    ensures DropLatin(w + b, false) == DropLatin(b, false)
  {
    LetterRunAll(w, b);
    var s := w + b;
    assert s[0] == w[0] && s[|w|..] == b;
    assert |w| == |s| || s[|w|] == b[0];
    DropLatinFlag(b, true);
  }

  /** A word of letters followed by a non-letter is exactly one run. */
  lemma {:induction false} LetterRunAll(w: string, b: string)
    requires forall i :: 0 <= i < |w| ==> IsAsciiLetter(w[i])
    requires b == [] || !IsAsciiLetter(b[0])
    ensures LetterRun(w + b) == |w|
    decreases |w|
  {
    if w != [] {
      assert (w + b)[1..] == w[1..] + b;
      LetterRunAll(w[1..], b);
    } else {
      assert w + b == b;
    }
  }

  /** Every search key is non-empty, as `str.replace` needs for a meaningful rule. */
  predicate KeysNonEmpty(rules: seq<(string, string)>) {
    forall k :: 0 <= k < |rules| ==> rules[k].0 != []
  }

  lemma ReplaceRulesKeysNonEmpty()
    ensures KeysNonEmpty(ReplaceRules)
  {
    forall k | 0 <= k < |ReplaceRules| ensures ReplaceRules[k].0 != [] {
      assert |ReplaceRules[k].0| >= 4;
    }
  }

  /**
   * The `REPLACE_RULES` loop: `answer = answer.replace(eng, ru)` for each
   * entry in order. A rule changes the text only if its key is present when
   * the rule's turn comes, and every character of the result comes from the
   * text or from a replacement.
   */
  function ApplyReplacements(rules: seq<(string, string)>, s: string): (r: string)
    requires KeysNonEmpty(rules)
    ensures (forall k :: 0 <= k < |rules| ==> !Contains(ApplyReplacements(rules[..k], s), rules[k].0)) ==> r == s
    ensures forall c :: c in r ==> c in s || exists k :: 0 <= k < |rules| && c in rules[k].1
    decreases |rules|
  {
    if rules == [] then s
    else
      var init := rules[..|rules| - 1];
      var prev := ApplyReplacements(init, s);
      var r := ReplaceAll(prev, rules[|rules| - 1].0, rules[|rules| - 1].1);
      assert (forall k :: 0 <= k < |rules| ==> !Contains(ApplyReplacements(rules[..k], s), rules[k].0)) ==> r == s by {
        if forall k :: 0 <= k < |rules| ==> !Contains(ApplyReplacements(rules[..k], s), rules[k].0) {
          forall k | 0 <= k < |init| ensures !Contains(ApplyReplacements(init[..k], s), init[k].0) {
            PrefixOfInit(rules, k);
          }
          assert rules[..|rules| - 1] == init;
        }
      }
      CharsFromLastRule(rules, init, s, prev, r);
      r
  }

  lemma PrefixOfInit(rules: seq<(string, string)>, k: nat)
    requires k < |rules|
    ensures rules[..|rules| - 1][..k] == rules[..k]
  {
  }

  /** The last rule's output draws on the previous text and the last replacement. */
  lemma CharsFromLastRule(rules: seq<(string, string)>, init: seq<(string, string)>, s: string, prev: string, r: string)
    requires rules != [] && init == rules[..|rules| - 1]
    requires forall c :: c in prev ==> c in s || exists k :: 0 <= k < |init| && c in init[k].1
    requires forall c :: c in r ==> c in prev || c in rules[|rules| - 1].1
    ensures forall c :: c in r ==> c in s || exists k :: 0 <= k < |rules| && c in rules[k].1
  {
    forall c | c in r && c !in s ensures exists k :: 0 <= k < |rules| && c in rules[k].1 {
      if c in prev {
        var k :| 0 <= k < |init| && c in init[k].1;
        assert rules[k] == init[k];
      } else {
        assert c in rules[|rules| - 1].1;
      }
    }
  }

  /** The characters stage 5 keeps: the complement of `Config.ALLOWED_SYMBOLS`. */
  predicate IsAllowedLite(c: char) {
    IsWordChar(c) || IsSpace(c) || c in {',', '.', '!', '?', '~', '…', '-'}
  }

  /** None of `~`, `...`, `ведь` occurs. */
  predicate Unsoftened(s: string) {
    !Contains(s, "~") && !Contains(s, "...") && !Contains(s, "ведь")
  }

  /** Softening: in a text without a softener, only the first `.` becomes `mark`. */
  function Soften(s: string, mark: string): (r: string)
    ensures !Unsoftened(s) ==> r == s
    ensures Unsoftened(s) && '.' !in s ==> r == s
    ensures Unsoftened(s) && '.' in s ==>
      exists i :: 0 <= i < |s| && s[i] == '.' && '.' !in s[..i] && r == s[..i] + mark + s[i + 1..]
  {
    if Unsoftened(s) then ReplaceFirst(s, '.', mark) else s
  }

  predicate WantsPadding(s: string) {
    WordCount(s) < PadBelowWords && !EndsWith(s, "...") && !EndsWith(s, "~")
  }

  /** Completion check: a short reply without a trailing `...` or `~` gets the question appended. */
  function PadLite(s: string): (r: string)
    ensures WantsPadding(s) ==> r == s + PadSuffix
    ensures !WantsPadding(s) ==> r == s
  {
    if WantsPadding(s) then s + PadSuffix else s
  }

  /** The position of the last `c` in `s`, or -1 (Python's `s.rfind(c)`). */
  function RFind(s: string, c: char): (i: int)
    ensures -1 <= i < |s|
    ensures i >= 0 ==> s[i] == c && forall j :: i < j < |s| ==> s[j] != c
    ensures i == -1 ==> forall j :: 0 <= j < |s| ==> s[j] != c
  {
    if s == [] then -1
    else if s[|s| - 1] == c then |s| - 1
    else RFind(s[..|s| - 1], c)
  }

  /**
   * The cut: a reply longer than 180 characters keeps what precedes the last
   * space among its first 175 characters (or those 175 when there is none)
   * and gets `...`.
   */
  function CapLength(s: string): (r: string)
    ensures |s| <= MaxLength ==> r == s
    ensures |s| > MaxLength ==>
      |r| <= CutWindow + 3 && EndsWith(r, "...") && r[..|r| - 3] <= s
      && (|r| - 3 == CutWindow || (s[|r| - 3] == ' ' && forall j :: |r| - 3 < j < CutWindow ==> s[j] != ' '))
      && (|r| - 3 == CutWindow ==> forall j :: 0 <= j < CutWindow ==> s[j] != ' ')
  {
    if |s| > MaxLength then
      var w := s[..CutWindow];
      var k := RFind(w, ' ');
      if k != -1 then s[..k] + "..." else w + "..."
    else s
  }

  // ---------------------------------------------------------------------
  // The whole rewrite
  // ---------------------------------------------------------------------

  /** No replacement text holds a `~`. */
  lemma ReplacementsAvoidTilde()
    ensures forall k :: 0 <= k < |ReplaceRules| ==> '~' !in ReplaceRules[k].1
  {
  }

  /**
   * Stages 1-5: the cleaned text before softening. Every character is
   * allowed, and no `~` survives the first stage or is brought in later.
   */
  function Cleaned(raw: string): (r: string)
    ensures forall i :: 0 <= i < |r| ==> IsAllowedLite(r[i])
    ensures '~' !in r
  {
    ReplaceRulesKeysNonEmpty();
    var d := ApplyReplacements(ReplaceRules, DropLatinWords(DropNoise(FirstPart(raw))));
    ReplacedAvoidsTilde(raw);
    Keep(IsAllowedLite, d)
  }

  /** Stages 1-4 leave no `~`: the first drops them all, and the rest bring none in. */
  lemma ReplacedAvoidsTilde(raw: string)
    ensures KeysNonEmpty(ReplaceRules)
    ensures '~' !in ApplyReplacements(ReplaceRules, DropLatinWords(DropNoise(FirstPart(raw))))
  {
    ReplaceRulesKeysNonEmpty();
    var a := FirstPart(raw);
    var b := DropNoise(a);
    var c := DropLatinWords(b);
    DropNoiseAvoids(a, '~');
    DropLatinOnlyDeletes(b, false);
    assert '~' !in c;
    ReplacementsAvoidTilde();
    ApplyReplacementsAvoids(ReplaceRules, c, '~');
  }

  /** Dropping the leading noise brings no character in. */
  lemma DropNoiseAvoids(s: string, ch: char)
    requires ch !in s
    ensures ch !in DropNoise(s)
  {
    var r := DropNoise(s);
    assert r == s[|s| - |r|..];
  }

  /** A character in neither the text nor any replacement is not in the result. */
  lemma ApplyReplacementsAvoids(rules: seq<(string, string)>, s: string, ch: char)
    requires KeysNonEmpty(rules)
    requires ch !in s && forall k :: 0 <= k < |rules| ==> ch !in rules[k].1
    ensures ch !in ApplyReplacements(rules, s)
  {
  }

  /** Stages 6-9 on a cleaned text: softening, padding, the emoji, the cut. */
  function Finished(s: string, d: LiteDraws): string
    requires ValidLiteDraws(d)
  {
    var soft := Soften(s, Softeners[d.soft]);
    var padded := PadLite(soft);
    var decorated := if d.roll < EmojiProbability then padded + Emojis[d.emoji] else padded;
    CapLength(decorated)
  }

  /** The reply `handle_message` sends for a completed call with answer `raw`. */
  function ShapedLite(raw: string, d: LiteDraws): string
    requires ValidLiteDraws(d)
  {
    Finished(Cleaned(raw), d)
  }

  /** Padding never leaves a reply empty: an empty text always has fewer than ten words. */
  lemma PaddedIsNonEmpty(s: string)
    ensures PadLite(s) != []
  {
    if s == [] {
      assert WantsPadding(s);
    }
  }

  /** Stages 6-9 give a non-empty reply of at most 180 characters. */
  lemma FinishedBounds(s: string, d: LiteDraws)
    requires ValidLiteDraws(d)
    ensures Finished(s, d) != []
    ensures |Finished(s, d)| <= MaxLength
  {
    PaddedIsNonEmpty(Soften(s, Softeners[d.soft]));
  }

  /** The reply is never empty and never longer than 180 characters. */
  lemma LiteReplyBounds(raw: string, d: LiteDraws)
    requires ValidLiteDraws(d)
    ensures ShapedLite(raw, d) != []
    ensures |ShapedLite(raw, d)| <= MaxLength
  {
    FinishedBounds(Cleaned(raw), d);
  }

  // ---------------------------------------------------------------------
  // The loops of handle_message
  // ---------------------------------------------------------------------

  /** The `REPLACE_RULES` loop. */
  method ReplaceWords(s: string) returns (r: string)
    ensures KeysNonEmpty(ReplaceRules) && r == ApplyReplacements(ReplaceRules, s)
  {
    ReplaceRulesKeysNonEmpty();
    r := s;
    for i := 0 to |ReplaceRules|
      invariant KeysNonEmpty(ReplaceRules[..i])
      invariant r == ApplyReplacements(ReplaceRules[..i], s)
    {
      var (eng, ru) := ReplaceRules[i];
      ApplyReplacementsStep(ReplaceRules, s, i);
      r := ReplaceAll(r, eng, ru);
    }
    assert ReplaceRules[..|ReplaceRules|] == ReplaceRules;
  }

  /** One more rule in the fold: its replacement runs on what the earlier rules left. */
  lemma ApplyReplacementsStep(rules: seq<(string, string)>, s: string, i: nat)
    requires KeysNonEmpty(rules) && i < |rules|
    ensures KeysNonEmpty(rules[..i]) && KeysNonEmpty(rules[..i + 1])
    ensures ApplyReplacements(rules[..i + 1], s) == ReplaceAll(ApplyReplacements(rules[..i], s), rules[i].0, rules[i].1)
  {
    assert rules[..i + 1][..i] == rules[..i];
  }

  /** Stages 1-5 of `handle_message`, one assignment per stage. */
  method CleanText(raw: string) returns (answer: string)
    ensures answer == Cleaned(raw)
  {
    answer := FirstPart(raw);
    answer := DropNoise(answer);
    answer := DropLatinWords(answer);
    answer := ReplaceWords(answer);
    answer := Keep(IsAllowedLite, answer);
  }

  /** Stages 6-9 of `handle_message`. */
  method FinishText(s: string, d: LiteDraws) returns (answer: string)
    requires ValidLiteDraws(d)
    ensures answer == Finished(s, d)
    ensures answer != [] && |answer| <= MaxLength
  {
    answer := s;
    if Unsoftened(answer) {
      answer := ReplaceFirst(answer, '.', Softeners[d.soft]);
    }
    if WantsPadding(answer) {
      answer := answer + PadSuffix;
    }
    if d.roll < EmojiProbability {
      answer := answer + Emojis[d.emoji];
    }
    if |answer| > MaxLength {
      var lastSpace := RFind(answer[..CutWindow], ' ');
      answer := if lastSpace != -1 then answer[..lastSpace] + "..." else answer[..CutWindow] + "...";
    }
    FinishedBounds(s, d);
  }

  /** The whole rewrite of a completion. */
  method ShapeLite(raw: string, d: LiteDraws) returns (answer: string)
    requires ValidLiteDraws(d)
    ensures answer == ShapedLite(raw, d)
    ensures answer != [] && |answer| <= MaxLength
  {
    answer := CleanText(raw);
    answer := FinishText(answer, d);
    LiteReplyBounds(raw, d);
  }
}
