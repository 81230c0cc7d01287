/**
 * The thirteen-stage rewrite `main.py` applies to a completion before it is
 * sent to the user. Regular-expression substitutions go through an abstract
 * `Substitution`; the morphological "is this a Latin word" test is a
 * predicate parameter `latn`; the random draws are a `Draws` value.
 */
module ZeroTwoShaper {
  import opened Strings
  import opened Regex
  import opened ZeroTwoConfig

  // ---------------------------------------------------------------------
  // Constants of the pipeline
  // ---------------------------------------------------------------------

  /** `fix_terminology`'s table, applied with `re.IGNORECASE`. */
  const TerminologyRules: seq<Rule> := [
    Rule("\\b(франкс)(ами|ов)\\b", "рёвозаврами", true),
    Rule("\\bразруш[а-я]+\\b", "уничтожение ядер", true),
    Rule("\\bсоперник\\b", "рёвозавр", true),
    Rule("\\bклон\\b", "гибрид", true)
  ]

  /**
   * The mixed-script rewrite: a word made of a Cyrillic prefix, a Latin run
   * and a Cyrillic suffix keeps only the prefix and the suffix.
   */
  const LatinRunRule: Rule := Rule("\\b([а-яА-ЯёЁ]*)[a-zA-Z]+([а-яА-ЯёЁ]*)\\b", "\\1\\2", false)

  const MaxSentences: nat := 2

  /** `len(answer.split()) < 5` triggers padding. */
  const MinWords: nat := 5

  /** `len(answer.split()) > 25` triggers the length cap. */
  const MaxWords: nat := 25

  const EmojiProbability: real := 0.4

  const ProvocativePhrases: seq<string> := ["Не скучаешь ведь?..", "Слабо повторить?..", "Или ты не готов?..", "Узнаешь свою судьбу~"]

  const AllowedEmojis: seq<string> := ["😈", "💥", "❤\U{FE0F}🔥", "💋"]

  /** The canned line for a blank reply (two literals, so that its first character is visible to the verifier). */
  const Fallback: string := "Хи-хи~ " + "Повтори, я отвлеклась на ядро рёвозавра~ 💋"

  /** The random choices one run makes: a filler phrase, the emoji coin (`random.random()`), an emoji. */
  datatype Draws = Draws(phrase: nat, roll: real, emoji: nat)

  predicate ValidDraws(d: Draws) {
    d.phrase < |ProvocativePhrases| && 0.0 <= d.roll < 1.0 && d.emoji < |AllowedEmojis|
  }

  // ---------------------------------------------------------------------
  // re.escape and the compiled replace rules
  // ---------------------------------------------------------------------

  /** The characters `re.escape` prefixes with a backslash. */
  const EscapedChars: set<char> := {'(', ')', '[', ']', '{', '}', '?', '*', '+', '-', '|', '^', '$', '\\', '.', '&', '~', '#', ' ', '\t', '\n', '\r', '\U{0B}', '\U{0C}'}

  /** Python's `re.escape(s)`. */
  function Escape(s: string): (r: string)
    ensures |r| >= |s|
    ensures forall i :: 0 <= i < |s| && s[i] !in EscapedChars ==> s[i] in r
  {
    if s == [] then []
    else (if s[0] in EscapedChars then ['\\', s[0]] else [s[0]]) + Escape(s[1..])
  }

  /** What a pattern without metacharacters matches: each `\x` stands for `x`. */
  function Unescape(p: string): (r: string)
    ensures |r| <= |p|
    decreases |p|
  {
    if p == [] then []
    else if p[0] == '\\' && |p| >= 2 then [p[1]] + Unescape(p[2..])
    else [p[0]] + Unescape(p[1..])
  }

  /** An escaped literal matches exactly the literal: `re.escape` loses nothing. */
  lemma {:induction false} UnescapeEscape(s: string)
    ensures Unescape(Escape(s)) == s
    decreases |s|
  {
    if s != [] {
      UnescapeEscape(s[1..]);
      var head := if s[0] in EscapedChars then ['\\', s[0]] else [s[0]];
      assert Escape(s) == head + Escape(s[1..]);
      if s[0] in EscapedChars {
        assert Escape(s)[2..] == Escape(s[1..]);
      } else {
        assert s[0] != '\\';
        assert Escape(s)[1..] == Escape(s[1..]);
      }
    }
  }

  /**
   * One `REPLACE_RULES` entry as the loop applies it: a key that starts with
   * `\b` is used as a pattern, any other key is escaped and wrapped in `\b`.
   */
  function Compile(entry: (string, string)): (r: Rule)
    ensures r.replacement == entry.1 && r.ignoreCase
    ensures "\\b" <= entry.0 ==> r.pattern == entry.0
    ensures !("\\b" <= entry.0) ==> r.pattern == "\\b" + Escape(entry.0) + "\\b"
  {
    if "\\b" <= entry.0 then Rule(entry.0, entry.1, true)
    else Rule("\\b" + Escape(entry.0) + "\\b", entry.1, true)
  }

  /** Every entry of a table, compiled. */
  function CompileAll(table: seq<(string, string)>): (r: seq<Rule>)
    ensures |r| == |table|
    ensures forall k :: 0 <= k < |r| ==> r[k] == Compile(table[k])
  {
    seq(|table|, k requires 0 <= k < |table| => Compile(table[k]))
  }

  function CompiledReplaceRules(): (r: seq<Rule>)
    ensures |r| == |ReplaceRules|
    ensures forall k :: 0 <= k < |r| ==> r[k] == Compile(ReplaceRules[k])
  {
    CompileAll(ReplaceRules)
  }

  // ---------------------------------------------------------------------
  // The stages
  // ---------------------------------------------------------------------

  /** Stage 1, `raw.split("~")[0].strip()`: the text before the first `~`, trimmed. */
  function FirstSegment(raw: string): (r: string)
    ensures '~' !in r
    ensures Trimmed(r)
    ensures '~' !in raw ==> r == Strip(raw)
    ensures '~' in raw ==> r == Strip(raw[..IndexOf(raw, '~')])
  {
    var head := SplitOn(raw, {'~'})[0];
    assert '~' !in head by { assert Avoids(head, {'~'}); }
    assert '~' !in raw ==> head == raw by {
      if '~' !in raw { assert Avoids(raw, {'~'}); }
    }
    assert '~' in raw ==> head == raw[..IndexOf(raw, '~')] by {
      if '~' in raw { SplitHead(raw, '~'); }
    }
    Strip(head)
  }

  /**
   * Stage 5: `for word in words: if LATN(word): answer = answer.replace(word, '')`,
   * where `words` is the split taken before the loop starts.
   */
  function PurgeWords(words: seq<string>, text: string, latn: string -> bool): (r: string)
    requires forall k :: 0 <= k < |words| ==> words[k] != []
    ensures forall c :: c in r ==> c in text
    ensures (forall k :: 0 <= k < |words| ==> !latn(words[k])) ==> r == text
    decreases |words|
  {
    if words == [] then text
    else
      var prev := PurgeWords(words[..|words| - 1], text, latn);
      var w := words[|words| - 1];
      if latn(w) then ReplaceAll(prev, w, "") else prev
  }

  /** `Config.ALLOWED_SYMBOLS` negated: the characters stage 8 keeps. */
  predicate IsAllowed(c: char) {
    IsWordChar(c) || IsSpace(c)
    || c in {',', '.', '!', '?', '~', '…', '💋', '😈', '❤', '\U{FE0F}', '🔥', '*', '-'}
  }

  /**
   * A text stages 6-8 have nothing to do on: empty or starting with a Cyrillic
   * letter, trimmed, single-spaced and made of allowed characters.
   */
  predicate CleanFront(t: string) {
    && (t == [] || IsCyrillic(t[0]))
    && Trimmed(t)
    && SingleSpaced(t)
    && forall i :: 0 <= i < |t| ==> IsAllowed(t[i])
  }

  /**
   * Stages 6-8: drop the leading run of non-Cyrillic characters, collapse
   * whitespace runs to one space, strip, then delete every character outside
   * the allowed set. The result is empty or starts with a Cyrillic letter.
   */
  function FrontShape(s: string): (r: string)
    ensures r == [] || IsCyrillic(r[0])
    ensures forall i :: 0 <= i < |r| ==> IsAllowed(r[i])
    ensures forall c :: c in r ==> c in s || c == ' '
  {
    var t := Strip(CollapseSpaces(DropWhile(NotCyrillic, s)));
    FrontStartsCyrillic(s);
    FrontKeepsChars(s);
    Keep(IsAllowed, t)
  }

  /**
   * Leading non-Cyrillic noise goes, and the clean text after it survives
   * whole; with no noise, a clean text comes through unchanged.
   */
  lemma FrontShapeDropsNoise(noise: string, t: string)
    requires forall i :: 0 <= i < |noise| ==> NotCyrillic(noise[i])
    requires CleanFront(t)
    ensures FrontShape(noise + t) == t
  {
    DropWhileOverPrefix(NotCyrillic, noise, t);
    CollapseSingleSpaced(t);
    StripTrimmed(t);
  }

  /** After stages 6-7 the text is empty or starts with a Cyrillic letter. */
  lemma FrontStartsCyrillic(s: string)
    ensures var t := Strip(CollapseSpaces(DropWhile(NotCyrillic, s))); t == [] || IsCyrillic(t[0])
  {
    var a := DropWhile(NotCyrillic, s);
    var b := CollapseSpaces(a);
    DropNonCyrillicHead(s);
    if a != [] {
      assert NotSpace(a[0]);
      CyrillicHeadSurvivesStrip(b);
    } else {
      assert b == [];
    }
  }

  lemma DropNonCyrillicHead(s: string)
    ensures var a := DropWhile(NotCyrillic, s); a == [] || IsCyrillic(a[0])
  {
  }

  lemma CyrillicHeadSurvivesStrip(b: string)
    requires b != [] && IsCyrillic(b[0])
    ensures Strip(b) != [] && IsCyrillic(Strip(b)[0])
  {
    assert NotSpace(b[0]);
    StripKeepsFront(b);
  }

  /** Stages 6-7 bring in no character other than a space. */
  lemma FrontKeepsChars(s: string)
    ensures forall c :: c in Strip(CollapseSpaces(DropWhile(NotCyrillic, s))) ==> c in s || c == ' '
  {
    var a := DropWhile(NotCyrillic, s);
    assert forall c :: c in a ==> c in s by {
      forall c | c in a ensures c in s {
        var i :| 0 <= i < |a| && a[i] == c;
        assert s[|s| - |a| + i] == c;
      }
    }
  }

  /** The sentence terminators of stage 9, `[.!?…]`. */
  const Terminators: set<char> := {'.', '!', '?', '…'}

  /** No piece holds a character of `cs`. */
  predicate PiecesAvoid(parts: seq<string>, cs: set<char>) {
    forall k :: 0 <= k < |parts| ==> Avoids(parts[k], cs)
  }

  /** `[p.strip() for p in parts if p.strip()]`. */
  function StrippedNonEmpty(parts: seq<string>): (r: seq<string>)
    ensures |r| <= |parts|
    ensures forall k :: 0 <= k < |r| ==> r[k] != [] && Trimmed(r[k])
  {
    if parts == [] then []
    else
      var t := Strip(parts[0]);
      var rest := StrippedNonEmpty(parts[1..]);
      if t == [] then rest else ConsTrimmed(t, rest); [t] + rest
  }

  lemma ConsTrimmed(t: string, rest: seq<string>)
    requires t != [] && Trimmed(t)
    requires forall k :: 0 <= k < |rest| ==> rest[k] != [] && Trimmed(rest[k])
    ensures forall k :: 0 <= k < |[t] + rest| ==> ([t] + rest)[k] != [] && Trimmed(([t] + rest)[k])
  {
    forall k | 0 <= k < |[t] + rest|
      ensures ([t] + rest)[k] != [] && Trimmed(([t] + rest)[k])
    {
      if k > 0 {
        assert ([t] + rest)[k] == rest[k - 1];
      }
    }
  }

  /** The comprehension works piece by piece, keeping the order. */
  lemma {:induction false} StrippedNonEmptyAppend(a: seq<string>, b: seq<string>)
    ensures StrippedNonEmpty(a + b) == StrippedNonEmpty(a) + StrippedNonEmpty(b)
    decreases |a|
  {
    if a == [] {
      assert a + b == b;
    } else {
      var ab := a + b;
      assert ab[0] == a[0] && ab[1..] == a[1..] + b;
      StrippedStep(ab);
      StrippedStep(a);
      StrippedNonEmptyAppend(a[1..], b);
      RegroupPieces(StrippedPiece(a[0]), StrippedNonEmpty(a[1..]), StrippedNonEmpty(b));
    }
  }

  /** The contribution of one piece to the comprehension. */
  function StrippedPiece(p: string): seq<string> {
    if Strip(p) == [] then [] else [Strip(p)]
  }

  /** The first piece contributes its strip, or nothing when it is blank. */
  lemma StrippedStep(parts: seq<string>)
    requires parts != []
    ensures StrippedNonEmpty(parts) == StrippedPiece(parts[0]) + StrippedNonEmpty(parts[1..])
    ensures StrippedPiece(parts[0]) == [] <==> AllSpace(parts[0])
  {
    var t := Strip(parts[0]);
    if t == [] {
      assert StrippedNonEmpty(parts) == StrippedNonEmpty(parts[1..]);
    } else {
      assert StrippedNonEmpty(parts) == [t] + StrippedNonEmpty(parts[1..]);
    }
  }

  /** Nothing is left exactly when every piece is blank. */
  lemma {:induction false} StrippedEmptyIffBlank(parts: seq<string>)
    ensures StrippedNonEmpty(parts) == [] <==> AllBlank(parts)
    decreases |parts|
  {
    if parts != [] {
      StrippedStep(parts);
      StrippedEmptyIffBlank(parts[1..]);
      AllBlankCons(parts);
    }
  }

  /** Every piece is blank. */
  predicate AllBlank(parts: seq<string>) {
    forall k :: 0 <= k < |parts| ==> AllSpace(parts[k])
  }

  lemma AllBlankCons(parts: seq<string>)
    requires parts != []
    ensures AllBlank(parts) <==> AllSpace(parts[0]) && AllBlank(parts[1..])
  {
    var rest := parts[1..];
    assert forall k :: 1 <= k < |parts| ==> parts[k] == rest[k - 1];
    if AllSpace(parts[0]) && AllBlank(rest) {
      forall k | 0 <= k < |parts| ensures AllSpace(parts[k]) {
        if k > 0 {
          assert AllSpace(rest[k - 1]);
        }
      }
    }
  }

  lemma RegroupPieces(h: seq<string>, x: seq<string>, y: seq<string>)
    ensures h + (x + y) == (h + x) + y
  {
  }

  /** Trimming and dropping pieces never brings in a character the pieces avoided. */
  lemma {:induction false} StrippedNonEmptyAvoids(parts: seq<string>, cs: set<char>)
    requires PiecesAvoid(parts, cs)
    ensures PiecesAvoid(StrippedNonEmpty(parts), cs)
    decreases |parts|
  {
    if parts != [] {
      var rest := parts[1..];
      assert PiecesAvoid(rest, cs) by {
        assert forall k :: 0 <= k < |rest| ==> rest[k] == parts[k + 1];
      }
      StrippedNonEmptyAvoids(rest, cs);
      StripAvoids(parts[0], cs);
      StrippedStep(parts);
      PiecesAvoidAppend(StrippedPiece(parts[0]), StrippedNonEmpty(rest), cs);
    }
  }

  lemma StripAvoids(p: string, cs: set<char>)
    requires Avoids(p, cs)
    ensures Avoids(Strip(p), cs)
  {
    var t := Strip(p);
    forall i | 0 <= i < |t| ensures t[i] !in cs {
      assert t[i] in t;
      var j :| 0 <= j < |p| && p[j] == t[i];
    }
  }

  lemma PiecesAvoidAppend(x: seq<string>, y: seq<string>, cs: set<char>)
    requires PiecesAvoid(x, cs) && PiecesAvoid(y, cs)
    ensures PiecesAvoid(x + y, cs)
  {
    forall k | 0 <= k < |x + y| ensures Avoids((x + y)[k], cs) {
      if k >= |x| {
        assert (x + y)[k] == y[k - |x|];
      }
    }
  }

  /**
   * Stage 9: split on the terminators, keep the first `MaxSentences` pieces,
   * trim them, drop the empty ones and join the rest with `~`.
   */
  function CapSentences(s: string): (r: string)
    ensures Avoids(r, Terminators)
    ensures '~' !in s ==> multiset(r)['~'] <= MaxSentences - 1
  {
    var parts := Take(SplitOn(s, Terminators), MaxSentences);
    var kept := StrippedNonEmpty(parts);
    TakeSplitAvoidsSeps(s, Terminators, MaxSentences);
    KeptJoinAvoids(parts, Terminators);
    assert '~' !in s ==> multiset(Join(kept, '~'))['~'] <= MaxSentences - 1 by {
      if '~' !in s { CappedTildeCount(s, parts, kept); }
    }
    Join(kept, '~')
  }

  /**
   * Two non-blank sentences followed by the end of the text or another
   * terminator: the first two sentences are kept, stripped, joined by `~`, and
   * the rest is dropped.
   */
  lemma TwoSentencesKept(a: string, t: char, b: string, rest: string)
    requires Avoids(a, Terminators) && Avoids(b, Terminators) && t in Terminators
    requires rest == [] || rest[0] in Terminators
    requires !AllSpace(a) && !AllSpace(b)
    ensures CapSentences(a + [t] + b + rest) == Strip(a) + "~" + Strip(b)
  {
    FirstTwoPieces(a, t, b, rest);
    KeepTwoPieces(a, b);
  }

  /** The first two pieces of the split of such a text are the two sentences. */
  lemma FirstTwoPieces(a: string, t: char, b: string, rest: string)
    requires Avoids(a, Terminators) && Avoids(b, Terminators) && t in Terminators
    requires rest == [] || rest[0] in Terminators
    ensures Take(SplitOn(a + [t] + b + rest, Terminators), MaxSentences) == [a, b]
  {
    TwoPiecesOfSplit(a, t, b, rest, Terminators);
  }

  /** Two non-blank pieces are stripped and joined by `~`. */
  lemma KeepTwoPieces(a: string, b: string)
    requires !AllSpace(a) && !AllSpace(b)
    ensures Join(StrippedNonEmpty([a, b]), '~') == Strip(a) + "~" + Strip(b)
  {
    StrippedTwo(a, b);
    JoinTwo(Strip(a), Strip(b), '~');
  }

  lemma StrippedTwo(a: string, b: string)
    requires !AllSpace(a) && !AllSpace(b)
    ensures StrippedNonEmpty([a, b]) == [Strip(a), Strip(b)]
  {
    var ps := [a, b];
    assert ps[0] == a && ps[1..] == [b];
    StrippedCons(ps);
    StrippedOne(b);
    JoinHead(Strip(a), Strip(b));
  }

  lemma JoinHead(x: string, y: string)
    ensures [x] + [y] == [x, y]
  {
  }

  /** A non-blank piece in front contributes its strip. */
  lemma StrippedCons(parts: seq<string>)
    requires parts != [] && !AllSpace(parts[0])
    ensures StrippedNonEmpty(parts) == [Strip(parts[0])] + StrippedNonEmpty(parts[1..])
  {
  }

  lemma StrippedOne(a: string)
    requires !AllSpace(a)
    ensures StrippedNonEmpty([a]) == [Strip(a)]
  {
    var ps := [a];
    assert ps[0] == a && ps[1..] == [];
    StrippedCons(ps);
  }

  /** A text without a terminator is one sentence: it is only stripped. */
  lemma OneSentenceKept(s: string)
    requires Avoids(s, Terminators)
    ensures CapSentences(s) == Strip(s)
  {
    assert SplitOn(s, Terminators) == [s];
    assert Take([s], MaxSentences) == [s];
    if AllSpace(s) {
      StrippedStep([s]);
      assert [s][1..] == [];
    } else {
      StrippedOne(s);
    }
  }

  /** The first `n` pieces of a split hold no separator. */
  lemma TakeSplitAvoidsSeps(s: string, seps: set<char>, n: nat)
    ensures PiecesAvoid(Take(SplitOn(s, seps), n), seps)
  {
    var pieces := SplitOn(s, seps);
    var parts := Take(pieces, n);
    forall k | 0 <= k < |parts| ensures Avoids(parts[k], seps) {
      assert parts[k] == pieces[k];
    }
  }

  /** Trimming, dropping and joining with `~` keeps out what the pieces kept out. */
  lemma KeptJoinAvoids(parts: seq<string>, cs: set<char>)
    requires PiecesAvoid(parts, cs) && '~' !in cs
    ensures Avoids(Join(StrippedNonEmpty(parts), '~'), cs)
  {
    StrippedNonEmptyAvoids(parts, cs);
    JoinAvoids(StrippedNonEmpty(parts), '~', cs);
  }

  lemma CappedTildeCount(s: string, parts: seq<string>, kept: seq<string>)
    requires parts == Take(SplitOn(s, Terminators), MaxSentences) && kept == StrippedNonEmpty(parts)
    requires '~' !in s
    ensures multiset(Join(kept, '~'))['~'] <= MaxSentences - 1
  {
    SplitPiecesAvoid(s, Terminators, MaxSentences, '~');
    StrippedNonEmptyAvoids(parts, {'~'});
    JoinCount(kept, '~');
  }

  /** A character absent from the text is absent from every piece of its split. */
  lemma SplitPiecesAvoid(s: string, seps: set<char>, n: nat, c: char)
    requires c !in s
    ensures PiecesAvoid(Take(SplitOn(s, seps), n), {c})
  {
    var parts := Take(SplitOn(s, seps), n);
    forall j, i | 0 <= j < |parts| && 0 <= i < |parts[j]| ensures parts[j][i] !in {c} {
      assert parts[j][i] in SplitOn(s, seps)[j];
      SplitPiecesInside(s, seps, j, parts[j][i]);
    }
  }

  /** Joining pieces that avoid `cs` with a separator outside `cs` avoids `cs`. */
  lemma {:induction false} JoinAvoids(parts: seq<string>, sep: char, cs: set<char>)
    requires PiecesAvoid(parts, cs) && sep !in cs
    ensures Avoids(Join(parts, sep), cs)
    decreases |parts|
  {
    if |parts| > 1 {
      JoinAvoids(parts[1..], sep, cs);
      var r := Join(parts, sep);
      var rest := Join(parts[1..], sep);
      assert r == parts[0] + [sep] + rest;
      forall i | 0 <= i < |r| ensures r[i] !in cs {
        if i < |parts[0]| {
          assert r[i] == parts[0][i];
        } else if i > |parts[0]| {
          assert r[i] == rest[i - |parts[0]| - 1];
        }
      }
    }
  }

  /** The pieces of a split hold only characters of the text, and no separator. */
  lemma {:induction false} SplitPiecesInside(s: string, seps: set<char>, j: nat, c: char)
    requires j < |SplitOn(s, seps)| && c in SplitOn(s, seps)[j]
    ensures c in s && c !in seps
    decreases |s|
  {
    var parts := SplitOn(s, seps);
    var i :| 0 <= i < |parts[j]| && parts[j][i] == c;
    assert Avoids(parts[j], seps);
    if s != [] {
      var rest := SplitOn(s[1..], seps);
      if s[0] in seps {
        assert j >= 1 && parts[j] == rest[j - 1];
        SplitPiecesInside(s[1..], seps, j - 1, c);
      } else if j == 0 {
        if c != s[0] {
          assert c in rest[0];
          SplitPiecesInside(s[1..], seps, 0, c);
        }
      } else {
        assert parts[j] == rest[j];
        SplitPiecesInside(s[1..], seps, j, c);
      }
    }
  }

  /** Stage 10: a reply of fewer than five words gets a filler phrase appended. */
  function Pad(s: string, phrase: string): (r: string)
    ensures WordCount(s) < MinWords ==> r == s + " " + phrase
    ensures WordCount(s) >= MinWords ==> r == s
  {
    if WordCount(s) < MinWords then s + " " + phrase else s
  }

  /** Stage 11: a blank reply is replaced by the canned line. */
  function OrFallback(s: string): (r: string)
    ensures !AllSpace(r)
    ensures !AllSpace(s) ==> r == s
  {
    if Strip(s) == [] then
      assert !IsSpace(Fallback[0]);
      Fallback
    else s
  }

  /** Stage 12: strip every trailing `.`, `!` and `?` and append a space and the emoji. */
  function AddEmoji(s: string, emoji: string): (r: string)
    ensures r == DropWhileEnd(c => c in {'.', '!', '?'}, s) + " " + emoji
    ensures EndsWith(r, emoji)
  {
    DropWhileEnd(c => c in {'.', '!', '?'}, s) + " " + emoji
  }

  /**
   * Stage 13: above 25 words, keep the first two `~`-separated segments and
   * add `...`. What is kept is the prefix of the text up to its second `~`
   * (or all of it), holding one `~` when the text has any.
   */
  function LengthCap(s: string): (r: string)
    ensures WordCount(s) <= MaxWords ==> r == s
    ensures WordCount(s) > MaxWords ==> EndsWith(r, "...") && CutAtSecondTilde(r[..|r| - 3], s)
  {
    if WordCount(s) > MaxWords then
      var p := Join(Take(SplitOn(s, {'~'}), 2), '~');
      FirstTwoSegments(s);
      var r := p + "...";
      assert r[..|r| - 3] == p;
      r
    else s
  }

  /** `p` is `s` up to (not including) its second `~`, or all of `s` when it has fewer. */
  predicate CutAtSecondTilde(p: string, s: string) {
    && p <= s
    && multiset(p)['~'] == (if '~' in s then 1 else 0)
    && (p == s || s[|p|] == '~')
  }

  /** `'~'.join(s.split('~')[:2])` is the text up to its second `~`. */
  lemma FirstTwoSegments(s: string)
    ensures CutAtSecondTilde(Join(Take(SplitOn(s, {'~'}), 2), '~'), s)
  {
    var parts := SplitOn(s, {'~'});
    SplitCount(s, '~');
    if |parts| <= 2 {
      FewSegments(s);
    } else {
      ManySegments(s, parts);
    }
  }

  /** With at most one `~` the whole text is kept. */
  lemma FewSegments(s: string)
    requires multiset(s)['~'] <= 1
    ensures CutAtSecondTilde(Join(Take(SplitOn(s, {'~'}), 2), '~'), s)
  {
    SplitCount(s, '~');
    JoinSplit(s, '~');
    assert Take(SplitOn(s, {'~'}), 2) == SplitOn(s, {'~'});
    assert '~' in s <==> multiset(s)['~'] > 0;
  }

  /** With two or more `~` the text is cut just before the second one. */
  lemma ManySegments(s: string, parts: seq<string>)
    requires parts == SplitOn(s, {'~'}) && |parts| > 2
    ensures CutAtSecondTilde(Join(Take(parts, 2), '~'), s)
  {
    var p := Join(parts[..2], '~');
    assert Take(parts, 2) == parts[..2];
    JoinSplit(s, '~');
    assert parts == parts[..2] + parts[2..];
    JoinAppend(parts[..2], parts[2..], '~');
    var q := Join(parts[2..], '~');
    assert s == p + ['~'] + q;
    assert s[|p|] == '~' && p <= s;
    assert forall k :: 0 <= k < 2 ==> Avoids(parts[..2][k], {'~'});
    JoinCount(parts[..2], '~');
  }

  // ---------------------------------------------------------------------
  // The whole pipeline as a specification
  // ---------------------------------------------------------------------

  /** Stages 1-5: segment, terminology, mixed script, replace rules, Latin words. */
  function Rewritten(raw: string, rx: Substitution, latn: string -> bool): string {
    var a := FirstSegment(raw);
    var b := ApplyRules(TerminologyRules, a, rx);
    var c := rx(LatinRunRule, b);
    var d := ApplyRules(CompiledReplaceRules(), c, rx);
    PurgeWords(Words(d), d, latn)
  }

  /** Compiling keeps the replacements, so the compiled rules bring in no `~` either. */
  lemma CompiledRulesAvoidTilde()
    ensures ReplacementsAvoid(CompiledReplaceRules(), '~')
  {
    ReplaceRulesAvoidTilde();
    var rules := CompiledReplaceRules();
    forall k | 0 <= k < |rules| ensures '~' !in rules[k].replacement {
      assert rules[k] == Compile(ReplaceRules[k]);
    }
  }

  /** None of the replacement templates holds a `~`. */
  lemma TemplatesAvoidTilde()
    ensures ReplacementsAvoid(TerminologyRules, '~')
    ensures '~' !in LatinRunRule.replacement
    ensures ReplacementsAvoid(CompiledReplaceRules(), '~')
  {
    CompiledRulesAvoidTilde();
  }

  /** Every rule `handle_message` passes to `re.sub`, in the order it passes them. */
  function ProgramRules(): (r: seq<Rule>)
    ensures forall k :: 0 <= k < |TerminologyRules| ==> TerminologyRules[k] in r
    ensures LatinRunRule in r
    ensures forall k :: 0 <= k < |CompiledReplaceRules()| ==> CompiledReplaceRules()[k] in r
  {
    var r := TerminologyRules + [LatinRunRule] + CompiledReplaceRules();
    assert forall k :: 0 <= k < |CompiledReplaceRules()| ==> r[|TerminologyRules| + 1 + k] == CompiledReplaceRules()[k];
    r
  }

  /**
   * With a substitution that only copies on the rules the handler passes,
   * stages 1-5 cannot produce a `~`.
   */
  lemma RewrittenHasNoTilde(raw: string, rx: Substitution, latn: string -> bool)
    requires KeepsChars(rx, ProgramRules())
    ensures '~' !in Rewritten(raw, rx, latn)
  {
    var a := FirstSegment(raw);
    TemplatesAvoidTilde();
    KeepsCharsOnPart(rx, ProgramRules(), TerminologyRules);
    KeepsCharsOnPart(rx, ProgramRules(), CompiledReplaceRules());
    ApplyRulesKeepsAbsent(TerminologyRules, a, rx, '~');
    var b := ApplyRules(TerminologyRules, a, rx);
    assert '~' !in rx(LatinRunRule, b);
    ApplyRulesKeepsAbsent(CompiledReplaceRules(), rx(LatinRunRule, b), rx, '~');
  }

  /** Stages 1-9: the text before padding. */
  function Cleaned(raw: string, rx: Substitution, latn: string -> bool): (r: string)
    ensures Avoids(r, Terminators)
  {
    CapSentences(FrontShape(Rewritten(raw, rx, latn)))
  }

  /** The reply `handle_message` sends for a completed call with answer `raw`. */
  function Shaped(raw: string, rx: Substitution, latn: string -> bool, d: Draws): string
    requires ValidDraws(d)
  {
    Finished(Cleaned(raw, rx, latn), d)
  }

  /** Stages 10-13: pad, fall back, decorate, cap. */
  function Finished(s: string, d: Draws): string
    requires ValidDraws(d)
  {
    var padded := Pad(s, ProvocativePhrases[d.phrase]);
    var full := OrFallback(padded);
    var decorated := if d.roll < EmojiProbability then AddEmoji(full, AllowedEmojis[d.emoji]) else full;
    LengthCap(decorated)
  }

  // ---------------------------------------------------------------------
  // Properties of the pipeline
  // ---------------------------------------------------------------------

  /** Padding always leaves some non-blank text, so stage 11's fallback never fires. */
  lemma PaddedIsNeverBlank(s: string, phrase: string)
    requires phrase in ProvocativePhrases
    ensures !AllSpace(Pad(s, phrase))
    ensures OrFallback(Pad(s, phrase)) == Pad(s, phrase)
  {
    var r := Pad(s, phrase);
    if WordCount(s) < MinWords {
      assert r[|s| + 1] == phrase[0];
    } else {
      WordCountZero(s);
    }
  }

  /** The user never receives an empty reply. */
  lemma ShapedIsNeverEmpty(raw: string, rx: Substitution, latn: string -> bool, d: Draws)
    requires ValidDraws(d)
    ensures Shaped(raw, rx, latn, d) != []
  {
    FinishedIsNeverEmpty(Cleaned(raw, rx, latn), d);
  }

  lemma FinishedIsNeverEmpty(s: string, d: Draws)
    requires ValidDraws(d)
    ensures Finished(s, d) != []
  {
    var padded := Pad(s, ProvocativePhrases[d.phrase]);
    var full := OrFallback(padded);
    var decorated := if d.roll < EmojiProbability then AddEmoji(full, AllowedEmojis[d.emoji]) else full;
    assert decorated != [];
    LengthCapNonEmpty(decorated);
  }

  lemma LengthCapNonEmpty(s: string)
    requires s != []
    ensures LengthCap(s) != []
  {
    if WordCount(s) > MaxWords {
      assert EndsWith(LengthCap(s), "...");
    }
  }

  /**
   * On a text with at most one `~` the length cap keeps everything and only
   * appends `...`: it does not bound the number of words.
   */
  lemma LengthCapOnlyAppends(s: string)
    requires multiset(s)['~'] <= 1 && WordCount(s) > MaxWords
    ensures LengthCap(s) == s + "..."
  {
    SplitCount(s, '~');
    JoinSplit(s, '~');
  }

  /** So a long reply with at most one `~` is still longer than 25 words after the cap. */
  lemma LengthCapDoesNotBoundWords(s: string)
    requires multiset(s)['~'] <= 1 && WordCount(s) > MaxWords
    ensures WordCount(LengthCap(s)) > MaxWords
  {
    LengthCapOnlyAppends(s);
    WordCountAppend(s, "...");
  }

  /**
   * `split()` sees no space at a `~`: two words joined by the sentence `~`
   * count as one, for padding and for the length cap alike.
   */
  lemma TildeJoinsWords(a: string, b: string)
    requires a != [] && b != []
    requires forall i :: 0 <= i < |a| ==> NotSpace(a[i])
    requires forall i :: 0 <= i < |b| ==> NotSpace(b[i])
    ensures WordCount(a + "~" + b) == 1
  {
    var s := a + "~" + b;
    forall i | 0 <= i < |s| ensures NotSpace(s[i]) {
      if i < |a| {
        assert s[i] == a[i];
      } else if i > |a| {
        assert s[i] == b[i - |a| - 1];
      }
    }
    OneWord(s);
  }

  /** Whatever the completion, the cleaned text is at most two sentences joined by one `~`. */
  lemma CleanedHasAtMostTwoSentences(raw: string, rx: Substitution, latn: string -> bool)
    requires KeepsChars(rx, ProgramRules())
    ensures |SplitOn(Cleaned(raw, rx, latn), {'~'})| <= MaxSentences
  {
    RewrittenHasNoTilde(raw, rx, latn);
    SplitCount(Cleaned(raw, rx, latn), '~');
  }

  // ---------------------------------------------------------------------
  // The loops of handle_message
  // ---------------------------------------------------------------------

  /** `fix_terminology`: the four rewrites in order. */
  method FixTerminology(text: string, rx: Substitution) returns (r: string)
    ensures r == ApplyRules(TerminologyRules, text, rx)
  {
    r := text;
    for i := 0 to |TerminologyRules|
      invariant r == ApplyRules(TerminologyRules[..i], text, rx)
    {
      assert TerminologyRules[..i + 1][..i] == TerminologyRules[..i];
      r := rx(TerminologyRules[i], r);
    }
    assert TerminologyRules[..|TerminologyRules|] == TerminologyRules;
  }

  /** The `REPLACE_RULES` loop, choosing pattern or escaped literal per entry. */
  method ApplyReplaceRules(text: string, rx: Substitution) returns (r: string)
    ensures r == ApplyRules(CompiledReplaceRules(), text, rx)
  {
    r := ApplyTable(ReplaceRules, text, rx);
  }

  /** The loop over a table of `(pattern, replacement)` entries. */
  method ApplyTable(table: seq<(string, string)>, text: string, rx: Substitution) returns (r: string)
    ensures r == ApplyRules(CompileAll(table), text, rx)
  {
    var rules := CompileAll(table);
    r := text;
    for i := 0 to |table|
      invariant r == ApplyRules(rules[..i], text, rx)
    {
      var (eng, ru) := table[i];
      ApplyRulesStep(rules, i, text, rx);
      ghost var before := r;
      assert rules[i] == Compile((eng, ru));
      if "\\b" <= eng {
        r := rx(Rule(eng, ru, true), r);
      } else {
        r := rx(Rule("\\b" + Escape(eng) + "\\b", ru, true), r);
      }
      assert r == rx(rules[i], before);
    }
    assert rules[..|rules|] == rules;
  }

  /** The Latin-word loop over the words of the text as it stood before the loop. */
  method PurgeLatinWords(text: string, latn: string -> bool) returns (r: string)
    ensures r == PurgeWords(Words(text), text, latn)
  {
    var words := Words(text);
    r := text;
    for i := 0 to |words|
      invariant r == PurgeWords(words[..i], text, latn)
    {
      assert words[..i + 1][..i] == words[..i];
      if latn(words[i]) {
        r := ReplaceAll(r, words[i], "");
      }
    }
    assert words[..|words|] == words;
  }

  /** Stages 1-9 of `handle_message`, one assignment per stage. */
  method CleanAnswer(raw: string, rx: Substitution, latn: string -> bool) returns (answer: string)
    ensures answer == Cleaned(raw, rx, latn)
  {
    answer := FirstSegment(raw);
    answer := FixTerminology(answer, rx);
    answer := rx(LatinRunRule, answer);
    answer := ApplyReplaceRules(answer, rx);
    answer := PurgeLatinWords(answer, latn);
    answer := FrontShape(answer);
    answer := CapSentences(answer);
  }

  /** Stages 10-13 of `handle_message`. */
  method FinishAnswer(cleaned: string, d: Draws) returns (answer: string)
    requires ValidDraws(d)
    ensures answer == Finished(cleaned, d)
    ensures answer != []
  {
    answer := cleaned;
    if WordCount(answer) < MinWords {
      answer := answer + " " + ProvocativePhrases[d.phrase];
    }
    if Strip(answer) == [] {
      answer := Fallback;
    }
    if d.roll < EmojiProbability {
      answer := AddEmoji(answer, AllowedEmojis[d.emoji]);
    }
    if WordCount(answer) > MaxWords {
      answer := LengthCap(answer);
    }
    FinishedIsNeverEmpty(cleaned, d);
  }

  /** The whole rewrite of a completed answer. */
  method Shape(raw: string, rx: Substitution, latn: string -> bool, d: Draws) returns (answer: string)
    requires ValidDraws(d)
    ensures answer == Shaped(raw, rx, latn, d)
    ensures answer != []
  {
    answer := CleanAnswer(raw, rx, latn);
    answer := FinishAnswer(answer, d);
  }
}
