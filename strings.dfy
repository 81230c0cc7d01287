/**
 * Character classes and the Python `str` operations that both bots apply to
 * user text and to model completions: `lower`, `in`, `strip`, `rstrip`,
 * `split`, `join`, `replace`, and the handful of regular expressions that
 * reduce to a character-class rewrite (`\s+`, `^[...]+`, `[^...]`).
 */
module Strings {

  /** Python's `str.isspace()`; `\s`, `split()` and `strip()` all use it. */
  predicate IsSpace(c: char) {
    c == ' ' || '\t' <= c <= '\r' || '\U{1C}' <= c <= '\U{1F}' || c == '\U{85}' || c == '\U{A0}'
    || c == '\U{1680}' || '\U{2000}' <= c <= '\U{200A}' || c == '\U{2028}' || c == '\U{2029}'
    || c == '\U{202F}' || c == '\U{205F}' || c == '\U{3000}'
  }

  predicate NotSpace(c: char) { !IsSpace(c) }

  predicate IsAsciiLetter(c: char) { 'a' <= c <= 'z' || 'A' <= c <= 'Z' }

  predicate IsDigit(c: char) { '0' <= c <= '9' }

  /** The class `[а-яА-ЯёЁ]` written out in both bots. */
  predicate IsCyrillic(c: char) { 'а' <= c <= 'я' || 'А' <= c <= 'Я' || c == 'ё' || c == 'Ё' }

  predicate NotCyrillic(c: char) { !IsCyrillic(c) }

  /** `\w`, restricted to the scripts the bots deal with (see README). */
  predicate IsWordChar(c: char) { IsAsciiLetter(c) || IsDigit(c) || c == '_' || IsCyrillic(c) }

  predicate IsUpper(c: char) { 'A' <= c <= 'Z' || 'А' <= c <= 'Я' || c == 'Ё' }

  predicate AllSpace(s: string) { forall i :: 0 <= i < |s| ==> IsSpace(s[i]) }

  predicate Avoids(s: string, cs: set<char>) { forall i :: 0 <= i < |s| ==> s[i] !in cs }

  /** Python's `c.lower()` on the Latin and Cyrillic alphabets. */
  function Lower(c: char): (r: char)
    ensures !IsUpper(r)
    ensures IsWordChar(r) == IsWordChar(c)
    ensures !IsUpper(c) ==> r == c
  {
    if 'A' <= c <= 'Z' || 'А' <= c <= 'Я' then (c as int + 32) as char
    else if c == 'Ё' then 'ё'
    else c
  }

  /** Python's `s.lower()`. */
  function LowerStr(s: string): (r: string)
    ensures |r| == |s|
    ensures forall i :: 0 <= i < |s| ==> r[i] == Lower(s[i])
  {
    seq(|s|, i requires 0 <= i < |s| => Lower(s[i]))
  }

  /** Python's `p in s` for strings: `p` occurs in `s` as a substring. */
  predicate Contains(s: string, p: string) {
    exists i :: 0 <= i <= |s| && p <= s[i..]
  }

  /** Python's `s.endswith(suffix)`. */
  predicate EndsWith(s: string, suffix: string) {
    |suffix| <= |s| && s[|s| - |suffix|..] == suffix
  }

  /** The regex `^[...]+` replaced by '': drop the longest prefix whose characters satisfy `p`. */
  function DropWhile(p: char -> bool, s: string): (r: string)
    ensures |r| <= |s| && r == s[|s| - |r|..]
    ensures forall i :: 0 <= i < |s| - |r| ==> p(s[i])
    ensures r == [] || !p(r[0])
    decreases |s|
  {
    if s != [] && p(s[0]) then DropWhile(p, s[1..]) else s
  }

  /** Python's `s.rstrip(chars)`: drop the longest suffix whose characters satisfy `p`. */
  function DropWhileEnd(p: char -> bool, s: string): (r: string)
    ensures r <= s
    ensures forall i :: |r| <= i < |s| ==> p(s[i])
    ensures r == [] || !p(r[|r| - 1])
    decreases |s|
  {
    if s != [] && p(s[|s| - 1]) then DropWhileEnd(p, s[..|s| - 1]) else s
  }

  /** No whitespace at either end. */
  predicate Trimmed(t: string) {
    t == [] || (NotSpace(t[0]) && NotSpace(t[|t| - 1]))
  }

  /** Python's `s.strip()`. */
  function Strip(s: string): (r: string)
    ensures Trimmed(r)
    ensures r == [] <==> AllSpace(s)
    ensures forall c :: c in r ==> c in s
  {
    var t := DropWhile(IsSpace, s);
    var r := DropWhileEnd(IsSpace, t);
    StripSteps(s, t, r);
    r
  }

  lemma StripSteps(s: string, t: string, r: string)
    requires t == DropWhile(IsSpace, s) && r == DropWhileEnd(IsSpace, t)
    ensures Trimmed(r)
    ensures r == [] <==> AllSpace(s)
    ensures forall c :: c in r ==> c in s
  {
    StripEnds(s, t, r);
    StripEmptyIffAllSpace(s, t, r);
    var d := |s| - |t|;
    assert d <= |s| && t == s[d..] && r <= t;
    PrefixOfSuffix(s, d, t, r);
    SliceChars(s, d, r);
  }

  /** Neither end of the strip is a space. */
  lemma StripEnds(s: string, t: string, r: string)
    requires t == DropWhile(IsSpace, s) && r == DropWhileEnd(IsSpace, t)
    ensures Trimmed(r)
  {
    if r != [] {
      assert r[0] == t[0];
    }
  }

  /** A prefix of the suffix from `d` is the slice starting at `d`. */
  lemma PrefixOfSuffix(s: string, d: nat, t: string, r: string)
    requires d <= |s| && t == s[d..] && r <= t
    ensures d + |r| <= |s| && r == s[d..d + |r|]
  {
    forall i | 0 <= i < |r| ensures r[i] == s[d + i] {
      assert r[i] == t[i];
    }
  }

  /** Nothing is left exactly when every character is a space. */
  lemma StripEmptyIffAllSpace(s: string, t: string, r: string)
    requires t == DropWhile(IsSpace, s) && r == DropWhileEnd(IsSpace, t)
    ensures r == [] <==> AllSpace(s)
  {
    var d := |s| - |t|;
    if r == [] {
      assert t == [];
    } else {
      assert t == s[d..];
      assert !IsSpace(s[d]);
    }
  }

  /** Every character of a slice occurs in the text. */
  lemma SliceChars(s: string, d: nat, r: string)
    requires d + |r| <= |s| && r == s[d..d + |r|]
    ensures forall c :: c in r ==> c in s
  {
    forall c | c in r ensures c in s {
      var i :| 0 <= i < |r| && r[i] == c;
      assert s[d + i] == c;
    }
  }

  /** Stripping a text that starts with a non-space only cuts at the end. */
  lemma StripKeepsFront(s: string)
    requires s != [] && NotSpace(s[0])
    ensures Strip(s) <= s
  {
    assert DropWhile(IsSpace, s) == s;
  }

  /** A trimmed text is its own strip. */
  lemma StripTrimmed(t: string)
    requires Trimmed(t)
    ensures Strip(t) == t
  {
  }

  /** The regex substitution `[^...]` replaced by '': keep the characters satisfying `p`, in order. */
  function Keep(p: char -> bool, s: string): (r: string)
    ensures |r| <= |s|
    ensures forall i :: 0 <= i < |r| ==> p(r[i])
    ensures forall c :: c in r ==> c in s
    ensures (forall i :: 0 <= i < |s| ==> p(s[i])) ==> r == s
    ensures s != [] && p(s[0]) ==> r != [] && r[0] == s[0]
    decreases |s|
  {
    if s == [] then [] else (if p(s[0]) then [s[0]] else []) + Keep(p, s[1..])
  }

  /** `re.sub(r'\s+', ' ', s)`: every maximal run of whitespace becomes one space. */
  function CollapseSpaces(s: string): (r: string)
    ensures forall i :: 0 <= i < |r| - 1 ==> !(IsSpace(r[i]) && IsSpace(r[i + 1]))
    ensures forall i :: 0 <= i < |r| && IsSpace(r[i]) ==> r[i] == ' '
    ensures s != [] ==> r != [] && (IsSpace(r[0]) <==> IsSpace(s[0]))
    ensures s != [] && NotSpace(s[0]) ==> r[0] == s[0]
    ensures forall c :: c in r ==> c in s || c == ' '
    decreases |s|
  {
    if s == [] then []
    else if IsSpace(s[0]) then [' '] + CollapseSpaces(DropWhile(IsSpace, s))
    else [s[0]] + CollapseSpaces(s[1..])
  }

  /**
   * Python's `s.split(sep)` for a one-character separator, and `re.split` on a
   * character class: the pieces between separators, always at least one.
   */
  function SplitOn(s: string, seps: set<char>): (r: seq<string>)
    ensures |r| >= 1
    ensures forall k :: 0 <= k < |r| ==> Avoids(r[k], seps)
    ensures Avoids(s, seps) ==> r == [s]
    ensures r[0] <= s
    decreases |s|
  {
    if s == [] then [[]]
    else
      var rest := SplitOn(s[1..], seps);
      assert Avoids(s, seps) ==> Avoids(s[1..], seps) by {
        if Avoids(s, seps) { forall i | 0 <= i < |s[1..]| ensures s[1..][i] !in seps { assert s[1..][i] == s[i + 1]; } }
      }
      if s[0] in seps then [[]] + rest
      else
        assert s == [s[0]] + s[1..];
        [[s[0]] + rest[0]] + rest[1..]
  }

  /** Python's `sep.join(parts)`. */
  function Join(parts: seq<string>, sep: char): (r: string)
    ensures |parts| == 1 ==> r == parts[0]
    ensures forall c :: c in r ==> c == sep || exists k :: 0 <= k < |parts| && c in parts[k]
  {
    if |parts| == 0 then []
    else if |parts| == 1 then parts[0]
    else parts[0] + [sep] + Join(parts[1..], sep)
  }

  /** Python's `parts[:n]`. */
  function Take<T>(parts: seq<T>, n: nat): (r: seq<T>)
    ensures |r| == if |parts| <= n then |parts| else n
    ensures r <= parts
  {
    if |parts| <= n then parts else parts[..n]
  }

  /** Python's `s.split()` with no argument: the maximal runs of non-whitespace. */
  function Words(s: string): (r: seq<string>)
    ensures forall k :: 0 <= k < |r| ==> r[k] != [] && !(exists i :: 0 <= i < |r[k]| && IsSpace(r[k][i]))
    ensures s != [] && NotSpace(s[0]) ==> r != [] && r[0][0] == s[0]
    decreases |s|
  {
    if s == [] then []
    else
      var rest := Words(s[1..]);
      if IsSpace(s[0]) then rest
      else if |s| > 1 && NotSpace(s[1]) then [[s[0]] + rest[0]] + rest[1..]
      else [[s[0]]] + rest
  }

  /** Python's `len(s.split())`. */
  function WordCount(s: string): nat {
    |Words(s)|
  }

  /**
   * Python's `s.replace(pat, rep)` with a non-empty `pat`: every occurrence,
   * scanning left to right without overlaps, becomes `rep`.
   */
  function ReplaceAll(s: string, pat: string, rep: string): (r: string)
    requires |pat| > 0
    ensures !Contains(s, pat) ==> r == s
    ensures forall c :: c in r ==> c in s || c in rep
    decreases |s|
  {
    if s == [] then []
    else if pat <= s then
      assert pat <= s[0..];
      rep + ReplaceAll(s[|pat|..], pat, rep)
    else
      assert !Contains(s, pat) ==> !Contains(s[1..], pat) by {
        if Contains(s[1..], pat) {
          var i :| 0 <= i <= |s[1..]| && pat <= s[1..][i..];
          assert s[1..][i..] == s[i + 1..];
        }
      }
      [s[0]] + ReplaceAll(s[1..], pat, rep)
  }

  /** The position of the first `c` in `s` (Python's `s.index(c)`). */
  function IndexOf(s: string, c: char): (i: nat)
    requires c in s
    ensures i < |s| && s[i] == c && c !in s[..i]
  {
    if s[0] == c then 0 else 1 + IndexOf(s[1..], c)
  }

  /** Python's `s.replace(c, rep, 1)` for a one-character pattern. */
  function ReplaceFirst(s: string, c: char, rep: string): (r: string)
    ensures c !in s ==> r == s
    ensures c in s ==> exists i :: 0 <= i < |s| && s[i] == c && c !in s[..i] && r == s[..i] + rep + s[i + 1..]
  {
    if c in s then
      var i := IndexOf(s, c);
      s[..i] + rep + s[i + 1..]
    else s
  }

  // ---------------------------------------------------------------------
  // Lemmas: split and join are inverse, and what the counts mean.
  // ---------------------------------------------------------------------

  /** `sep.join(s.split(sep)) == s`. */
  lemma {:induction false} JoinSplit(s: string, c: char)
    ensures Join(SplitOn(s, {c}), c) == s
    decreases |s|
  {
    if s != [] {
      var rest := SplitOn(s[1..], {c});
      JoinSplit(s[1..], c);
      if s[0] != c && |rest| > 1 {
        assert rest == [rest[0]] + rest[1..];
        assert Join(rest, c) == rest[0] + [c] + Join(rest[1..], c);
      }
    }
  }

  /** The number of pieces is one more than the number of separators. */
  lemma {:induction false} SplitCount(s: string, c: char)
    ensures |SplitOn(s, {c})| == multiset(s)[c] + 1
    decreases |s|
  {
    if s != [] {
      SplitCount(s[1..], c);
      assert s == [s[0]] + s[1..];
      assert multiset(s) == multiset([s[0]]) + multiset(s[1..]);
    }
  }

  /** Joining pieces free of the separator puts exactly one separator between neighbours. */
  lemma {:induction false} JoinCount(parts: seq<string>, c: char)
    requires forall k :: 0 <= k < |parts| ==> Avoids(parts[k], {c})
    ensures multiset(Join(parts, c))[c] == if |parts| == 0 then 0 else |parts| - 1
    decreases |parts|
  {
    if |parts| == 1 {
      assert c !in multiset(parts[0]);
    } else if |parts| > 1 {
      JoinCount(parts[1..], c);
      assert c !in multiset(parts[0]);
      assert multiset(Join(parts, c)) == multiset(parts[0]) + multiset([c]) + multiset(Join(parts[1..], c));
    }
  }

  /** Joining two non-empty lists of pieces is joining their joins. */
  lemma {:induction false} JoinAppend(a: seq<string>, b: seq<string>, c: char)
    requires |a| > 0 && |b| > 0
    ensures Join(a + b, c) == Join(a, c) + [c] + Join(b, c)
    decreases |a|
  {
    var ab := a + b;
    assert |ab| > 1 && ab[0] == a[0] && ab[1..] == a[1..] + b;
    assert Join(ab, c) == a[0] + [c] + Join(a[1..] + b, c);
    if |a| == 1 {
      assert a[1..] + b == b;
    } else {
      JoinAppend(a[1..], b, c);
    }
  }

  /** Re-joining the first `n` pieces of a split yields a prefix of the original text. */
  lemma JoinTakeIsPrefix(s: string, c: char, n: nat)
    requires n >= 1
    ensures Join(Take(SplitOn(s, {c}), n), c) <= s
  {
    var parts := SplitOn(s, {c});
    JoinSplit(s, c);
    if |parts| > n {
      assert parts == parts[..n] + parts[n..];
      JoinAppend(parts[..n], parts[n..], c);
    }
  }

  /** `s.split()` is empty exactly when `s` is all whitespace. */
  lemma {:induction false} WordCountZero(s: string)
    ensures WordCount(s) == 0 <==> AllSpace(s)
    decreases |s|
  {
    if s != [] {
      WordCountZero(s[1..]);
      if AllSpace(s) {
        assert AllSpace(s[1..]) by {
          forall i | 0 <= i < |s[1..]| ensures IsSpace(s[1..][i]) { assert s[1..][i] == s[i + 1]; }
        }
      }
      if IsSpace(s[0]) && AllSpace(s[1..]) {
        forall i | 0 <= i < |s| ensures IsSpace(s[i]) { if i > 0 { assert s[i] == s[1..][i - 1]; } }
      }
    }
  }

  /** A separator-free piece followed by a separator is the first piece of the split. */
  lemma {:induction false} SplitAfterPiece(a: string, c: char, b: string, seps: set<char>)
    requires Avoids(a, seps) && c in seps
    ensures SplitOn(a + [c] + b, seps) == [a] + SplitOn(b, seps)
    decreases |a|
  {
    var s := a + [c] + b;
    if a == [] {
      assert s[0] == c && s[1..] == b;
    } else {
      assert s[0] == a[0] && s[1..] == a[1..] + [c] + b;
      assert Avoids(a[1..], seps) by {
        forall i | 0 <= i < |a[1..]| ensures a[1..][i] !in seps {
          assert a[1..][i] == a[i + 1];
        }
      }
      SplitAfterPiece(a[1..], c, b, seps);
      assert a[0] !in seps && [a[0]] + a[1..] == a;
    }
  }

  /** The first two pieces of `a`, a separator, `b`, then the end or another separator. */
  lemma TwoPiecesOfSplit(a: string, c: char, b: string, rest: string, seps: set<char>)
    requires Avoids(a, seps) && Avoids(b, seps) && c in seps
    requires rest == [] || rest[0] in seps
    ensures Take(SplitOn(a + [c] + b + rest, seps), 2) == [a, b]
  {
    assert a + [c] + b + rest == a + [c] + (b + rest);
    SplitAfterPiece(a, c, b + rest, seps);
    PieceBeforeSeparator(b, rest, seps);
    TakeTwoFront(SplitOn(a + [c] + b + rest, seps), a, SplitOn(b + rest, seps));
  }

  /** A separator-free text followed by the end or a separator is the first piece. */
  lemma PieceBeforeSeparator(b: string, rest: string, seps: set<char>)
    requires Avoids(b, seps) && (rest == [] || rest[0] in seps)
    ensures SplitOn(b + rest, seps)[0] == b
  {
    if rest == [] {
      assert b + rest == b;
    } else {
      assert b + rest == b + [rest[0]] + rest[1..];
      SplitAfterPiece(b, rest[0], rest[1..], seps);
    }
  }

  lemma TakeTwoFront(ps: seq<string>, a: string, tail: seq<string>)
    requires ps == [a] + tail && tail != []
    ensures Take(ps, 2) == [a, tail[0]]
  {
  }

  /** Joining two pieces puts one separator between them. */
  lemma JoinTwo(x: string, y: string, c: char)
    ensures Join([x, y], c) == x + [c] + y
  {
    assert [x, y][1..] == [y];
  }

  /** The first piece of a split is the text before the first separator. */
  lemma SplitHead(s: string, c: char)
    requires c in s
    ensures SplitOn(s, {c})[0] == s[..IndexOf(s, c)]
  {
    var i := IndexOf(s, c);
    assert s == s[..i] + [c] + s[i + 1..];
    assert Avoids(s[..i], {c});
    SplitAfterPiece(s[..i], c, s[i + 1..], {c});
  }

  /** Filtering a concatenation filters each part. */
  lemma {:induction false} KeepAppend(p: char -> bool, a: string, b: string)
    ensures Keep(p, a + b) == Keep(p, a) + Keep(p, b)
    decreases |a|
  {
    if a == [] {
      assert a + b == b;
    } else {
      assert (a + b)[0] == a[0] && (a + b)[1..] == a[1..] + b;
      KeepAppend(p, a[1..], b);
      var h := if p(a[0]) then [a[0]] else [];
      assert Keep(p, a + b) == h + (Keep(p, a[1..]) + Keep(p, b));
      assert Keep(p, a) == h + Keep(p, a[1..]);
    }
  }

  /** A non-empty text without whitespace is a single word for `split()`. */
  lemma {:induction false} OneWord(s: string)
    requires s != [] && forall i :: 0 <= i < |s| ==> NotSpace(s[i])
    ensures Words(s) == [s]
    decreases |s|
  {
    assert NotSpace(s[0]);
    if |s| > 1 {
      OneWord(s[1..]);
      assert NotSpace(s[1]);
      assert [s[0]] + s[1..] == s;
    } else {
      assert Words(s[1..]) == [] && s == [s[0]];
    }
  }

  /** Dropping a prefix of characters that satisfy `p`, up to one that does not. */
  lemma {:induction false} DropWhileOverPrefix(p: char -> bool, a: string, t: string)
    requires forall i :: 0 <= i < |a| ==> p(a[i])
    requires t == [] || !p(t[0])
    ensures DropWhile(p, a + t) == t
    decreases |a|
  {
    if a != [] {
      assert (a + t)[0] == a[0] && (a + t)[1..] == a[1..] + t;
      DropWhileOverPrefix(p, a[1..], t);
    } else {
      assert a + t == t;
    }
  }

  /** No whitespace other than `' '`, and never two whitespace characters in a row. */
  predicate SingleSpaced(s: string) {
    && (forall i :: 0 <= i < |s| && IsSpace(s[i]) ==> s[i] == ' ')
    && (forall i :: 0 <= i < |s| - 1 ==> !(IsSpace(s[i]) && IsSpace(s[i + 1])))
  }

  /** Collapsing whitespace runs leaves a single-spaced text as it is. */
  lemma {:induction false} CollapseSingleSpaced(s: string)
    requires SingleSpaced(s)
    ensures CollapseSpaces(s) == s
    decreases |s|
  {
    if s != [] {
      assert SingleSpaced(s[1..]) by {
        forall i | 0 <= i < |s[1..]| - 1 ensures !(IsSpace(s[1..][i]) && IsSpace(s[1..][i + 1])) {
          assert s[1..][i] == s[i + 1] && s[1..][i + 1] == s[i + 2];
        }
      }
      CollapseSingleSpaced(s[1..]);
      if IsSpace(s[0]) {
        assert s[1..] == [] || !IsSpace(s[1..][0]);
        DropWhileOverPrefix(IsSpace, [s[0]], s[1..]);
        assert [s[0]] + s[1..] == s;
      }
    }
  }

  /** Appending text never lowers the number of words. */
  lemma {:induction false} WordCountAppend(s: string, t: string)
    ensures WordCount(s + t) >= WordCount(s)
    decreases |s|
  {
    if s != [] {
      assert (s + t)[1..] == s[1..] + t;
      WordCountAppend(s[1..], t);
    }
  }
}
