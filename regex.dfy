/**
 * Python's `re.sub`, kept abstract. The bots run tables of regular-expression
 * rewrites in declaration order, each on the previous one's output; the
 * regular-expression engine itself is not modelled, so a substitution is a
 * parameter of type `Substitution` and only the ordering is fixed here.
 */
module Regex {

  /** One `re.sub(pattern, replacement, text, flags)` call; `ignoreCase` is `re.IGNORECASE`. */
  datatype Rule = Rule(pattern: string, replacement: string, ignoreCase: bool)

  /** What `re.sub` does with a rule and a text. */
  type Substitution = (Rule, string) -> string

  /**
   * On the rules of `rules`, the substitution only copies characters of the
   * text or of the replacement template, as `re.sub` does for templates made
   * of literal text and group references `\1`, `\2`. (A template escape such
   * as `\n` would bring in a character of neither, so the property is asked
   * only of the rules a program actually passes.)
   */
  ghost predicate KeepsChars(rx: Substitution, rules: seq<Rule>) {
    forall rule, text, c :: rule in rules && c in rx(rule, text) ==> c in text || c in rule.replacement
  }

  /** Copying on a table is copying on any table drawn from its rules. */
  lemma KeepsCharsOnPart(rx: Substitution, rules: seq<Rule>, part: seq<Rule>)
    requires KeepsChars(rx, rules) && forall k :: 0 <= k < |part| ==> part[k] in rules
    ensures KeepsChars(rx, part)
  {
  }

  /** None of the replacement templates contains `c`. */
  predicate ReplacementsAvoid(rules: seq<Rule>, c: char) {
    forall k :: 0 <= k < |rules| ==> c !in rules[k].replacement
  }

  /** `for rule in rules: text = re.sub(rule, text)`, written as a fold from the last rule. */
  function ApplyRules(rules: seq<Rule>, text: string, rx: Substitution): (r: string)
    ensures KeepsChars(rx, rules) ==>
      forall c :: c in r ==> c in text || exists k :: 0 <= k < |rules| && c in rules[k].replacement
    decreases |rules|
  {
    if rules == [] then text
    else rx(rules[|rules| - 1], ApplyRules(rules[..|rules| - 1], text, rx))
  }

  /** One more rule of the table is one more substitution. */
  lemma ApplyRulesStep(rules: seq<Rule>, i: nat, text: string, rx: Substitution)
    requires i < |rules|
    ensures ApplyRules(rules[..i + 1], text, rx) == rx(rules[i], ApplyRules(rules[..i], text, rx))
  {
    assert rules[..i + 1][..i] == rules[..i];
  }

  /** Running two tables one after the other is running their concatenation. */
  lemma {:induction false} ApplyRulesAppend(a: seq<Rule>, b: seq<Rule>, text: string, rx: Substitution)
    ensures ApplyRules(a + b, text, rx) == ApplyRules(b, ApplyRules(a, text, rx), rx)
    decreases |b|
  {
    if b == [] {
      assert a + b == a;
    } else {
      assert (a + b)[..|a + b| - 1] == a + b[..|b| - 1];
      ApplyRulesAppend(a, b[..|b| - 1], text, rx);
    }
  }

  /** A character that no template contains never appears unless the text already held it. */
  lemma ApplyRulesKeepsAbsent(rules: seq<Rule>, text: string, rx: Substitution, c: char)
    requires KeepsChars(rx, rules) && ReplacementsAvoid(rules, c) && c !in text
    ensures c !in ApplyRules(rules, text, rx)
  {
  }
}
