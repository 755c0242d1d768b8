/**
 * Ordered keyword rules: the shape shared by the rule-based responder and the
 * emotion tagger. A rule fires when the (already lower-cased) text contains one
 * of its keywords; the first rule that fires decides the answer, and a fixed
 * fallback answers when none does.
 */
module Rules {
  import opened Text

  datatype Rule = Rule(keywords: seq<string>, reply: string)

  ghost predicate Fires(rule: Rule, t: string) {
    exists k :: k in rule.keywords && Contains(t, k)
  }

  lemma FiresSingle(k: string, reply: string, t: string)
    ensures Fires(Rule([k], reply), t) <==> Contains(t, k)
  {
    assert k in [k];
  }

  lemma FiresPair(k1: string, k2: string, reply: string, t: string)
    ensures Fires(Rule([k1, k2], reply), t) <==> Contains(t, k1) || Contains(t, k2)
  {
    assert k1 in [k1, k2] && k2 in [k1, k2];
  }

  /** The reference reading of an ordered rule list: first firing rule wins. */
  ghost function FirstMatch(rules: seq<Rule>, t: string, fallback: string): string
    decreases |rules|
  {
    if rules == [] then fallback
    else if Fires(rules[0], t) then rules[0].reply
    else FirstMatch(rules[1..], t, fallback)
  }

  /** Index of the first rule that fires, or `|rules|` when none does. */
  ghost function FirstFiring(rules: seq<Rule>, t: string): (i: nat)
    ensures i <= |rules|
    ensures i < |rules| ==> Fires(rules[i], t)
    ensures forall j :: 0 <= j < i ==> !Fires(rules[j], t)
    decreases |rules|
  {
    if rules == [] || Fires(rules[0], t) then 0
    else 1 + FirstFiring(rules[1..], t)
  }

  /** Priority: rule `i` answers whenever it fires and no earlier rule does. */
  lemma {:induction false} FirstMatchPicksFirstFiring(rules: seq<Rule>, t: string, fallback: string, i: nat)
    requires i < |rules| && Fires(rules[i], t)
    requires forall j :: 0 <= j < i ==> !Fires(rules[j], t)
    ensures FirstMatch(rules, t, fallback) == rules[i].reply
  {
    if i > 0 {
      assert !Fires(rules[0], t);
      FirstMatchPicksFirstFiring(rules[1..], t, fallback, i - 1);
    }
  }

  /**
   * When no rule answers with the fallback text, the fallback comes out
   * exactly when no rule fires.
   */
  lemma {:induction false} FirstMatchFallbackIffSilent(rules: seq<Rule>, t: string, fallback: string)
    requires forall i :: 0 <= i < |rules| ==> rules[i].reply != fallback
    ensures FirstMatch(rules, t, fallback) == fallback
            <==> forall i :: 0 <= i < |rules| ==> !Fires(rules[i], t)
  {
    if rules != [] {
      FirstMatchFallbackIffSilent(rules[1..], t, fallback);
    }
  }

  /** The answer is always one rule's reply or the fallback. */
  lemma {:induction false} FirstMatchIsAReply(rules: seq<Rule>, t: string, fallback: string)
    ensures FirstMatch(rules, t, fallback) == fallback
            || exists i :: 0 <= i < |rules| && FirstMatch(rules, t, fallback) == rules[i].reply
  {
    if rules != [] && !Fires(rules[0], t) {
      FirstMatchIsAReply(rules[1..], t, fallback);
      if FirstMatch(rules, t, fallback) != fallback {
        var i :| 0 <= i < |rules[1..]| && FirstMatch(rules[1..], t, fallback) == rules[1..][i].reply;
        assert rules[1..][i] == rules[i + 1];
      }
    }
  }
}
