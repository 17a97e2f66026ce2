// Rule-based sampling: wildcard patterns, and the choice of the rule.
module Glob {

  // What a pattern means, from its i-th character on and for s from its p-th on:
  // '*' stands for any characters, everything else for itself.
  ghost predicate MatchesFrom(pattern: string, i: nat, s: string, p: nat)
    requires i <= |pattern| && p <= |s|
    decreases |pattern| - i
  {
    if i == |pattern| then p == |s|
    else if pattern[i] == '*' then
      var next := i + 1;
      exists k :: p <= k <= |s| && MatchesFrom(pattern, next, s, k)
    else p < |s| && s[p] == pattern[i] && MatchesFrom(pattern, i + 1, s, p + 1)
  }

  ghost predicate Matches(pattern: string, s: string) {
    MatchesFrom(pattern, 0, s, 0)
  }

  // strings.Split(pattern, "*"), from the i-th character on.
  function Split(pattern: string, i: nat): (parts: seq<string>)
    requires i <= |pattern|
    ensures |parts| >= 1
    decreases |pattern| - i
  {
    if i == |pattern| then [""]
    else
      var rest := Split(pattern, i + 1);
      if pattern[i] == '*' then [""] + rest else [[pattern[i]] + rest[0]] + rest[1..]
  }

  // part occurs in s at position k.
  predicate At(s: string, k: nat, part: string) {
    k + |part| <= |s| && s[k..k + |part|] == part
  }

  // From position p on, s can be cut into arbitrary text, part 0, arbitrary
  // text, part 1, and so on up to the last part, which ends it.
  ghost predicate InOrder(parts: seq<string>, s: string, p: nat)
    requires |parts| >= 1
    decreases |parts|
  {
    if |parts| == 1 then p + |parts[0]| <= |s| && At(s, |s| - |parts[0]|, parts[0])
    else exists k :: p <= k <= |s| && At(s, k, parts[0]) && InOrder(parts[1..], s, k + |parts[0]|)
  }

  // Starting earlier does no harm, which is what makes the leftmost choice safe.
  lemma InOrderEarlier(parts: seq<string>, s: string, p: nat, q: nat)
    requires |parts| >= 1 && p <= q
    requires InOrder(parts, s, q)
    ensures InOrder(parts, s, p)
  {
    if |parts| > 1 {
      var k :| q <= k <= |s| && At(s, k, parts[0]) && InOrder(parts[1..], s, k + |parts[0]|);
      assert p <= k;
    }
  }

  // Taking the leftmost occurrence of the first part loses no match.
  lemma LeftmostSuffices(parts: seq<string>, s: string, p: nat, k: nat)
    requires |parts| >= 2 && p <= k
    requires At(s, k, parts[0]) && forall j :: p <= j < k ==> !At(s, j, parts[0])
    ensures InOrder(parts, s, p) <==> InOrder(parts[1..], s, k + |parts[0]|)
  {
    if InOrder(parts, s, p) {
      var j :| p <= j <= |s| && At(s, j, parts[0]) && InOrder(parts[1..], s, j + |parts[0]|);
      InOrderEarlier(parts[1..], s, k + |parts[0]|, j + |parts[0]|);
    }
  }

  lemma NoOccurrence(parts: seq<string>, s: string, p: nat)
    requires |parts| >= 2
    requires forall j :: p <= j <= |s| ==> !At(s, j, parts[0])
    ensures !InOrder(parts, s, p)
  {
  }

  // The last part has to end the text.
  lemma LastPart(last: string, str: string, p: nat)
    requires p <= |str|
    ensures InOrder([last], str, p) <==> |last| <= |str| - p && At(str[p..], |str| - p - |last|, last)
  {
    hide At;
    if |last| <= |str| - p {
      AtInTail(str, p, |str| - p - |last|, last);
    }
  }

  // What the parts of a pattern say about s from position p on.
  ghost predicate ByParts(parts: seq<string>, s: string, p: nat)
    requires |parts| >= 1
  {
    && At(s, p, parts[0])
    && if |parts| == 1 then p + |parts[0]| == |s| else InOrder(parts[1..], s, p + |parts[0]|)
  }

  lemma {:induction false} MatchesByParts(pattern: string, i: nat, s: string, p: nat)
    requires i <= |pattern| && p <= |s|
    ensures MatchesFrom(pattern, i, s, p) <==> ByParts(Split(pattern, i), s, p)
    decreases |pattern| - i
  {
    if i < |pattern| {
      var rest := Split(pattern, i + 1);
      var parts := Split(pattern, i);
      if pattern[i] == '*' {
        assert parts[0] == "" && parts[1..] == rest;
        assert ByParts(parts, s, p) <==> InOrder(rest, s, p);
        var next := i + 1;
        forall k | p <= k <= |s| ensures MatchesFrom(pattern, next, s, k) <==> ByParts(rest, s, k) {
          MatchesByParts(pattern, next, s, k);
        }
        AfterStar(rest, s, p);
      } else {
        assert parts[1..] == rest[1..];
        if p < |s| {
          MatchesByParts(pattern, i + 1, s, p + 1);
          FirstCharacter(s, p, pattern[i], rest[0]);
        }
      }
    }
  }

  lemma AfterStar(rest: seq<string>, s: string, p: nat)
    requires |rest| >= 1 && p <= |s|
    ensures InOrder(rest, s, p) <==> exists k :: p <= k <= |s| && ByParts(rest, s, k)
  {
    if InOrder(rest, s, p) {
      var k := |s| - |rest[0]|;
      if |rest| > 1 {
        k :| p <= k <= |s| && At(s, k, rest[0]) && InOrder(rest[1..], s, k + |rest[0]|);
      }
      assert ByParts(rest, s, k);
    }
  }

  lemma FirstCharacter(s: string, p: nat, c: char, part: string)
    requires p < |s|
    ensures At(s, p, [c] + part) <==> s[p] == c && At(s, p + 1, part)
  {
    if p + 1 + |part| <= |s| {
      assert s[p..p + 1 + |part|] == [s[p]] + s[p + 1..p + 1 + |part|];
    }
  }

  lemma {:induction false} PlainPattern(pattern: string, i: nat)
    requires i <= |pattern|
    ensures |Split(pattern, i)| == 1 ==> Split(pattern, i)[0] == pattern[i..]
    decreases |pattern| - i
  {
    if i < |pattern| {
      PlainPattern(pattern, i + 1);
      assert pattern[i..] == [pattern[i]] + pattern[i + 1..];
    }
  }

  // strings.Index(str[p..], part): the leftmost occurrence, or -1.
  method Index(s: string, part: string) returns (idx: int)
    ensures -1 <= idx <= |s|
    ensures idx >= 0 ==> At(s, idx, part) && forall k :: 0 <= k < idx ==> !At(s, k, part)
    ensures idx < 0 ==> forall k :: 0 <= k <= |s| ==> !At(s, k, part)
  {
    for k := 0 to |s| + 1
      invariant forall j :: 0 <= j < k ==> !At(s, j, part)
    {
      if At(s, k, part) {
        return k;
      }
    }
    return -1;
  }

  lemma AtInTail(str: string, p: nat, k: nat, part: string)
    requires p <= |str|
    ensures At(str[p..], k, part) <==> At(str, p + k, part)
  {
    if p + k + |part| <= |str| {
      assert str[p..][k..k + |part|] == str[p + k..p + k + |part|];
    }
  }

  lemma MatchesBySplit(pattern: string, str: string)
    ensures var parts := Split(pattern, 0);
            Matches(pattern, str) <==>
              if |parts| == 1 then pattern == str
              else parts[0] <= str && InOrder(parts[1..], str, |parts[0]|)
  {
    var parts := Split(pattern, 0);
    MatchesByParts(pattern, 0, str, 0);
    PlainPattern(pattern, 0);
    assert At(str, 0, parts[0]) <==> parts[0] <= str;
    if |parts| == 1 {
      assert pattern[0..] == pattern;
    }
  }

  method GlobMatch(pattern: string, str: string) returns (b: bool)
    ensures b <==> Matches(pattern, str)
  {
    hide MatchesFrom, Split, Matches, At, InOrder;
    var parts := Split(pattern, 0);
    MatchesBySplit(pattern, str);
    if |parts| == 1 {
      return pattern == str;
    }
    if !(parts[0] <= str) {
      return false;
    }
    var s := str[|parts[0]|..];
    ghost var p: nat := |parts[0]|;
    for i := 1 to |parts| - 1
      invariant p <= |str| && s == str[p..]
      invariant Matches(pattern, str) <==> InOrder(parts[i..], str, p)
    {
      assert parts[i..][1..] == parts[i + 1..];
      var idx := Index(s, parts[i]);
      forall j | p <= j <= |str| ensures At(str, j, parts[i]) <==> At(s, j - p, parts[i]) {
        AtInTail(str, p, j - p, parts[i]);
      }
      if idx < 0 {
        NoOccurrence(parts[i..], str, p);
        return false;
      }
      LeftmostSuffices(parts[i..], str, p, p + idx);
      s := s[idx + |parts[i]|..];
      p := p + idx + |parts[i]|;
    }
    var last := parts[|parts| - 1];
    assert parts[|parts| - 1..] == [last];
    LastPart(last, str, p);
    return |last| <= |s| && At(s, |s| - |last|, last);
  }
}

module SamplingRules {
  import opened Model
  import opened Sequences
  import opened Glob

  datatype Attribute = Attribute(key: string, text: string)

  datatype Parameters = Parameters(service: string, operation: string, attributes: seq<Attribute>)

  // decision stands for whatever the rule does once chosen: a fixed decision or
  // a sampler to ask.
  datatype Rule<D> = Rule(
    service: string,
    operationGlob: string,
    minDuration: int,
    statusCode: Option<StatusCode>,
    tags: map<string, string>,
    decision: D,
    priority: int)

  ghost predicate Applies<D>(r: Rule<D>, p: Parameters) {
    && (r.service == "" || r.service == p.service)
    && (r.operationGlob == "" || Matches(r.operationGlob, p.operation))
    && (forall k :: k in r.tags ==> Attribute(k, r.tags[k]) in p.attributes)
  }

  method RuleMatches<D>(r: Rule<D>, p: Parameters) returns (b: bool)
    ensures b <==> Applies(r, p)
  {
    if r.service != "" && r.service != p.service {
      return false;
    }
    if r.operationGlob != "" {
      var matched := GlobMatch(r.operationGlob, p.operation);
      if !matched {
        return false;
      }
    }
    var keys := r.tags.Keys;
    while keys != {}
      invariant keys <= r.tags.Keys
      invariant forall k :: k in r.tags.Keys - keys ==> Attribute(k, r.tags[k]) in p.attributes
    {
      var k :| k in keys;
      keys := keys - {k};
      var found := false;
      for i := 0 to |p.attributes|
        invariant found <==> Attribute(k, r.tags[k]) in p.attributes[..i]
      {
        assert p.attributes[..i + 1] == p.attributes[..i] + [p.attributes[i]];
        if p.attributes[i].key == k && p.attributes[i].text == r.tags[k] {
          found := true;
        }
      }
      assert p.attributes[..|p.attributes|] == p.attributes;
      if !found {
        return false;
      }
    }
    return true;
  }

  // The conditions of a rule are independent of each other: a rule without any applies to
  // everything, and each one added lets through what meets it.
  lemma ConditionsAdd<D>(r: Rule<D>, p: Parameters, service: string, pattern: string, key: string, text: string)
    requires service != "" && pattern != ""
    ensures r.service == r.operationGlob == "" && r.tags == map[] ==> Applies(r, p)
    ensures r.service == "" ==> (Applies(r.(service := service), p) <==> Applies(r, p) && p.service == service)
    ensures r.operationGlob == "" ==>
              (Applies(r.(operationGlob := pattern), p) <==> Applies(r, p) && Matches(pattern, p.operation))
    ensures key !in r.tags ==>
              (Applies(r.(tags := r.tags[key := text]), p) <==>
               Applies(r, p) && exists a :: a in p.attributes && a.key == key && a.text == text)
  {
    var more := r.tags[key := text];
    assert key !in r.tags ==> forall k :: k in r.tags ==> k in more && more[k] == r.tags[k];
    assert key in more;
    if Attribute(key, text) in p.attributes {
      var a := Attribute(key, text);
      assert a.key == key && a.text == text;
    }
  }

  // Neither the least duration nor the status of a rule is looked at.
  lemma DurationAndStatusIgnored<D>(r: Rule<D>, minDuration: int, statusCode: Option<StatusCode>, p: Parameters)
    ensures Applies(r, p) <==> Applies(r.(minDuration := minDuration, statusCode := statusCode), p)
  {
  }

  // choice is a rule that applies and that no applying rule outranks, or None
  // when no rule applies and the fallback sampler decides.
  ghost predicate IsBestRule<D>(rules: seq<Rule<D>>, p: Parameters, choice: Option<Rule<D>>) {
    match choice
    case None => forall r :: r in rules ==> !Applies(r, p)
    case Some(best) =>
      && best in rules && Applies(best, p)
      && forall r :: r in rules && Applies(r, p) ==> r.priority <= best.priority
  }

  class RuleBasedSampler<D(==)> {
    const rules: seq<Rule<D>>

    constructor (rules: seq<Rule<D>>)
      ensures multiset(this.rules) == multiset(rules)
      ensures forall i, j :: 0 <= i < j < |this.rules| ==> this.rules[i].priority >= this.rules[j].priority
    {
      var sorted := SortByKey(rules, (r: Rule<D>) => -r.priority);
      this.rules := sorted;
    }

    method Choose(p: Parameters) returns (choice: Option<Rule<D>>)
      requires forall i, j :: 0 <= i < j < |rules| ==> rules[i].priority >= rules[j].priority
      ensures IsBestRule(rules, p, choice)
    {
      hide Applies;
      for i := 0 to |rules|
        invariant forall j :: 0 <= j < i ==> !Applies(rules[j], p)
      {
        var matched := RuleMatches(rules[i], p);
        if matched {
          return Some(rules[i]);
        }
      }
      return None;
    }
  }

  // Sorting loses no rule, so the choice among the sorted rules is the choice
  // among the rules as given.
  lemma BestOfReordered<D>(given: seq<Rule<D>>, sorted: seq<Rule<D>>, p: Parameters, choice: Option<Rule<D>>)
    requires multiset(given) == multiset(sorted)
    requires IsBestRule(sorted, p, choice)
    ensures IsBestRule(given, p, choice)
  {
    MultisetMembers(given, sorted);
  }
}
