/**
 Which rules of a profile template are accepted: `parse_template_rules` of src/control/sync.rs. The Waza parser
 is a parameter; a rule that parses declares groups, and no two accepted rules may declare the same one.
 */
module TemplateRules {
  import opened Options
  import opened Text

  datatype Rule = Rule(name: string, source: string, enabled: bool)

  datatype Parse = Groups(names: seq<string>) | Broken(message: string)

  type Parser = string -> Parse

  datatype Reason = Empty | BadSource(message: string) | Collision(group: string)

  datatype RuleError = RuleError(ruleName: string, reason: Reason)

  datatype Verdict = Ignored | Accepted | Rejected(reason: Reason)

  /** The first group that is taken. */
  function FirstTaken(groups: seq<string>, claimed: set<string>): (r: Option<string>)
    ensures r.Some? ==> r.value in groups && r.value in claimed
    ensures r.None? <==> forall g | g in groups :: g !in claimed
  {
    if groups == [] then None
    else if groups[0] in claimed then Some(groups[0])
    else FirstTaken(groups[1..], claimed)
  }

  function SetOf(names: seq<string>): set<string> {
    set g | g in names
  }

  function Judge(r: Rule, claimed: set<string>, parse: Parser): Verdict {
    if !r.enabled then Ignored
    else if Trim(r.source) == "" then Rejected(Empty)
    else
      match parse(r.source)
      case Broken(message) => Rejected(BadSource(message))
      case Groups(names) =>
        match FirstTaken(names, claimed)
        case Some(group) => Rejected(Collision(group))
        case None => Accepted
  }

  function GroupsOf(r: Rule, parse: Parser): set<string> {
    match parse(r.source)
    case Groups(names) => SetOf(names)
    case Broken(_) => {}
  }

  datatype State = State(accepted: seq<Rule>, errors: seq<RuleError>, claimed: set<string>)

  /** The greedy choice over the rules so far. */
  function After(rules: seq<Rule>, parse: Parser): State {
    if rules == [] then State([], [], {})
    else
      var (s, r) := (After(rules[..|rules| - 1], parse), rules[|rules| - 1]);
      match Judge(r, s.claimed, parse)
      case Ignored => s
      case Rejected(reason) => s.(errors := s.errors + [RuleError(r.name, reason)])
      case Accepted => s.(accepted := s.accepted + [r], claimed := s.claimed + GroupsOf(r, parse))
  }

  lemma AfterOneMore(rules: seq<Rule>, r: Rule, parse: Parser)
    ensures var s := After(rules, parse);
      After(rules + [r], parse) ==
        match Judge(r, s.claimed, parse)
        case Ignored => s
        case Rejected(reason) => s.(errors := s.errors + [RuleError(r.name, reason)])
        case Accepted => s.(accepted := s.accepted + [r], claimed := s.claimed + GroupsOf(r, parse))
  {
    assert (rules + [r])[..|rules|] == rules;
  }

  function Pairs(rules: seq<Rule>): (r: seq<(string, string)>)
    ensures |r| == |rules| && forall i | 0 <= i < |r| :: r[i] == (rules[i].name, rules[i].source)
  {
    seq(|rules|, i requires 0 <= i < |rules| => (rules[i].name, rules[i].source))
  }

  /** Walks the parsed groups for one that is taken, as the loop with `break` does. */
  method FindCollision(groups: seq<string>, claimed: set<string>) returns (collision: Option<string>)
    ensures collision == FirstTaken(groups, claimed)
    ensures collision.Some? ==> exists i | 0 <= i < |groups| ::
      groups[i] == collision.value && groups[i] in claimed && forall j | 0 <= j < i :: groups[j] !in claimed
    ensures collision.None? ==> forall i | 0 <= i < |groups| :: groups[i] !in claimed
  {
    var i := 0;
    while i < |groups|
      invariant 0 <= i <= |groups| && FirstTaken(groups, claimed) == FirstTaken(groups[i..], claimed)
      invariant forall j | 0 <= j < i :: groups[j] !in claimed
    {
      if groups[i] in claimed {
        return Some(groups[i]);
      }
      assert groups[i..][1..] == groups[i + 1..];
      i := i + 1;
    }
    return None;
  }

  method ParseTemplateRules(rules: seq<Rule>, parse: Parser)
    returns (accepted: seq<(string, string)>, errors: seq<RuleError>)
    ensures accepted == Pairs(After(rules, parse).accepted) && errors == After(rules, parse).errors
  {
    hide Trim, After, FirstTaken;
    accepted, errors := [], [];
    var claimed: set<string> := {};
    NothingYet(parse);
    assert rules[..0] == [];
    var i := 0;
    while i < |rules|
      invariant 0 <= i <= |rules|
      invariant var s := After(rules[..i], parse);
        accepted == Pairs(s.accepted) && errors == s.errors && claimed == s.claimed
    {
      var r := rules[i];
      assert rules[..i + 1] == rules[..i] + [r];
      AfterOneMore(rules[..i], r, parse);
      i := i + 1;
      if !r.enabled {
        continue;
      }
      if Trim(r.source) == "" {
        errors := errors + [RuleError(r.name, Empty)];
        continue;
      }
      match parse(r.source) {
        case Broken(message) =>
          errors := errors + [RuleError(r.name, BadSource(message))];
        case Groups(names) =>
          var collision := FindCollision(names, claimed);
          if collision.Some? {
            errors := errors + [RuleError(r.name, Collision(collision.value))];
          } else {
            claimed := claimed + SetOf(names);
            accepted := accepted + [(r.name, r.source)];
          }
      }
    }
    assert rules[..|rules|] == rules;
  }

  lemma NothingYet(parse: Parser)
    ensures After([], parse) == State([], [], {})
  {
  }

  // Where each rule went.

  /** The verdict on the rule at position `i`, given what the rules before it have claimed. */
  function VerdictAt(rules: seq<Rule>, parse: Parser, i: nat): Verdict
    requires i < |rules|
  {
    Judge(rules[i], After(rules[..i], parse).claimed, parse)
  }

  /** The positions of the accepted rules, and of those with an error. */
  function AcceptedAt(rules: seq<Rule>, parse: Parser): seq<nat> {
    if rules == [] then []
    else
      var n := |rules| - 1;
      AcceptedAt(rules[..n], parse) + if VerdictAt(rules, parse, n).Accepted? then [n] else []
  }

  function RejectedAt(rules: seq<Rule>, parse: Parser): seq<nat> {
    if rules == [] then []
    else
      var n := |rules| - 1;
      RejectedAt(rules[..n], parse) + if VerdictAt(rules, parse, n).Rejected? then [n] else []
  }

  /** Positions in increasing order below a bound. */
  ghost predicate Increasing(at: seq<nat>, n: nat) {
    (forall k | 0 <= k < |at| :: at[k] < n) && (forall k, l | 0 <= k < l < |at| :: at[k] < at[l])
  }

  lemma VerdictOfPrefix(rules: seq<Rule>, parse: Parser, n: nat, i: nat)
    requires i < n <= |rules|
    ensures VerdictAt(rules[..n], parse, i) == VerdictAt(rules, parse, i)
  {
    assert rules[..n][..i] == rules[..i];
  }

  /** A position is listed exactly by the verdict on its rule. */
  lemma {:induction false} ListedByVerdict(rules: seq<Rule>, parse: Parser, i: nat)
    ensures i in AcceptedAt(rules, parse) <==> i < |rules| && VerdictAt(rules, parse, i).Accepted?
    ensures i in RejectedAt(rules, parse) <==> i < |rules| && VerdictAt(rules, parse, i).Rejected?
  {
    hide VerdictAt;
    if rules != [] {
      var n := |rules| - 1;
      ListedByVerdict(rules[..n], parse, i);
      if i < n {
        VerdictOfPrefix(rules, parse, n, i);
      }
      var (front, verdict) := (rules[..n], VerdictAt(rules, parse, n));
      assert AcceptedAt(rules, parse) == AcceptedAt(front, parse) + if verdict.Accepted? then [n] else [];
      assert RejectedAt(rules, parse) == RejectedAt(front, parse) + if verdict.Rejected? then [n] else [];
    }
  }

  lemma {:induction false} AcceptedInOrder(rules: seq<Rule>, parse: Parser)
    ensures var (accepted, at) := (After(rules, parse).accepted, AcceptedAt(rules, parse));
      && Increasing(at, |rules|) && |accepted| == |at|
      && (forall k | 0 <= k < |at| :: accepted[k] == rules[at[k]])
  {
    hide Judge;
    if rules != [] {
      AcceptedInOrder(rules[..|rules| - 1], parse);
    }
  }

  lemma {:induction false} RejectedInOrder(rules: seq<Rule>, parse: Parser)
    ensures var (errors, at) := (After(rules, parse).errors, RejectedAt(rules, parse));
      && Increasing(at, |rules|) && |errors| == |at|
      && (forall k | 0 <= k < |at| :: errors[k].ruleName == rules[at[k]].name)
  {
    hide Judge;
    if rules != [] {
      RejectedInOrder(rules[..|rules| - 1], parse);
    }
  }

  lemma {:induction false} ReasonsInOrder(rules: seq<Rule>, parse: Parser, k: nat)
    requires k < |RejectedAt(rules, parse)| == |After(rules, parse).errors| && RejectedAt(rules, parse)[k] < |rules|
    ensures VerdictAt(rules, parse, RejectedAt(rules, parse)[k]) == Rejected(After(rules, parse).errors[k].reason)
  {
    hide Judge;
    var n := |rules| - 1;
    RejectedInOrder(rules[..n], parse);
    if k < |RejectedAt(rules[..n], parse)| {
      ReasonsInOrder(rules[..n], parse, k);
      VerdictOfPrefix(rules, parse, n, RejectedAt(rules[..n], parse)[k]);
    }
  }

  /**
   The accepted rules are rules of the template in template order, and so are those with an error, each error
   with the reason of the verdict on its rule; an enabled rule is one or the other and never both, a disabled
   one neither.
   */
  lemma EveryRuleOnce(rules: seq<Rule>, parse: Parser)
    ensures var (s, a, b) := (After(rules, parse), AcceptedAt(rules, parse), RejectedAt(rules, parse));
      && Increasing(a, |rules|) && Increasing(b, |rules|)
      && |s.accepted| == |a| && (forall k | 0 <= k < |a| :: s.accepted[k] == rules[a[k]])
      && |s.errors| == |b|
      && (forall k | 0 <= k < |b| :: s.errors[k].ruleName == rules[b[k]].name
                                     && VerdictAt(rules, parse, b[k]) == Rejected(s.errors[k].reason))
      && (forall i | 0 <= i < |rules| :: (rules[i].enabled <==> i in a || i in b) && !(i in a && i in b))
      && (forall i | 0 <= i < |rules| :: i in a <==> VerdictAt(rules, parse, i).Accepted?)
  {
    AcceptedInOrder(rules, parse);
    RejectedInOrder(rules, parse);
    forall k | 0 <= k < |RejectedAt(rules, parse)|
      ensures VerdictAt(rules, parse, RejectedAt(rules, parse)[k]) == Rejected(After(rules, parse).errors[k].reason)
    {
      ReasonsInOrder(rules, parse, k);
    }
    forall i | 0 <= i < |rules|
      ensures VerdictAt(rules, parse, i).Ignored? <==> !rules[i].enabled
      ensures i in AcceptedAt(rules, parse) <==> VerdictAt(rules, parse, i).Accepted?
      ensures i in RejectedAt(rules, parse) <==> VerdictAt(rules, parse, i).Rejected?
    {
      ListedByVerdict(rules, parse, i);
      IgnoredIsDisabled(rules[i], After(rules[..i], parse).claimed, parse);
    }
    hide VerdictAt, After, AcceptedAt, RejectedAt, Increasing;
  }

  lemma IgnoredIsDisabled(r: Rule, claimed: set<string>, parse: Parser)
    ensures Judge(r, claimed, parse).Ignored? <==> !r.enabled
  {
    hide Trim;
  }

  // Groups.

  predicate Owns(accepted: seq<Rule>, parse: Parser, group: string) {
    exists k :: 0 <= k < |accepted| && group in GroupsOf(accepted[k], parse)
  }

  ghost predicate AreDisjoint(s: State, parse: Parser) {
    && (forall g :: g in s.claimed <==> Owns(s.accepted, parse, g))
    && (forall k, l | 0 <= k < l < |s.accepted| :: GroupsOf(s.accepted[k], parse) !! GroupsOf(s.accepted[l], parse))
  }

  lemma OneMoreDisjoint(s: State, r: Rule, parse: Parser)
    requires AreDisjoint(s, parse) && GroupsOf(r, parse) !! s.claimed
    ensures AreDisjoint(s.(accepted := s.accepted + [r], claimed := s.claimed + GroupsOf(r, parse)), parse)
  {
    hide GroupsOf;
    OwnsOneMore(s.accepted, r, parse);
  }

  lemma NothingIsDisjoint(parse: Parser)
    ensures AreDisjoint(After([], parse), parse)
  {
  }

  lemma {:induction false} StaysDisjoint(rules: seq<Rule>, parse: Parser)
    ensures AreDisjoint(After(rules, parse), parse)
  {
    hide AreDisjoint, After, Judge, GroupsOf;
    NothingIsDisjoint(parse);
    if rules != [] {
      var n := |rules| - 1;
      var (s, r) := (After(rules[..n], parse), rules[n]);
      StaysDisjoint(rules[..n], parse);
      assert rules == rules[..n] + [r];
      AfterOneMore(rules[..n], r, parse);
      AcceptedIsFree(r, s.claimed, parse);
      if Judge(r, s.claimed, parse).Accepted? {
        OneMoreDisjoint(s, r, parse);
      } else {
        SameGroups(s, After(rules, parse), parse);
      }
    }
  }

  lemma SameGroups(s: State, t: State, parse: Parser)
    requires AreDisjoint(s, parse) && t.accepted == s.accepted && t.claimed == s.claimed
    ensures AreDisjoint(t, parse)
  {
  }

  /** What is claimed is what the accepted rules declare, and no two of them declare the same group. */
  lemma {:induction false} AcceptedAreDisjoint(rules: seq<Rule>, parse: Parser)
    ensures var s := After(rules, parse);
      && (forall g :: g in s.claimed <==> Owns(s.accepted, parse, g))
      && (forall k, l | 0 <= k < l < |s.accepted| :: GroupsOf(s.accepted[k], parse) !! GroupsOf(s.accepted[l], parse))
  {
    hide After;
    StaysDisjoint(rules, parse);
  }

  lemma AcceptedIsFree(r: Rule, claimed: set<string>, parse: Parser)
    ensures Judge(r, claimed, parse).Accepted? <==>
      r.enabled && Trim(r.source) != "" && parse(r.source).Groups? && GroupsOf(r, parse) !! claimed
  {
    hide Trim;
  }

  lemma OwnsOneMore(accepted: seq<Rule>, r: Rule, parse: Parser)
    ensures forall g :: Owns(accepted + [r], parse, g) <==> Owns(accepted, parse, g) || g in GroupsOf(r, parse)
    ensures forall k | 0 <= k < |accepted| :: forall g | g in GroupsOf(accepted[k], parse) :: Owns(accepted, parse, g)
  {
    hide GroupsOf;
    var more := accepted + [r];
    assert more[|accepted|] == r && forall k | 0 <= k < |accepted| :: more[k] == accepted[k];
    forall g
      ensures Owns(more, parse, g) <==> Owns(accepted, parse, g) || g in GroupsOf(r, parse)
    {
      if Owns(accepted, parse, g) {
        var k :| 0 <= k < |accepted| && g in GroupsOf(accepted[k], parse);
        assert g in GroupsOf(more[k], parse);
      }
    }
  }

  /**
   A rule that is enabled, not blank and parses is rejected exactly if an accepted rule before it owns one of its
   groups; the error names such a group.
   */
  lemma CollisionMeansTaken(before: seq<Rule>, r: Rule, parse: Parser)
    requires r.enabled && Trim(r.source) != "" && parse(r.source).Groups?
    ensures var (s, verdict) := (After(before, parse), Judge(r, After(before, parse).claimed, parse));
      && (verdict.Rejected? <==> exists g :: g in GroupsOf(r, parse) && Owns(s.accepted, parse, g))
      && (verdict.Rejected? ==> verdict.reason.Collision? && verdict.reason.group in GroupsOf(r, parse)
                                && Owns(s.accepted, parse, verdict.reason.group))
  {
    AcceptedAreDisjoint(before, parse);
    AcceptedIsFree(r, After(before, parse).claimed, parse);
    hide Owns, Trim, After;
  }

  /** A rule has a collision error exactly if it gets as far as its groups and an accepted rule before it owns one. */
  lemma CollisionErrors(rules: seq<Rule>, parse: Parser, i: nat)
    requires i < |rules|
    ensures var (errors, at, r) := (After(rules, parse).errors, RejectedAt(rules, parse), rules[i]);
      && |errors| == |at|
      && ((exists k :: 0 <= k < |at| && at[k] == i && errors[k].reason.Collision?)
          <==> r.enabled && Trim(r.source) != "" && parse(r.source).Groups?
               && exists g :: g in GroupsOf(r, parse) && Owns(After(rules[..i], parse).accepted, parse, g))
  {
    EveryRuleOnce(rules, parse);
    ListedByVerdict(rules, parse, i);
    var (r, at) := (rules[i], RejectedAt(rules, parse));
    var verdict := VerdictAt(rules, parse, i);
    if r.enabled && Trim(r.source) != "" && parse(r.source).Groups? {
      CollisionMeansTaken(rules[..i], r, parse);
    } else {
      NoGroupsNoCollision(r, After(rules[..i], parse).claimed, parse);
    }
    hide VerdictAt, Judge, Owns, GroupsOf, Trim, After, RejectedAt;
    if verdict.Rejected? {
      var k :| 0 <= k < |at| && at[k] == i;
    }
  }

  /** The other errors: a blank source, and one that does not parse, with the message of the parser. */
  lemma OtherErrors(rules: seq<Rule>, parse: Parser, i: nat, message: string)
    requires i < |rules|
    ensures var (errors, at, r) := (After(rules, parse).errors, RejectedAt(rules, parse), rules[i]);
      && |errors| == |at|
      && ((exists k :: 0 <= k < |at| && at[k] == i && errors[k].reason == Empty) <==> r.enabled && Trim(r.source) == "")
      && ((exists k :: 0 <= k < |at| && at[k] == i && errors[k].reason == BadSource(message))
          <==> r.enabled && Trim(r.source) != "" && parse(r.source) == Broken(message))
  {
    EveryRuleOnce(rules, parse);
    ListedByVerdict(rules, parse, i);
    var (r, at) := (rules[i], RejectedAt(rules, parse));
    var verdict := VerdictAt(rules, parse, i);
    ReasonOf(r, After(rules[..i], parse).claimed, parse, message);
    hide VerdictAt, Judge, Trim, After, RejectedAt;
    if verdict.Rejected? {
      var k :| 0 <= k < |at| && at[k] == i;
    }
  }

  lemma ReasonOf(r: Rule, claimed: set<string>, parse: Parser, message: string)
    ensures var verdict := Judge(r, claimed, parse);
      && (verdict == Rejected(Empty) <==> r.enabled && Trim(r.source) == "")
      && (verdict == Rejected(BadSource(message)) <==> r.enabled && Trim(r.source) != "" && parse(r.source) == Broken(message))
  {
    hide Trim;
  }

  lemma NoGroupsNoCollision(r: Rule, claimed: set<string>, parse: Parser)
    requires !(r.enabled && Trim(r.source) != "" && parse(r.source).Groups?)
    ensures var verdict := Judge(r, claimed, parse); verdict.Rejected? ==> !verdict.reason.Collision?
  {
    hide Trim;
  }

  // The choice does not depend on the rules it rejects.

  /** Taking a rule out that was not accepted leaves the accepted rules, and what they claim, as they were. */
  lemma {:induction false} RejectedDoesNotMatter(before: seq<Rule>, r: Rule, behind: seq<Rule>, parse: Parser)
    requires !Judge(r, After(before, parse).claimed, parse).Accepted?
    ensures After(before + [r] + behind, parse).accepted == After(before + behind, parse).accepted
    ensures After(before + [r] + behind, parse).claimed == After(before + behind, parse).claimed
  {
    hide Judge, GroupsOf, After;
    if behind == [] {
      assert before + [r] + behind == before + [r] && before + behind == before;
      AfterOneMore(before, r, parse);
    } else {
      var n := |behind| - 1;
      RejectedDoesNotMatter(before, r, behind[..n], parse);
      assert before + [r] + behind == (before + [r] + behind[..n]) + [behind[n]];
      assert before + behind == (before + behind[..n]) + [behind[n]];
      AfterOneMore(before + [r] + behind[..n], behind[n], parse);
      AfterOneMore(before + behind[..n], behind[n], parse);
    }
  }

  /** Running again on the accepted rules alone accepts them all, without an error. */
  lemma {:induction false} AcceptedStayAccepted(rules: seq<Rule>, parse: Parser)
    ensures var s := After(rules, parse); After(s.accepted, parse) == s.(errors := [])
  {
    hide Judge, GroupsOf;
    if rules != [] {
      var n := |rules| - 1;
      AcceptedStayAccepted(rules[..n], parse);
      assert rules == rules[..n] + [rules[n]];
      AfterOneMore(rules[..n], rules[n], parse);
      AfterOneMore(After(rules[..n], parse).accepted, rules[n], parse);
    }
  }
}
