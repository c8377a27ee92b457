/** Matching the current time against the rules of a task, and choosing which tasks
    fire on a tick.

    The current time is given as the fields the scheduler formats it into, in the
    order second, minute, hour, day, month, year ("05", "04", "15", "02", "01", "2006"
    for 15:04:05 on 2 January 2006). A rule is the list of fields its string was split
    into. */
module Matcher {
  import opened Strings
  import opened RuleGrammar

  /** A rule after splitting: a prefix of the time fields, the rest being wildcards. */
  type Rule = seq<string>

  /** What the task runs; its body is not part of this model. */
  type ActionId = nat

  /** A registered task: its rules (an empty list means "every tick") and its action. */
  datatype Task = Task(rules: seq<Rule>, action: ActionId)

  /** A rule matches when each of its fields equals the time field at the same
      position; positions past its end are not looked at. */
  predicate RuleMatches(rule: Rule, now: seq<string>) {
    |rule| <= |now| && forall i :: 0 <= i < |rule| ==> rule[i] == now[i]
  }

  /** A task fires when it has no rules or when at least one of its rules matches. */
  predicate TaskDue(t: Task, now: seq<string>) {
    t.rules == [] || exists i :: 0 <= i < |t.rules| && RuleMatches(t.rules[i], now)
  }

  /** The ids of the tasks that fire on the tick whose time fields are `now`. */
  function Due(tasks: map<nat, Task>, now: seq<string>): set<nat> {
    set id | id in tasks && TaskDue(tasks[id], now)
  }

  /** The field-by-field comparison of one rule, leaving the loop at the first field
      that differs. Indexing `now` past its end is a run-time failure, so the rule may
      not be longer than the time fields. */
  method CheckRule(rule: Rule, now: seq<string>) returns (m: bool)
    requires |rule| <= |now|
    ensures m <==> forall i :: 0 <= i < |rule| ==> rule[i] == now[i]
  {
    m := true;
    var i := 0;
    while i < |rule|
      invariant 0 <= i <= |rule|
      invariant forall j :: 0 <= j < i ==> rule[j] == now[j]
    {
      if rule[i] != now[i] {
        m := false;
        break;
      }
      i := i + 1;
    }
  }

  /** Tries the rules of a task in order and stops at the first that matches. */
  method AnyRuleMatches(rules: seq<Rule>, now: seq<string>) returns (m: bool)
    requires forall k :: 0 <= k < |rules| ==> |rules[k]| <= |now|
    ensures m <==> exists k :: 0 <= k < |rules| && RuleMatches(rules[k], now)
  {
    m := false;
    var k := 0;
    while k < |rules|
      invariant 0 <= k <= |rules|
      invariant forall j :: 0 <= j < k ==> !RuleMatches(rules[j], now)
    {
      m := CheckRule(rules[k], now);
      if m {
        break;
      }
      k := k + 1;
    }
  }

  // ---------------------------------------------------------------------------
  // What matching means.

  /** A rule matches exactly when it is a prefix of the time fields. */
  lemma RuleMatchesIsPrefix(rule: Rule, now: seq<string>)
    ensures RuleMatches(rule, now) <==> |rule| <= |now| && rule == now[..|rule|]
  {
  }

  /** Fields past the end of a rule are wildcards: changing them does not change
      whether it matches. */
  lemma WildcardFields(rule: Rule, now: seq<string>, later: seq<string>)
    requires |rule| <= |now| && |rule| <= |later|
    requires forall i :: 0 <= i < |rule| ==> now[i] == later[i]
    ensures RuleMatches(rule, now) <==> RuleMatches(rule, later)
  {
  }

  /** A rule with all six fields names one instant: it matches a tick exactly when the
      tick's fields are the rule's fields. */
  lemma FullRuleMatchesOnlyItsInstant(rule: Rule, now: seq<string>)
    requires |rule| == FieldCount && |now| == FieldCount
    ensures RuleMatches(rule, now) <==> rule == now
  {
    RuleMatchesIsPrefix(rule, now);
    assert now[..|rule|] == now;
  }

  /** The one-field rule "05" fires once a minute: whenever the second is 05. */
  lemma SecondsOnlyRule(now: seq<string>)
    requires |now| == FieldCount
    ensures RuleMatches(["05"], now) <==> now[0] == "05"
  {
  }

  // ---------------------------------------------------------------------------
  // Which tasks are due, and how the set changes with the registry.

  /** A task without rules is due on every tick. */
  lemma UnconditionalTaskAlwaysDue(tasks: map<nat, Task>, id: nat, now: seq<string>)
    requires id in tasks && tasks[id].rules == []
    ensures id in Due(tasks, now)
  {
  }

  /** A task is due as soon as one of its rules matches, whatever the others say. */
  lemma OneMatchingRuleSuffices(tasks: map<nat, Task>, id: nat, k: nat, now: seq<string>)
    requires id in tasks && k < |tasks[id].rules| && RuleMatches(tasks[id].rules[k], now)
    ensures id in Due(tasks, now)
  {
  }

  /** Removing tasks removes exactly them from every later tick's selection. */
  lemma DueAfterRemoval(tasks: map<nat, Task>, ids: set<nat>, now: seq<string>)
    ensures Due(tasks - ids, now) == Due(tasks, now) - ids
  {
  }

  /** Storing a task under an id changes that id's selection only. */
  lemma DueAfterStore(tasks: map<nat, Task>, id: nat, t: Task, now: seq<string>)
    ensures Due(tasks[id := t], now) ==
            (Due(tasks, now) - {id}) + (if TaskDue(t, now) then {id} else {})
  {
  }

  // ---------------------------------------------------------------------------
  // Firing over a run of ticks.

  /** On how many of the given ticks the task under `id` fires. */
  function FireCount(tasks: map<nat, Task>, id: nat, ticks: seq<seq<string>>): nat
  {
    if ticks == [] then 0
    else (if id in Due(tasks, ticks[0]) then 1 else 0) + FireCount(tasks, id, ticks[1..])
  }

  /** A task without rules fires once on every tick. */
  lemma {:induction false} UnconditionalFiresEveryTick(tasks: map<nat, Task>, id: nat, ticks: seq<seq<string>>)
    requires id in tasks && tasks[id].rules == []
    ensures FireCount(tasks, id, ticks) == |ticks|
    decreases |ticks|
  {
    if ticks != [] {
      UnconditionalFiresEveryTick(tasks, id, ticks[1..]);
    }
  }

  /** A task whose only rule has all six fields fires on exactly the ticks equal to
      that rule, once each. */
  lemma {:induction false} InstantRuleFiresOnlyAtItsInstant(tasks: map<nat, Task>, id: nat,
                                                            ticks: seq<seq<string>>)
    requires id in tasks && |tasks[id].rules| == 1 && |tasks[id].rules[0]| == FieldCount
    requires forall j :: 0 <= j < |ticks| ==> |ticks[j]| == FieldCount
    ensures FireCount(tasks, id, ticks) == multiset(ticks)[tasks[id].rules[0]]
    decreases |ticks|
  {
    if ticks != [] {
      var rule := tasks[id].rules[0];
      InstantRuleFiresOnlyAtItsInstant(tasks, id, ticks[1..]);
      FullRuleMatchesOnlyItsInstant(rule, ticks[0]);
      assert ticks == [ticks[0]] + ticks[1..];
      assert TaskDue(tasks[id], ticks[0]) <==> RuleMatches(rule, ticks[0]);
    }
  }
}
