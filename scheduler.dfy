/** The task registry and the per-tick selection pass that reads it.

    The registry maps task ids to tasks. `Add` validates every rule string, splits each
    on single spaces and stores the task under the current number of tasks; `Clear`
    deletes ids; `Exec` walks the registry once per tick and dispatches each task that
    is due. Dispatching is recorded as the task id being appended to the list `Exec`
    returns. */
module Scheduler {
  import opened Strings
  import opened RuleGrammar
  import opened Matcher

  datatype Option<T> = None | Some(value: T)

  /** The only way `Add` fails: a rule string does not fit the grammar. */
  datatype AddError = RuleNotMatched(rule: string)

  /** Every stored rule has between one and six fields. */
  predicate RulesFit(t: Task) {
    forall j :: 0 <= j < |t.rules| ==> 1 <= |t.rules[j]| <= FieldCount
  }

  class TaskRegistry {
    var tasks: map<nat, Task>

    ghost predicate Valid()
      reads this
    {
      forall id :: id in tasks ==> RulesFit(tasks[id])
    }

    constructor ()
      ensures Valid() && tasks == map[]
    {
      tasks := map[];
    }

    /** Registers `action` with the given rule strings. Fails on the first rule that
        does not fit the grammar, storing nothing; otherwise stores the task under the
        id equal to the number of tasks before the call, replacing any task already
        stored under that id. */
    method Add(action: ActionId, rules: seq<string>) returns (id: nat, err: Option<AddError>)
      requires Valid()
      modifies this
      ensures Valid()
      ensures err.None? <==> forall j :: 0 <= j < |rules| ==> ValidRule(rules[j])
      ensures err.Some? ==>
        id == 0 && tasks == old(tasks) &&
        exists j :: 0 <= j < |rules| && !ValidRule(rules[j]) &&
                    (forall l :: 0 <= l < j ==> ValidRule(rules[l])) &&
                    err.value == RuleNotMatched(rules[j])
      ensures err.None? ==>
        id == |old(tasks)| && id in tasks &&
        tasks[id].action == action && |tasks[id].rules| == |rules| &&
        (forall j :: 0 <= j < |rules| ==> tasks[id].rules[j] == Split(rules[j])) &&
        tasks == old(tasks)[id := tasks[id]]
    {
      var parsed: seq<Rule> := [];
      var i := 0;
      while i < |rules|
        invariant 0 <= i <= |rules|
        invariant tasks == old(tasks)
        invariant forall j :: 0 <= j < i ==> ValidRule(rules[j])
        invariant |parsed| == i && forall j :: 0 <= j < i ==> parsed[j] == Split(rules[j])
        invariant forall j :: 0 <= j < i ==> 1 <= |parsed[j]| <= FieldCount
      {
        if !ValidRule(rules[i]) {
          return 0, Some(RuleNotMatched(rules[i]));
        }
        ValidRuleFieldCount(rules[i]);
        parsed := parsed + [Split(rules[i])];
        i := i + 1;
      }
      id := |tasks|;
      tasks := tasks[id := Task(parsed, action)];
      err := None;
    }

    /** Deletes every listed id; ids that are not registered are ignored. */
    method Clear(ids: seq<nat>)
      requires Valid()
      modifies this
      ensures Valid()
      ensures forall id :: id in ids ==> id !in tasks
      ensures forall id :: id in old(tasks) && id !in ids ==> id in tasks && tasks[id] == old(tasks)[id]
      ensures tasks.Keys <= old(tasks).Keys
    {
      var i := 0;
      while i < |ids|
        invariant 0 <= i <= |ids|
        invariant tasks == old(tasks) - (set j | 0 <= j < i :: ids[j])
      {
        tasks := tasks - {ids[i]};
        i := i + 1;
      }
    }

    /** One tick: visits every registered task once, in no particular order, and
        dispatches those that are due on the time fields `now`. A task without rules is
        dispatched without looking at the time. */
    method Exec(now: seq<string>) returns (dispatched: seq<nat>)
      requires Valid() && |now| == FieldCount
      ensures forall id :: id in dispatched <==> id in Due(tasks, now)
      ensures forall a, b :: 0 <= a < b < |dispatched| ==> dispatched[a] != dispatched[b]
    {
      dispatched := [];
      var remaining := tasks.Keys;
      while remaining != {}
        invariant remaining <= tasks.Keys
        invariant forall id :: id in dispatched <==> id in tasks && id !in remaining && TaskDue(tasks[id], now)
        invariant forall a, b :: 0 <= a < b < |dispatched| ==> dispatched[a] != dispatched[b]
        decreases remaining
      {
        var id :| id in remaining;
        remaining := remaining - {id};
        var t := tasks[id];
        if |t.rules| == 0 {
          dispatched := dispatched + [id];
          continue;
        }
        var m := AnyRuleMatches(t.rules, now);
        if m {
          dispatched := dispatched + [id];
        }
      }
    }
  }

  // ---------------------------------------------------------------------------
  // Ids taken from the number of tasks.

  /** The ids 0 to n - 1. */
  function Below(n: nat): (ids: set<nat>)
    ensures forall i :: i in ids ==> i < n
    ensures |ids| == n
  {
    if n == 0 then {} else Below(n - 1) + {n - 1}
  }

  lemma {:induction false} InBelow(i: nat, n: nat)
    requires i < n
    ensures i in Below(n)
  {
    if i < n - 1 {
      InBelow(i, n - 1);
    }
  }

  /** While no task has been cleared, the registry holds ids 0 to n - 1 and the next
      id is unused. */
  lemma NextIdFreshWithoutClear(tasks: map<nat, Task>, n: nat, t: Task)
    requires tasks.Keys == Below(n)
    ensures |tasks| == n && n !in tasks && tasks[n := t].Keys == Below(n + 1)
  {
  }

  /** After clearing any id other than the newest, the id the next `Add` takes is
      still in use, so that task is replaced. */
  lemma NextIdCollidesAfterClear(tasks: map<nat, Task>, n: nat, x: nat)
    requires tasks.Keys == Below(n) && x + 1 < n
    ensures |tasks - {x}| == n - 1 && n - 1 in tasks - {x}
  {
    InBelow(x, n);
    InBelow(n - 1, n);
    var rest := tasks - {x};
    assert rest.Keys == Below(n) - {x};
    assert |rest.Keys| == |Below(n)| - 1;
  }

  /** Two tasks added to an empty registry, the first cleared, a third added: the third
      gets the id of the second, which is overwritten. */
  method IdReuseScenario() returns (first: nat, second: nat, third: nat, survivor: ActionId)
    ensures first == 0 && second == 1 && third == second
    ensures survivor == 30
  {
    var registry := new TaskRegistry();
    var err;
    first, err := registry.Add(10, []);
    second, err := registry.Add(20, []);
    registry.Clear([first]);
    assert registry.tasks.Keys == {1};
    third, err := registry.Add(30, []);
    survivor := registry.tasks[second].action;
  }
}
