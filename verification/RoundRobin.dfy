/** Round-robin scheduling over a duplicate-free ready list, as values: which task each switch
    picks, how adding and removing tasks changes that, and over whole runs which tasks can ever
    be dispatched. */
module RoundRobin {
  import opened Prelude
  import opened Modular

  /** cur is c_task. stale is what c_task->next_node still holds after c_task itself has been
      removed from the list; it matters only while cur is not listed. */
  datatype Schedule<+T> = Schedule(ready: seq<T>, cur: T, stale: Option<T>)

  ghost predicate NoDuplicates<T>(s: seq<T>) {
    forall i, j | 0 <= i < j < |s| :: s[i] != s[j]
  }

  /** How many nodes the list walks past before it meets the task. */
  function Position<T(==)>(ready: seq<T>, task: T): (i: nat)
    requires task in ready
    ensures i < |ready| && ready[i] == task && task !in ready[..i]
  {
    var last := |ready| - 1;
    if task in ready[..last] then
      assert ready[..last][..Position(ready[..last], task)] == ready[..Position(ready[..last], task)];
      Position(ready[..last], task)
    else last
  }

  function Successor<T(==)>(s: seq<T>, x: T): Option<T>
    requires x in s
  {
    var i := Position(s, x);
    if i + 1 < |s| then Some(s[i + 1]) else None
  }

  /** c_task->next_node. */
  function NextNode<T(==)>(s: Schedule<T>): Option<T> {
    if s.cur in s.ready then Successor(s.ready, s.cur) else s.stale
  }

  /** schedule_round_robin: the next node, or the head after the last one. */
  function Switch<T(==)>(s: Schedule<T>): Schedule<T>
    requires s.ready != []
  {
    match NextNode(s)
    case Some(t) => s.(cur := t, stale := None)
    case None => s.(cur := s.ready[0], stale := None)
  }

  function Without<T(==)>(s: seq<T>, x: T): seq<T>
    requires x in s
  {
    s[..Position(s, x)] + s[Position(s, x) + 1..]
  }

  /** create_task clears the task's own link and appends it. */
  function Add<T(==)>(s: Schedule<T>, x: T): Schedule<T> {
    Schedule(s.ready + [x], s.cur, if x == s.cur then None else s.stale)
  }

  /** _remove_task_from_ready_list: the head keeps its link, any other removed task loses it. */
  function Remove<T(==)>(s: Schedule<T>, x: T): Schedule<T>
    requires x in s.ready
  {
    var stale := if x != s.cur then s.stale else if x == s.ready[0] then Successor(s.ready, x) else None;
    Schedule(Without(s.ready, x), s.cur, stale)
  }

  lemma PositionUnique<T>(s: seq<T>, i: nat)
    requires NoDuplicates(s) && i < |s|
    ensures Position(s, s[i]) == i
  {
    assert Position(s, s[i]) <= i;
  }

  lemma WithoutKeepsOthers<T>(s: seq<T>, x: T)
    requires x in s && NoDuplicates(s)
    ensures NoDuplicates(Without(s, x)) && x !in Without(s, x)
    ensures forall y | y in s && y != x :: y in Without(s, x)
    ensures forall y | y in Without(s, x) :: y in s
  {
    var i := Position(s, x);
    var r := Without(s, x);
    assert forall k | 0 <= k < |r| :: r[k] == if k < i then s[k] else s[k + 1];
    forall y | y in s && y != x ensures y in r {
      var k :| 0 <= k < |s| && s[k] == y;
      assert r[if k < i then k else k - 1] == y;
    }
  }

  // Fairness

  /** The tasks picked by the next k switches. */
  function Dispatched<T(==)>(s: Schedule<T>, k: nat): (r: seq<T>)
    requires s.ready != []
    ensures |r| == k
    decreases k
  {
    if k == 0 then [] else [Switch(s).cur] + Dispatched(Switch(s), k - 1)
  }

  function AfterSwitches<T(==)>(s: Schedule<T>, k: nat): (r: Schedule<T>)
    requires s.ready != []
    ensures r.ready == s.ready
    decreases k
  {
    if k == 0 then s else AfterSwitches(Switch(s), k - 1)
  }

  /** Tasks i+1, i+2, ..., n-1, 0, 1, ..., i of the list. */
  function Rotation<T>(s: seq<T>, i: nat): seq<T>
    requires i < |s|
  {
    s[i + 1..] + s[..i + 1]
  }

  lemma SwitchFromIndex<T>(s: Schedule<T>, i: nat)
    requires NoDuplicates(s.ready) && i < |s.ready| && s.cur == s.ready[i]
    ensures
      var j := if i + 1 < |s.ready| then i + 1 else 0;
      Switch(s) == Schedule(s.ready, s.ready[j], None)
  {
    PositionUnique(s.ready, i);
  }

  /** k switches move from index i to index (i + k) mod n. */
  lemma {:induction false} SwitchesAdvanceTheIndex<T>(s: Schedule<T>, i: nat, k: nat)
    requires NoDuplicates(s.ready) && i < |s.ready| && s.cur == s.ready[i]
    ensures AfterSwitches(s, k).cur == s.ready[(i + k) % |s.ready|]
    decreases k
  {
    var n := |s.ready|;
    if k == 0 {
      QuotientRemainder(i, n, 0, i);
    } else {
      SwitchFromIndex(s, i);
      var j := if i + 1 < n then i + 1 else 0;
      SwitchesAdvanceTheIndex(Switch(s), j, k - 1);
      NextIndex(i, j, k, n);
    }
  }

  lemma NextIndex(i: nat, j: nat, k: nat, n: nat)
    requires i < n && k > 0 && j == if i + 1 < n then i + 1 else 0
    ensures (j + (k - 1)) % n == (i + k) % n
  {
    if j == 0 {
      assert i + k == (k - 1) + n;
      AddModulus(k - 1, n);
    }
  }

  /** Up to n switches walk along the rotation that starts after the current task. */
  lemma {:induction false} DispatchedIsRotation<T>(s: Schedule<T>, i: nat, k: nat)
    requires NoDuplicates(s.ready) && i < |s.ready| && s.cur == s.ready[i] && k <= |s.ready|
    ensures Dispatched(s, k) == Rotation(s.ready, i)[..k]
    decreases k
  {
    if k > 0 {
      SwitchFromIndex(s, i);
      var n := |s.ready|;
      var j := if i + 1 < n then i + 1 else 0;
      DispatchedIsRotation(Switch(s), j, k - 1);
      RotationStep(s.ready, i, k);
    }
  }

  lemma RotationStep<T>(s: seq<T>, i: nat, k: nat)
    requires i < |s| && 1 <= k <= |s|
    ensures
      var j := if i + 1 < |s| then i + 1 else 0;
      Rotation(s, i)[..k] == [s[j]] + Rotation(s, j)[..k - 1]
  {
    var j := if i + 1 < |s| then i + 1 else 0;
    forall x | 0 <= x < k ensures Rotation(s, i)[..k][x] == ([s[j]] + Rotation(s, j)[..k - 1])[x] {
      RotationAt(s, i, x);
      if x > 0 {
        RotationAt(s, j, x - 1);
      }
    }
  }

  lemma RotationAt<T>(s: seq<T>, i: nat, x: nat)
    requires i < |s| && x < |s|
    ensures Rotation(s, i)[x] == s[if x < |s| - i - 1 then x + i + 1 else x - (|s| - i - 1)]
  {
  }

  /** Fairness: any n consecutive switches dispatch each of the n ready tasks exactly once. */
  lemma EveryWindowServesEveryTask<T>(s: Schedule<T>, start: nat)
    requires NoDuplicates(s.ready) && s.cur in s.ready
    ensures
      var w := Dispatched(AfterSwitches(s, start), |s.ready|);
      NoDuplicates(w) && multiset(w) == multiset(s.ready)
  {
    var i := Position(s.ready, s.cur);
    SwitchesAdvanceTheIndex(s, i, start);
    var j := (i + start) % |s.ready|;
    DispatchedIsRotation(AfterSwitches(s, start), j, |s.ready|);
    RotationIsPermutation(s.ready, j);
  }

  lemma RotationIsPermutation<T>(s: seq<T>, i: nat)
    requires i < |s| && NoDuplicates(s)
    ensures
      var w := Rotation(s, i);
      |w| == |s| && w[..|s|] == w && NoDuplicates(w) && multiset(w) == multiset(s)
  {
    var w := Rotation(s, i);
    assert s == s[..i + 1] + s[i + 1..];
    forall a, b | 0 <= a < b < |w| ensures w[a] != w[b] {
      var f := x => if x < |s| - i - 1 then x + i + 1 else x - (|s| - i - 1);
      assert w[a] == s[f(a)] && w[b] == s[f(b)] && f(a) != f(b);
    }
  }

  // Removal

  datatype Event<T> = DoSwitch | DoAdd(added: T) | DoRemove(removed: T)

  /** What the code relies on: a list that is never empty at a switch, no double listing, and, while
      the current task is itself removed, no removal of the task its link still points to. */
  ghost predicate Allowed<T>(s: Schedule<T>, e: Event<T>) {
    Sensible(s, e) && (e.DoRemove? ==> RemovalIsSafe(s, e.removed))
  }

  /** The demands on callers that the code states or takes for granted. */
  ghost predicate Sensible<T>(s: Schedule<T>, e: Event<T>) {
    match e
    case DoSwitch => s.ready != []
    case DoAdd(x) => x !in s.ready
    case DoRemove(x) => x in s.ready
  }

  /** c_task is listed, or c_task->next_node is another task than x. */
  predicate RemovalIsSafe<T(==)>(s: Schedule<T>, x: T) { s.cur in s.ready || s.stale != Some(x) }

  function Apply<T(==)>(s: Schedule<T>, e: Event<T>): Schedule<T>
    requires e.DoSwitch? ==> s.ready != []
    requires e.DoRemove? ==> e.removed in s.ready
  {
    match e
    case DoSwitch => Switch(s)
    case DoAdd(x) => Add(s, x)
    case DoRemove(x) => Remove(s, x)
  }

  /** c_task->next_node is null or a listed task. */
  ghost predicate LinkOk<T>(s: Schedule<T>) {
    && NoDuplicates(s.ready)
    && (s.cur in s.ready || s.stale == None || s.stale.value in s.ready)
  }

  /** A removal keeps the link sound exactly when it does not remove the task that the link of a
      removed current task points to. */
  lemma RemovalKeepsLinkExactlyWhen<T>(s: Schedule<T>, x: T)
    requires LinkOk(s) && x in s.ready
    ensures LinkOk(Remove(s, x)) <==> RemovalIsSafe(s, x)
  {
    WithoutKeepsOthers(s.ready, x);
    if x == s.cur && x == s.ready[0] && |s.ready| > 1 {
      PositionUnique(s.ready, 0);
      assert s.ready[1] != x;
    }
  }

  /** A switch picks a listed task exactly when the link is sound. */
  lemma SwitchPicksListedExactlyWhen<T>(s: Schedule<T>)
    requires NoDuplicates(s.ready) && s.ready != []
    ensures Switch(s).cur in s.ready <==> LinkOk(s)
  {
  }

  lemma EventKeepsLink<T>(s: Schedule<T>, e: Event<T>)
    requires LinkOk(s) && Allowed(s, e)
    ensures LinkOk(Apply(s, e))
    ensures e.DoSwitch? ==> Apply(s, e).cur in s.ready
    ensures forall x | x in Apply(s, e).ready :: x in s.ready || e == DoAdd(x)
  {
    match e
    case DoSwitch => SwitchPicksListedExactlyWhen(s);
    case DoAdd(x) => AddKeepsLink(s, x);
    case DoRemove(x) =>
      RemovalKeepsLinkExactlyWhen(s, x);
      WithoutKeepsOthers(s.ready, x);
  }

  lemma AddKeepsLink<T>(s: Schedule<T>, x: T)
    requires LinkOk(s) && x !in s.ready
    ensures LinkOk(Add(s, x)) && forall y :: y in Add(s, x).ready <==> y in s.ready || y == x
  {
    var r := s.ready + [x];
    assert forall y | y in s.ready :: y in r;
    assert r[|s.ready|] == x;
  }

  ghost predicate AllowedRun<T>(s: Schedule<T>, es: seq<Event<T>>)
    decreases |es|
  {
    es != [] ==> Allowed(s, es[0]) && AllowedRun(Apply(s, es[0]), es[1..])
  }

  /** The link is sound in every state of a run. */
  ghost predicate LinkOkThroughout<T>(s: Schedule<T>, es: seq<Event<T>>)
    decreases |es|
  {
    LinkOk(s) && (es != [] ==> Sensible(s, es[0]) && LinkOkThroughout(Apply(s, es[0]), es[1..]))
  }

  /** The link stays sound in every state exactly when no removal takes away the task that a removed
      current task points to. */
  lemma {:induction false} RunKeepsLinkExactlyWhen<T>(s: Schedule<T>, es: seq<Event<T>>)
    requires LinkOk(s)
    ensures LinkOkThroughout(s, es) <==> AllowedRun(s, es)
    decreases |es|
  {
    if es != [] && Sensible(s, es[0]) {
      var s' := Apply(s, es[0]);
      if es[0].DoRemove? {
        RemovalKeepsLinkExactlyWhen(s, es[0].removed);
      } else {
        EventKeepsLink(s, es[0]);
      }
      if LinkOk(s') {
        RunKeepsLinkExactlyWhen(s', es[1..]);
      }
    }
  }

  /** Removing the running task from a list with another task: the next switch picks a listed
      task, and only ever listed ones. */
  lemma RemoveCurrentThenSwitch<T>(s: Schedule<T>)
    requires NoDuplicates(s.ready) && s.cur in s.ready && |s.ready| > 1
    ensures
      var r := Switch(Remove(s, s.cur));
      r.cur in r.ready && r.cur != s.cur && LinkOk(r)
  {
    EventKeepsLink(s, DoRemove(s.cur));
    WithoutKeepsOthers(s.ready, s.cur);
    EventKeepsLink(Remove(s, s.cur), DoSwitch);
  }

  // Which switches dispatch a removed task

  /** Any adds and removals between two switches. */
  ghost predicate Changes<T>(s: Schedule<T>, es: seq<Event<T>>)
    decreases |es|
  {
    es != [] ==> !es[0].DoSwitch? && Sensible(s, es[0]) && Changes(Apply(s, es[0]), es[1..])
  }

  ghost function AfterChanges<T>(s: Schedule<T>, es: seq<Event<T>>): Schedule<T>
    requires Changes(s, es)
    decreases |es|
  {
    if es == [] then s else AfterChanges(Apply(s, es[0]), es[1..])
  }

  /** The current task is removed while it is the head and not added again, and the task then behind it
      is not listed in the end. (If the current task is unlisted from the start and stays so, the task
      that its link holds is not listed in the end.) */
  ghost predicate Dangles<T>(s: Schedule<T>, es: seq<Event<T>>)
    requires Changes(s, es)
    decreases |es|
  {
    if s.cur !in s.ready && DoAdd(s.cur) !in es then
      s.stale.Some? && s.stale.value !in AfterChanges(s, es).ready
    else if es == [] then false
    else if es[0] == DoRemove(s.cur) && DoAdd(s.cur) !in es[1..] then
      |s.ready| > 1 && s.ready[0] == s.cur && s.ready[1] !in AfterChanges(s, es).ready
    else Dangles(Apply(s, es[0]), es[1..])
  }

  /** Any adds and removals before a switch: the switch dispatches an unlisted task exactly when the
      current task was removed while it was the head, was not added again, and the task then behind it
      is not listed at the switch. */
  lemma {:induction false} SwitchIsSafeExactlyWhen<T>(s: Schedule<T>, es: seq<Event<T>>)
    requires NoDuplicates(s.ready) && Changes(s, es) && AfterChanges(s, es).ready != []
    ensures
      var r := AfterChanges(s, es);
      NoDuplicates(r.ready) && (Switch(r).cur in r.ready <==> !Dangles(s, es))
    decreases |es|
  {
    if s.cur !in s.ready && DoAdd(s.cur) !in es {
      LinkIsLeftAlone(s, es);
      SwitchPicksListedExactlyWhen(AfterChanges(s, es));
    } else if es == [] {
      SwitchPicksListedExactlyWhen(s);
    } else {
      ChangeKeepsDistinct(s, es[0]);
      if es[0] == DoRemove(s.cur) && DoAdd(s.cur) !in es[1..] {
        RemovedLinkIs(s);
        LinkIsLeftAlone(Remove(s, s.cur), es[1..]);
        SwitchPicksListedExactlyWhen(AfterChanges(s, es));
      } else {
        SwitchIsSafeExactlyWhen(Apply(s, es[0]), es[1..]);
      }
    }
  }

  lemma ChangeKeepsDistinct<T>(s: Schedule<T>, e: Event<T>)
    requires NoDuplicates(s.ready) && Sensible(s, e) && !e.DoSwitch?
    ensures NoDuplicates(Apply(s, e).ready)
    ensures forall y | y in Apply(s, e).ready :: y in s.ready || e == DoAdd(y)
    ensures s.cur !in s.ready && e != DoAdd(s.cur) ==> Apply(s, e).stale == s.stale
  {
    if e.DoRemove? {
      WithoutKeepsOthers(s.ready, e.removed);
    }
  }

  /** What the link of the current task holds once it is removed. */
  lemma RemovedLinkIs<T>(s: Schedule<T>)
    requires NoDuplicates(s.ready) && s.cur in s.ready
    ensures
      var r := Remove(s, s.cur);
      && r.cur == s.cur && s.cur !in r.ready
      && r.stale == if s.ready[0] == s.cur && |s.ready| > 1 then Some(s.ready[1]) else None
  {
    WithoutKeepsOthers(s.ready, s.cur);
    PositionUnique(s.ready, 0);
  }

  /** While the current task stays unlisted, nothing changes it or its link. */
  lemma {:induction false} LinkIsLeftAlone<T>(s: Schedule<T>, es: seq<Event<T>>)
    requires NoDuplicates(s.ready) && s.cur !in s.ready && Changes(s, es) && DoAdd(s.cur) !in es
    ensures
      var r := AfterChanges(s, es);
      NoDuplicates(r.ready) && r.cur == s.cur && s.cur !in r.ready && r.stale == s.stale
    decreases |es|
  {
    if es != [] {
      ChangeKeepsDistinct(s, es[0]);
      LinkIsLeftAlone(Apply(s, es[0]), es[1..]);
    }
  }

  // Whole runs: rounds of adds and removals, each ended by a switch

  /** What the code demands of its callers, as long as every switch so far has picked a listed task. */
  ghost predicate RoundOk<T>(s: Schedule<T>, es: seq<Event<T>>) {
    Changes(s, es) && AfterChanges(s, es).ready != []
  }

  ghost function AfterRound<T>(s: Schedule<T>, es: seq<Event<T>>): Schedule<T>
    requires RoundOk(s, es)
  {
    Switch(AfterChanges(s, es))
  }

  /** Every switch of the run dispatches a task that is listed at that moment. */
  ghost predicate DispatchesListed<T>(s: Schedule<T>, rounds: seq<seq<Event<T>>>)
    decreases |rounds|
  {
    rounds != [] ==>
      && RoundOk(s, rounds[0])
      && AfterRound(s, rounds[0]).cur in AfterRound(s, rounds[0]).ready
      && DispatchesListed(AfterRound(s, rounds[0]), rounds[1..])
  }

  ghost predicate NeverDangles<T>(s: Schedule<T>, rounds: seq<seq<Event<T>>>)
    decreases |rounds|
  {
    rounds != [] ==>
      && RoundOk(s, rounds[0]) && !Dangles(s, rounds[0])
      && NeverDangles(AfterRound(s, rounds[0]), rounds[1..])
  }

  /** The exact class of runs that dispatch listed tasks only: those none of whose rounds dangles. */
  lemma {:induction false} RunIsSafeExactlyWhen<T>(s: Schedule<T>, rounds: seq<seq<Event<T>>>)
    requires NoDuplicates(s.ready)
    ensures DispatchesListed(s, rounds) <==> NeverDangles(s, rounds)
    decreases |rounds|
  {
    if rounds != [] && RoundOk(s, rounds[0]) {
      SwitchIsSafeExactlyWhen(s, rounds[0]);
      RunIsSafeExactlyWhen(AfterRound(s, rounds[0]), rounds[1..]);
    }
  }

  /** The tasks dispatched by the switches of a run. */
  ghost function DispatchedBy<T>(s: Schedule<T>, rounds: seq<seq<Event<T>>>): seq<T>
    requires NeverDangles(s, rounds)
    decreases |rounds|
  {
    if rounds == [] then []
    else [AfterRound(s, rounds[0]).cur] + DispatchedBy(AfterRound(s, rounds[0]), rounds[1..])
  }

  /** Over every such run, a task that is not listed is never dispatched until it is added. */
  lemma {:induction false} RemovedTaskStaysOut<T>(s: Schedule<T>, rounds: seq<seq<Event<T>>>, t: T)
    requires NoDuplicates(s.ready) && NeverDangles(s, rounds) && t !in s.ready
    requires forall es | es in rounds :: DoAdd(t) !in es
    ensures t !in DispatchedBy(s, rounds)
    decreases |rounds|
  {
    if rounds != [] {
      SwitchIsSafeExactlyWhen(s, rounds[0]);
      StaysUnlisted(s, rounds[0], t);
      RemovedTaskStaysOut(AfterRound(s, rounds[0]), rounds[1..], t);
    }
  }

  lemma {:induction false} StaysUnlisted<T>(s: Schedule<T>, es: seq<Event<T>>, t: T)
    requires NoDuplicates(s.ready) && Changes(s, es) && t !in s.ready && DoAdd(t) !in es
    ensures t !in AfterChanges(s, es).ready
    decreases |es|
  {
    if es != [] {
      ChangeKeepsDistinct(s, es[0]);
      StaysUnlisted(Apply(s, es[0]), es[1..], t);
    }
  }

  /** Such a switch: the head runs, it is removed, and then the task behind it. */
  lemma DanglingLink<T>(s: Schedule<T>)
    requires NoDuplicates(s.ready) && |s.ready| > 2 && s.cur == s.ready[0]
    ensures
      var next, s' := s.ready[1], Remove(s, s.cur);
      && next in s'.ready
      && var r := Remove(s', next);
         r.ready == s.ready[2..] && Switch(r).cur == next && next !in r.ready
  {
    RemoveHeadIs(s);
    RemoveHeadIs(Schedule(s.ready[1..], s.cur, Some(s.ready[1])));
  }

  lemma RemoveHeadIs<T>(s: Schedule<T>)
    requires NoDuplicates(s.ready) && s.ready != []
    ensures Remove(s, s.ready[0])
         == Schedule(s.ready[1..], s.cur,
                     if s.ready[0] != s.cur then s.stale
                     else if |s.ready| > 1 then Some(s.ready[1]) else None)
  {
    PositionUnique(s.ready, 0);
  }
}
