/** The intrusive ready list: task control blocks linked through next_node, with the seek loops
    that walk it. Every operation is proved to do to the linked nodes what the value model in
    RoundRobin does to a sequence. */
module ReadyList {
  import opened Prelude
  import opened TaskData
  import opened RoundRobin

  lemma DropKeepsDistinct<T>(s: seq<T>, k: nat)
    requires NoDuplicates(s) && 0 < k < |s|
    ensures
      var r := s[..k] + s[k + 1..];
      NoDuplicates(r) && s[k] !in r && forall i | 0 <= i < |r| :: r[i] == s[if i < k then i else i + 1]
  {
    var r := s[..k] + s[k + 1..];
    assert forall i | 0 <= i < |r| :: r[i] == s[if i < k then i else i + 1];
  }

  function LinkOf(t: Task?): Option<Task> { if t == null then None else Some(t) }

  class Kernel {
    var head: Task?
    var cTask: Task?
    ghost var ready: seq<Task>
    ghost var tasks: set<Task>

    /** The list is acyclic and duplicate-free: node i links to node i + 1, the last one to null.
        Every link, of listed and removed tasks alike, leads to a known task. */
    ghost predicate Valid()
      reads this, tasks`nextNode
    {
      && NoDuplicates(ready)
      && (forall i | 0 <= i < |ready| :: ready[i] in tasks)
      && (cTask != null ==> cTask in tasks)
      && head == NodeAt(0)
      && (forall i | 0 <= i < |ready| :: ready[i].nextNode == NodeAt(i + 1))
      && (forall t | t in tasks :: t.nextNode != null ==> t.nextNode in tasks)
    }

    ghost function NodeAt(i: nat): Task?
      requires i <= |ready|
      reads this
    {
      if i < |ready| then ready[i] else null
    }

    /** The value the linked structure stands for. */
    ghost function View(): Schedule<Task>
      requires cTask != null
      reads this, cTask`nextNode
    {
      Schedule(ready, cTask, if cTask in ready then None else LinkOf(cTask.nextNode))
    }

    constructor ()
      ensures Valid() && ready == [] && cTask == null && tasks == {}
    {
      head, cTask := null, null;
      ready, tasks := [], {};
    }

    /** _find_preceding_task: the node before target, or the last node for null. The loop walks
        towards the end, so it stops at the latest there. */
    method FindPreceding(target: Task?) returns (t: Task?)
      requires Valid()
      requires target != null ==> target in ready && target != ready[0]
      ensures ready == [] ==> t == null
      ensures ready != [] && target == null ==> t == ready[|ready| - 1]
      ensures target != null ==> t != null && Position(ready, target) > 0 && t == ready[Position(ready, target) - 1]
    {
      t := head;
      if t == null {
        return;
      }
      ghost var stop := if target == null then |ready| else Position(ready, target);
      ghost var i := 0;
      while t.nextNode != target && t != null
        invariant 0 <= i < stop <= |ready| && t == ready[i]
        invariant target == NodeAt(stop)
        decreases stop - i
      {
        assert ready[i].nextNode == NodeAt(i + 1);
        t := t.nextNode;
        i := i + 1;
      }
      assert ready[i].nextNode == NodeAt(i + 1);
      assert i + 1 == stop;
    }

    /** _find_task: the task itself when it is listed, null otherwise, and null for null. */
    method FindTask(target: Task?) returns (t: Task?)
      requires Valid()
      ensures t == if target != null && target in ready then target else null
    {
      t := head;
      ghost var i := 0;
      while t != null
        invariant 0 <= i <= |ready| && t == NodeAt(i)
        invariant target !in ready[..i]
        decreases |ready| - i
      {
        if t == target {
          return;
        }
        assert ready[i].nextNode == NodeAt(i + 1);
        t := t.nextNode;
        i := i + 1;
      }
    }

    /** _add_task: append. */
    method AddTask(t: Task)
      requires Valid() && t !in ready && t.nextNode == null
      modifies this`head, this`ready, this`tasks, tasks`nextNode
      ensures Valid() && ready == old(ready) + [t] && tasks == old(tasks) + {t}
      ensures cTask != null ==> View() == Add(old(View()), t)
      ensures t.nextNode == null
      ensures forall u | u in old(tasks) && u !in old(ready) :: u.nextNode == old(u.nextNode)
    {
      if head == null {
        head := t;
      } else {
        var last := FindPreceding(null);
        assert last == ready[|ready| - 1] && last != t;
        last.nextNode := t;
      }
      ready := ready + [t];
      tasks := tasks + {t};
    }

    /** create_task publishes the task and makes it current when there is no current task yet. */
    method Publish(t: Task)
      requires Valid() && t !in ready
      modifies this, tasks`nextNode, t`nextNode, t`state
      ensures Valid() && ready == old(ready) + [t] && t.state == READY && t.nextNode == null
      ensures cTask == if old(cTask) == null then ready[0] else old(cTask)
      ensures old(cTask) != null ==> View() == Add(old(View()), t)
    {
      t.state := READY;
      t.nextNode := null;
      AddTask(t);
      if cTask == null {
        cTask := head;
      }
    }

    /** Removal of the first task: only the head moves, the task keeps its link. */
    method UnlinkHead()
      requires Valid() && ready != []
      modifies this`head, this`ready
      ensures Valid() && ready == old(ready)[1..]
    {
      assert ready[0].nextNode == NodeAt(1);
      head := head.nextNode;
      ready := ready[1..];
    }

    /** Removal of a later task: its predecessor takes over its link, and its own is cleared. */
    method UnlinkInner(t: Task, ghost k: nat)
      requires Valid() && 0 < k < |ready| && t == ready[k]
      modifies this`ready, tasks`nextNode
      ensures Valid() && ready == old(ready)[..k] + old(ready)[k + 1..] && t.nextNode == null
      ensures forall u | u in tasks && u != t && u !in ready :: u.nextNode == old(u.nextNode)
    {
      PositionUnique(ready, k);
      var preceding := FindPreceding(t);
      assert forall i | 0 <= i < |ready| :: ready[i].nextNode == NodeAt(i + 1);
      Relink(t, preceding, k);
    }

    /** The two link updates, with the predecessor known. */
    method Relink(t: Task, preceding: Task, ghost k: nat)
      requires Valid() && 0 < k < |ready| && t == ready[k] && preceding == ready[k - 1]
      modifies this`ready, preceding`nextNode, t`nextNode
      ensures Valid() && ready == old(ready)[..k] + old(ready)[k + 1..] && t.nextNode == null
    {
      ghost var was := ready;
      ghost var after := NodeAt(k + 1);
      DropKeepsDistinct(was, k);
      assert was[k].nextNode == after && was[k - 1] != t;
      preceding.nextNode := t.nextNode;
      t.nextNode := null;
      ready := was[..k] + was[k + 1..];
      assert head == was[0] == ready[0];
      assert NodeAt(k) == after;
      forall i | 0 <= i < |ready| ensures ready[i].nextNode == NodeAt(i + 1) {
        assert ready[i] == was[if i < k then i else i + 1];
        assert ready[i] != t && (ready[i] == preceding <==> i == k - 1);
      }
    }

    /** _remove_task_from_ready_list: deletes one element and keeps the order of the rest. */
    method RemoveFromReadyList(t: Task?) returns (failed: bool)
      requires Valid() && (t != null ==> t in ready)
      modifies this`head, this`ready, tasks`nextNode
      ensures Valid() && failed == (t == null)
      ensures t == null ==> ready == old(ready)
      ensures t != null ==> ready == Without(old(ready), t)
      ensures t != null && cTask != null ==> View() == Remove(old(View()), t)
    {
      if t == null {
        return true;
      }
      ghost var k := Position(ready, t);
      ghost var link := ready[k].nextNode;
      assert link == NodeAt(k + 1);
      WithoutKeepsOthers(ready, t);
      if t == head {
        UnlinkHead();
      } else {
        UnlinkInner(t, k);
      }
      return false;
    }

    /** remove_task. */
    method RemoveTask(t: Task?) returns (failed: bool)
      requires Valid() && (t != null ==> t in ready)
      modifies this`head, this`ready, tasks`nextNode, tasks`state
      ensures Valid() && failed == (t == null)
      ensures t != null ==> ready == Without(old(ready), t) && t.state == UNDEFINED
      ensures t != null && cTask != null ==> View() == Remove(old(View()), t)
    {
      failed := RemoveFromReadyList(t);
      if failed {
        return;
      }
      t.state := UNDEFINED;
    }

    /** schedule_round_robin: as in the value model, and a listed task exactly when the current task's
        link is sound. */
    method ScheduleNext()
      requires Valid() && cTask != null && ready != []
      modifies this`cTask
      ensures Valid() && cTask != null && cTask == Switch(old(View())).cur
      ensures cTask in ready <==> LinkOk(old(View()))
      ensures cTask in ready ==> View() == Switch(old(View()))
    {
      SwitchPicksListedExactlyWhen(View());
      ghost var i := if cTask in ready then Position(ready, cTask) else 0;
      assert cTask in ready ==> cTask.nextNode == NodeAt(i + 1);
      var node := cTask.nextNode;
      if node == null {
        node := head;
      }
      cTask := node;
    }
  }
}
