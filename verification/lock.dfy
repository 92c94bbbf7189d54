/** The advisory lock of lock.go. The Kubernetes client and the resource are
    abstracted away: the two `Status().Update` calls become their outcomes,
    `first` and `second`, given as inputs, and the task becomes an oracle
    from (the snapshot it is handed, the live set it may edit) to (the live
    set it leaves, the error it returns). `Execute` is a pure step that also
    returns the trace of store writes and task calls it made. */
module AdvisoryLock {

  import opened Wrappers
  import opened Conditions
  import opened Find
  import opened Mutations
  import Errors

  /** The reason written with the Locked status. */
  const LockedReason: string := "Resource locked"

  /** A lock holds the snapshot of its condition; the client and the resource
      it also holds in Go are the parameters of `Execute`. */
  datatype Lock = Lock(condition: Condition)

  /** What the task leaves behind: the live set after its edits, and its error. */
  datatype TaskOutcome = TaskOutcome(conditions: seq<Condition>, err: Option<Errors.Error>)

  /** A task sees the snapshot and the live set, and may edit the live set. */
  type Task = (Condition, seq<Condition>) -> TaskOutcome

  /** The observable steps of one `Execute`: a store write of the whole set,
      or a call of the task with the condition it was handed. */
  datatype Event = Persisted(conditions: seq<Condition>) | TaskRan(snapshot: Condition)

  /** What `Execute` leaves behind: the lock (whose snapshot it may rewrite),
      the live set, the returned error and the trace. */
  datatype Execution = Execution(lock: Lock, conditions: seq<Condition>, err: Option<Errors.Error>, trace: seq<Event>)

  /** `NewLock`: snapshot the condition of type t as it is before any locking. */
  function NewLock(cs: seq<Condition>, t: ConditionType): (l: Lock)
    ensures l.condition.conditionType == t
    ensures forall i {:trigger FirstOfType(cs, i, t)} :: FirstOfType(cs, i, t) ==> l.condition == cs[i]
    ensures AbsentType(cs, t) ==> l.condition == Initial(t)
  {
    Lock(FindOrInitializeFor(cs, t))
  }

  /** `(*Lock).Condition`: the snapshot the lock holds. */
  function LockCondition(l: Lock): (c: Condition)
    ensures c == l.condition
  {
    l.condition
  }

  /** The condition `Execute` upserts to claim the lock; its zero timestamp is
      filled by the upsert. */
  function LockedCondition(t: ConditionType): Condition {
    Condition(t, Locked, ZeroTime, LockedReason)
  }

  /** The live set once the Locked condition is upserted into it. */
  function LockedSet(l: Lock, live: seq<Condition>, now: Time): seq<Condition>
    requires now > ZeroTime
  {
    Upsert(live, LockedCondition(l.condition.conditionType), now)
  }

  /** The task's outcome when it is called by `Execute`. */
  function RunTask(task: Task, l: Lock, live: seq<Condition>, now: Time): TaskOutcome
    requires now > ZeroTime
  {
    task(l.condition, LockedSet(l, live, now))
  }

  /** The task either fails or leaves a condition of type t in the set; a task
      that succeeds after removing it makes lock.go dereference nil. */
  ghost predicate TaskKeepsType(out: TaskOutcome, t: ConditionType) {
    out.err.Some? || !AbsentType(out.conditions, t)
  }

  /** What the lock settles after the task: its rewritten snapshot, the live
      set and the pending error. */
  datatype Resolution = Resolution(snapshot: Condition, conditions: seq<Condition>, err: Option<Errors.Error>)

  /** The part of `Execute` between the task and the second write: a failing
      task has the snapshot stored as Error with the error text as reason;
      then, if the first condition of the type is still Locked, the snapshot is
      stored as Error with the LockNotReleased text and that error is pending. */
  function Resolve(snapshot: Condition, out: TaskOutcome, now: Time): (r: Resolution)
    requires now > ZeroTime
    requires TaskKeepsType(out, snapshot.conditionType)
    ensures r.err.None? <==> out.err.None? && !TypeHasStatus(out.conditions, snapshot.conditionType, Locked)
    ensures out.err.None? && !TypeHasStatus(out.conditions, snapshot.conditionType, Locked) ==>
      r.conditions == out.conditions && r.snapshot == snapshot
    // a failing task: its error is pending and the snapshot is stored as Error with the error text
    ensures out.err.Some? ==> r.err.Some? && r.snapshot.status == Error
    ensures out.err.Some? && UniqueTypes(out.conditions) ==>
      && r.err == out.err
      && r.snapshot == snapshot.(status := Error, reason := Errors.Message(out.err.value))
      && FindType(r.conditions, snapshot.conditionType) == Some(Stamp(r.snapshot, now))
    // a successful task that left the lock held: LockNotReleased, stored as Error with its text
    ensures out.err.None? && TypeHasStatus(out.conditions, snapshot.conditionType, Locked) ==>
      && r.err == Some(Errors.LockNotReleased)
      && r.snapshot == snapshot.(status := Error, reason := Errors.Message(Errors.LockNotReleased))
      && (UniqueTypes(out.conditions) ==>
            FindType(r.conditions, snapshot.conditionType) == Some(Stamp(r.snapshot, now)))
    // only the lock's own type is written, in place: the set grows only when
    // the type is missing, and every other entry keeps its index
    ensures |r.conditions| == |out.conditions| + if AbsentType(out.conditions, snapshot.conditionType) then 1 else 0
    ensures forall i :: 0 <= i < |out.conditions| && out.conditions[i].conditionType != snapshot.conditionType ==>
              r.conditions[i] == out.conditions[i]
    ensures UniqueTypes(out.conditions) ==> UniqueTypes(r.conditions)
    ensures forall u :: u != snapshot.conditionType ==> FindType(r.conditions, u) == FindType(out.conditions, u)
    ensures r.snapshot.conditionType == snapshot.conditionType
  {
    var t := snapshot.conditionType;
    var snap1 := if out.err.Some? then snapshot.(status := Error, reason := Errors.Message(out.err.value)) else snapshot;
    var set1 := if out.err.Some? then Upsert(out.conditions, snap1, now) else out.conditions;
    assert !AbsentType(set1, t)
      && (UniqueTypes(out.conditions) ==> UniqueTypes(set1))
      && (out.err.Some? && UniqueTypes(out.conditions) ==> FindType(set1, t) == Some(Stamp(snap1, now)))
      && (forall u :: u != t ==> FindType(set1, u) == FindType(out.conditions, u)) by {
      if out.err.Some? {
        UpsertEffects(out.conditions, snap1, now);
      }
    }
    if FindType(set1, t).value.status == Locked then
      var snap2 := snap1.(status := Error, reason := Errors.Message(Errors.LockNotReleased));
      var set2 := Upsert(set1, snap2, now);
      UpsertEffects(set1, snap2, now);
      Resolution(snap2, set2, Some(Errors.LockNotReleased))
    else
      Resolution(snap1, set1, out.err)
  }

  /** `(*Lock).Execute`: claim, persist, run the task on the snapshot, force
      Error on a task failure or an unreleased lock, persist again, and return
      the first write's error, else the second's, else the pending error. */
  function Execute(l: Lock, live: seq<Condition>, now: Time, task: Task,
                   first: Option<Errors.Error>, second: Option<Errors.Error>): (r: Execution)
    requires now > ZeroTime
    requires first.None? ==> TaskKeepsType(RunTask(task, l, live, now), l.condition.conditionType)
    // the Locked condition is written before any store write
    ensures |r.trace| >= 1 && r.trace[0] == Persisted(LockedSet(l, live, now))
    // a failed first write aborts: its error, one write, no task
    ensures first.Some? ==>
      && r.err == first
      && r.trace == [Persisted(LockedSet(l, live, now))]
      && r.conditions == LockedSet(l, live, now)
      && r.lock == l
    // otherwise exactly two writes, the task called once in between, with the snapshot
    ensures first.None? ==>
      && |r.trace| == 3
      && r.trace[1] == TaskRan(l.condition)
      && r.trace[2] == Persisted(r.conditions)
    // a failed second write wins over any pending error
    ensures first.None? && second.Some? ==> r.err == second
    ensures first.None? ==>
      var out := RunTask(task, l, live, now);
      var released := out.err.None? && !TypeHasStatus(out.conditions, l.condition.conditionType, Locked);
      // with both writes done, success exactly when the task succeeded and released the lock
      && (second.None? ==> (r.err.None? <==> released))
      // a successful task that resolved the condition is left alone
      && (released ==> r.conditions == out.conditions && r.lock == l)
      // a successful task that left the condition Locked is reported
      && (second.None? && out.err.None? && !released ==> r.err == Some(Errors.LockNotReleased))
    ensures r.lock.condition.conditionType == l.condition.conditionType
  {
    var locked := LockedSet(l, live, now);
    if first.Some? then
      Execution(l, locked, first, [Persisted(locked)])
    else
      var res := Resolve(l.condition, task(l.condition, locked), now);
      Execution(Lock(res.snapshot), res.conditions, if second.Some? then second else res.err,
                [Persisted(locked), TaskRan(l.condition), Persisted(res.conditions)])
  }

  /** The lock's snapshot is what FindOrInitializeFor returned at construction. */
  lemma NewLockSnapshot(cs: seq<Condition>, t: ConditionType)
    ensures LockCondition(NewLock(cs, t)) == FindOrInitializeFor(cs, t)
    ensures FindType(cs, t).Some? ==> LockCondition(NewLock(cs, t)) == FindType(cs, t).value
  {
    if FindType(cs, t).Some? {
      ExistsFirstOfType(cs, t);
    }
  }

  /** On a set with unique types, the first write persists the type as Locked
      with reason "Resource locked" stamped now, and every other type as it was. */
  lemma ExecuteLocksFirst(l: Lock, live: seq<Condition>, now: Time, task: Task,
                          first: Option<Errors.Error>, second: Option<Errors.Error>)
    requires now > ZeroTime
    requires first.None? ==> TaskKeepsType(RunTask(task, l, live, now), l.condition.conditionType)
    requires UniqueTypes(live)
    ensures
      var persisted := Execute(l, live, now, task, first, second).trace[0].conditions;
      && FindType(persisted, l.condition.conditionType) == Some(Condition(l.condition.conditionType, Locked, now, LockedReason))
      && forall u :: u != l.condition.conditionType ==> FindType(persisted, u) == FindType(live, u)
  {
    var t := l.condition.conditionType;
    UpsertThenFindType(live, LockedCondition(t), now);
    forall u | u != t ensures FindType(LockedSet(l, live, now), u) == FindType(live, u) {
      UpsertKeepsOtherTypes(live, LockedCondition(t), now, u);
    }
  }

  /** A lock made by NewLock hands the task the pre-lock condition: when the
      type was not Locked before, the task sees a non-Locked status although
      the set it was written from holds Locked. */
  lemma NewLockTaskSeesPreLockCondition(live: seq<Condition>, t: ConditionType, now: Time, task: Task,
                                        second: Option<Errors.Error>)
    requires now > ZeroTime
    requires TaskKeepsType(RunTask(task, NewLock(live, t), live, now), t)
    requires UniqueTypes(live)
    requires !TypeHasStatus(live, t, Locked)
    ensures
      var r := Execute(NewLock(live, t), live, now, task, None, second);
      && r.trace[1] == TaskRan(FindOrInitializeFor(live, t))
      && r.trace[1].snapshot.status != Locked
      && TypeHasStatus(r.trace[0].conditions, t, Locked)
  {
    var l := NewLock(live, t);
    if FindType(live, t).Some? {
      ExistsFirstOfType(live, t);
    }
    ExecuteLocksFirst(l, live, now, task, None, second);
  }

  /** If the task keeps types unique, the condition is never persisted as
      Locked by the second write. */
  lemma ExecuteReleasesLock(l: Lock, live: seq<Condition>, now: Time, task: Task, second: Option<Errors.Error>)
    requires now > ZeroTime
    requires TaskKeepsType(RunTask(task, l, live, now), l.condition.conditionType)
    requires UniqueTypes(RunTask(task, l, live, now).conditions)
    ensures
      var r := Execute(l, live, now, task, None, second);
      && FindType(r.trace[2].conditions, l.condition.conditionType).Some?
      && FindType(r.trace[2].conditions, l.condition.conditionType).value.status != Locked
  {
    var t := l.condition.conditionType;
    var out := RunTask(task, l, live, now);
    var snap1 := if out.err.Some? then l.condition.(status := Error, reason := Errors.Message(out.err.value)) else l.condition;
    var set1 := if out.err.Some? then Upsert(out.conditions, snap1, now) else out.conditions;
    if out.err.Some? {
      UpsertPreservesUniqueTypes(out.conditions, snap1, now);
      UpsertThenFindType(out.conditions, snap1, now);
    } else {
      ExistsFirstOfType(out.conditions, t);
    }
    if FindType(set1, t).value.status == Locked {
      var snap2 := snap1.(status := Error, reason := Errors.Message(Errors.LockNotReleased));
      UpsertThenFindType(set1, snap2, now);
    }
  }

  /** A failing task: with both writes done and types unique, Execute returns
      the task's error, the condition is stored as Error with the error text as
      reason, and the lock's own snapshot is rewritten the same way. */
  lemma ExecuteTaskFailure(l: Lock, live: seq<Condition>, now: Time, task: Task, e: Errors.Error)
    requires now > ZeroTime
    requires RunTask(task, l, live, now).err == Some(e)
    requires UniqueTypes(RunTask(task, l, live, now).conditions)
    ensures
      var r := Execute(l, live, now, task, None, None);
      && r.err == Some(e)
      && FindType(r.conditions, l.condition.conditionType).Some?
      && FindType(r.conditions, l.condition.conditionType).value.status == Error
      && FindType(r.conditions, l.condition.conditionType).value.reason == Errors.Message(e)
      && r.lock.condition == l.condition.(status := Error, reason := Errors.Message(e))
  {
    var out := RunTask(task, l, live, now);
    var snap1 := l.condition.(status := Error, reason := Errors.Message(e));
    UpsertThenFindType(out.conditions, snap1, now);
  }

  /** A task that succeeds but leaves the condition Locked: with types unique,
      the condition is stored as Error with the LockNotReleased text, the lock's
      snapshot is rewritten the same way, and the error is LockNotReleased
      unless the second write failed. */
  lemma ExecuteLockNotReleased(l: Lock, live: seq<Condition>, now: Time, task: Task, second: Option<Errors.Error>)
    requires now > ZeroTime
    requires RunTask(task, l, live, now).err.None?
    requires UniqueTypes(RunTask(task, l, live, now).conditions)
    requires TypeHasStatus(RunTask(task, l, live, now).conditions, l.condition.conditionType, Locked)
    ensures
      var r := Execute(l, live, now, task, None, second);
      && r.err == (if second.Some? then second else Some(Errors.LockNotReleased))
      && FindType(r.conditions, l.condition.conditionType).Some?
      && FindType(r.conditions, l.condition.conditionType).value.status == Error
      && FindType(r.conditions, l.condition.conditionType).value.reason == Errors.Message(Errors.LockNotReleased)
      && r.lock.condition == l.condition.(status := Error, reason := Errors.Message(Errors.LockNotReleased))
  {
    var out := RunTask(task, l, live, now);
    var snap2 := l.condition.(status := Error, reason := Errors.Message(Errors.LockNotReleased));
    UpsertThenFindType(out.conditions, snap2, now);
  }

  /** With two entries of the tracked type, a task that succeeds and leaves
      both Locked gets LockNotReleased, yet the second write still holds the
      first entry as Locked: only the last one is rewritten as Error. */
  lemma ExecuteWithDuplicateTypes()
    ensures
      var l := Lock(Condition("Bucket", Completed, 1, ""));
      var held := Condition("Bucket", Locked, 2, LockedReason);
      var task: Task := (c, s) => TaskOutcome([held, held], None);
      && TaskKeepsType(RunTask(task, l, [], 5), "Bucket")
      && var r := Execute(l, [], 5, task, None, None);
         && r.err == Some(Errors.LockNotReleased)
         && r.trace[2] == Persisted(r.conditions)
         && r.conditions[1].status == Error
         && FindType(r.conditions, "Bucket").value.status == Locked
  {
    var held := Condition("Bucket", Locked, 2, LockedReason);
    assert [held, held][0].conditionType == "Bucket";
    assert FirstOfType([held, held], 0, "Bucket");
    assert LastOfType([held, held], 1, "Bucket");
  }

  /** The Error entry written for a failing task takes the snapshot's
      timestamp when it has one, not the clock reading: the timestamp goes
      back to the one before the lock was taken. */
  lemma ExecuteErrorKeepsSnapshotTime(l: Lock, live: seq<Condition>, now: Time, task: Task, e: Errors.Error)
    requires now > ZeroTime
    requires RunTask(task, l, live, now).err == Some(e)
    requires UniqueTypes(RunTask(task, l, live, now).conditions)
    requires l.condition.lastTransitionTime != ZeroTime
    ensures
      var r := Execute(l, live, now, task, None, None);
      && FindType(r.conditions, l.condition.conditionType).Some?
      && FindType(r.conditions, l.condition.conditionType).value.lastTransitionTime == l.condition.lastTransitionTime
  {
    var out := RunTask(task, l, live, now);
    var snap1 := l.condition.(status := Error, reason := Errors.Message(e));
    UpsertThenFindType(out.conditions, snap1, now);
  }

}
