/** The condition record, its built-in statuses, the status membership test
    and the copy helpers of condition.go, together with the predicates the
    rest of the model uses to talk about positions in a condition set. */
module Conditions {

  import opened Wrappers

  /** A user-defined identifier; at most one condition per type is expected. */
  type ConditionType = string

  /** A status is a string: the seven below are built in, users may add more. */
  type ConditionStatus = string

  /** `meta.Time` as an integer; 0 is the zero time (`IsZero()`). */
  type Time = int

  const ZeroTime: Time := 0

  const Initialized: ConditionStatus := "Initialized"
  const Completed: ConditionStatus := "Completed"
  const Created: ConditionStatus := "Created"
  const Terminating: ConditionStatus := "Terminating"
  const Terminated: ConditionStatus := "Terminated"
  const Error: ConditionStatus := "Error"
  const Locked: ConditionStatus := "Locked"

  /** The built-in statuses, in the order condition.go declares them. */
  const BuiltInStatuses: seq<ConditionStatus> :=
    [Initialized, Completed, Created, Terminating, Terminated, Error, Locked]

  datatype Condition = Condition(
    conditionType: ConditionType,
    status: ConditionStatus,
    lastTransitionTime: Time,
    reason: string)

  /** The zero value of the Go struct, which `make(Conditions, n)` fills in. */
  const ZeroCondition: Condition := Condition("", "", ZeroTime, "")

  /** The seven built-in statuses are pairwise distinct values. */
  lemma BuiltInStatusesDistinct()
    ensures |BuiltInStatuses| == 7
    ensures forall i, j :: 0 <= i < j < |BuiltInStatuses| ==> BuiltInStatuses[i] != BuiltInStatuses[j]
  {
  }

  /** True when the condition's status is one of `statuses`, scanning them in order. */
  function StatusIsOneOf(c: Condition, statuses: seq<ConditionStatus>): (r: bool)
    ensures r <==> c.status in statuses
    ensures |statuses| == 0 ==> !r
  {
    if |statuses| == 0 then false
    else if c.status == statuses[0] then true
    else StatusIsOneOf(c, statuses[1..])
  }

  /** The cases of condition_test.go: a Completed condition. */
  lemma StatusIsOneOfExamples()
    ensures !StatusIsOneOf(Condition("example", Completed, ZeroTime, ""), [Locked])
    ensures !StatusIsOneOf(Condition("example", Completed, ZeroTime, ""), [Locked, Terminated])
    ensures StatusIsOneOf(Condition("example", Completed, ZeroTime, ""), [Locked, Completed])
    ensures StatusIsOneOf(Condition("example", Completed, ZeroTime, ""), [Completed])
    ensures StatusIsOneOf(Condition("example", Completed, ZeroTime, ""), [Terminated, Terminating, Completed])
  {
  }

  /** `(*Condition).DeepCopy`: nil stays nil, otherwise a new value equal to
      the source. Datatype values are immutable, so the copy is the value. */
  function CopyCondition(c: Option<Condition>): (r: Option<Condition>)
    ensures r.None? <==> c.None?
    ensures c.Some? ==> r.value == c.value
  {
    match c
    case None => None
    case Some(v) => Some(Condition(v.conditionType, v.status, v.lastTransitionTime, v.reason))
  }

  /** The scenario of condition_test.go: editing a copy's Status and Reason
      gives a condition that differs from the original in both, while the
      original keeps its own. */
  lemma EditedCopyIsIndependent(c: Condition, status: ConditionStatus, reason: string)
    requires status != c.status && reason != c.reason
    ensures CopyCondition(Some(c)).Some?
    ensures CopyCondition(Some(c)).value.(status := status, reason := reason).status != c.status
    ensures CopyCondition(Some(c)).value.(status := status, reason := reason).reason != c.reason
    ensures CopyCondition(Some(c)).value == c
  {
  }

  /** `(*Conditions).DeepCopyInto`: index i of `dst` is overwritten with a copy
      of `src[i]` for every index of `src`. Go panics when `dst` is shorter than
      `src`, so that is demanded of the caller; the tail of `dst` is untouched. */
  function DeepCopyInto(src: seq<Condition>, dst: seq<Condition>): (r: seq<Condition>)
    requires |src| <= |dst|
    ensures |r| == |dst|
    ensures forall i :: 0 <= i < |src| ==> r[i] == src[i]
    ensures forall i :: |src| <= i < |dst| ==> r[i] == dst[i]
  {
    seq(|dst|, i requires 0 <= i < |dst| =>
      if i < |src| then CopyCondition(Some(src[i])).value else dst[i])
  }

  /** `(*Conditions).DeepCopy`: nil gives nil; otherwise a fresh slice of the
      same length, filled element by element from the source. */
  function DeepCopy(src: Option<seq<Condition>>): (r: Option<seq<Condition>>)
    ensures r.None? <==> src.None?
    ensures src.Some? ==> |r.value| == |src.value|
    ensures src.Some? ==> forall i :: 0 <= i < |src.value| ==> r.value[i] == src.value[i]
  {
    match src
    case None => None
    case Some(cs) => Some(DeepCopyInto(cs, seq(|cs|, _ => ZeroCondition)))
  }

  /** The scenario of condition_test.go: appending to a deep copy grows the
      copy only; the source keeps its length. */
  lemma AppendToDeepCopy(cs: seq<Condition>, extra: Condition)
    ensures DeepCopy(Some(cs)).Some?
    ensures |DeepCopy(Some(cs)).value + [extra]| == |cs| + 1
    ensures DeepCopy(Some(cs)).value == cs
  {
  }

  // Positions in a condition set.

  /** Index i holds the first condition of type t. */
  ghost predicate FirstOfType(cs: seq<Condition>, i: int, t: ConditionType) {
    && 0 <= i < |cs|
    && cs[i].conditionType == t
    && forall j :: 0 <= j < i ==> cs[j].conditionType != t
  }

  /** Index i holds the last condition of type t. */
  ghost predicate LastOfType(cs: seq<Condition>, i: int, t: ConditionType) {
    && 0 <= i < |cs|
    && cs[i].conditionType == t
    && forall j :: i < j < |cs| ==> cs[j].conditionType != t
  }

  /** Index i holds the first condition with status s. */
  ghost predicate FirstOfStatus(cs: seq<Condition>, i: int, s: ConditionStatus) {
    && 0 <= i < |cs|
    && cs[i].status == s
    && forall j :: 0 <= j < i ==> cs[j].status != s
  }

  /** No condition of type t in the set. */
  ghost predicate AbsentType(cs: seq<Condition>, t: ConditionType) {
    forall i :: 0 <= i < |cs| ==> cs[i].conditionType != t
  }

  /** The set invariant the library relies on: at most one condition per type. */
  ghost predicate UniqueTypes(cs: seq<Condition>) {
    forall i, j :: 0 <= i < j < |cs| ==> cs[i].conditionType != cs[j].conditionType
  }

}
