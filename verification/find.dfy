/** The read-only queries of find.go. Each is a first-match scan in insertion
    order over a value copy of the set; a found condition is a copy, so no
    query can change the set it is asked about. */
module Find {

  import opened Wrappers
  import opened Conditions

  /** A copy of the first condition of type t, or None. */
  function FindType(cs: seq<Condition>, t: ConditionType): (r: Option<Condition>)
    ensures r.None? <==> AbsentType(cs, t)
    ensures forall i {:trigger FirstOfType(cs, i, t)} :: FirstOfType(cs, i, t) ==> r == Some(cs[i])
  {
    if |cs| == 0 then None
    else if cs[0].conditionType == t then CopyCondition(Some(cs[0]))
    else
      var r := FindType(cs[1..], t);
      assert forall i :: FirstOfType(cs, i, t) ==> i > 0 && FirstOfType(cs[1..], i - 1, t);
      r
  }

  /** A copy of the first condition whose status is s, or None. */
  function FindStatus(cs: seq<Condition>, s: ConditionStatus): (r: Option<Condition>)
    ensures r.None? <==> forall i :: 0 <= i < |cs| ==> cs[i].status != s
    ensures forall i {:trigger FirstOfStatus(cs, i, s)} :: FirstOfStatus(cs, i, s) ==> r == Some(cs[i])
  {
    if |cs| == 0 then None
    else if cs[0].status == s then CopyCondition(Some(cs[0]))
    else
      var r := FindStatus(cs[1..], s);
      assert forall i :: FirstOfStatus(cs, i, s) ==> i > 0 && FirstOfStatus(cs[1..], i - 1, s);
      r
  }

  /** The default a never-seen type starts from: Initialized, no reason, zero time. */
  function Initial(t: ConditionType): Condition {
    Condition(t, Initialized, ZeroTime, "")
  }

  /** The copy of the stored condition of type t, or the unstored default. */
  function FindOrInitializeFor(cs: seq<Condition>, t: ConditionType): (r: Condition)
    ensures r.conditionType == t
    ensures forall i {:trigger FirstOfType(cs, i, t)} :: FirstOfType(cs, i, t) ==> r == cs[i]
    ensures AbsentType(cs, t) ==> r == Initial(t)
  {
    match FindType(cs, t)
    case Some(c) =>
      ExistsFirstOfType(cs, t);
      c
    case None => Initial(t)
  }

  /** Whether the first condition of type t has status s; false when t is absent. */
  function TypeHasStatus(cs: seq<Condition>, t: ConditionType, s: ConditionStatus): (r: bool)
    ensures r <==> FindType(cs, t).Some? && FindType(cs, t).value.status == s
    ensures forall i {:trigger FirstOfType(cs, i, t)} :: FirstOfType(cs, i, t) ==> (r <==> cs[i].status == s)
    ensures AbsentType(cs, t) ==> !r
  {
    if |cs| == 0 then false
    else if cs[0].conditionType == t then cs[0].status == s
    else
      var r := TypeHasStatus(cs[1..], t, s);
      assert forall i :: FirstOfType(cs, i, t) ==> i > 0 && FirstOfType(cs[1..], i - 1, t);
      r
  }

  /** Whether some condition has status s. */
  function AnyWithStatus(cs: seq<Condition>, s: ConditionStatus): (r: bool)
    ensures r <==> exists i :: 0 <= i < |cs| && cs[i].status == s
  {
    FindStatus(cs, s) != None
  }

  /** Whenever type t occurs, some index is the first one holding it. */
  lemma {:induction false} ExistsFirstOfType(cs: seq<Condition>, t: ConditionType)
    requires !AbsentType(cs, t)
    ensures exists i :: FirstOfType(cs, i, t)
  {
    if cs[0].conditionType == t {
      assert FirstOfType(cs, 0, t);
    } else {
      ExistsFirstOfType(cs[1..], t);
      var i :| FirstOfType(cs[1..], i, t);
      assert FirstOfType(cs, i + 1, t);
    }
  }

  /** With unique types, every condition of a set is what FindType returns for its type. */
  lemma FindTypeUnique(cs: seq<Condition>, i: int)
    requires UniqueTypes(cs)
    requires 0 <= i < |cs|
    ensures FindType(cs, cs[i].conditionType) == Some(cs[i])
  {
    assert FirstOfType(cs, i, cs[i].conditionType);
  }

  /** On an empty set nothing is found and the default is returned. */
  lemma EmptySetQueries(t: ConditionType, s: ConditionStatus)
    ensures FindType([], t) == None
    ensures FindStatus([], s) == None
    ensures !TypeHasStatus([], t, s)
    ensures !AnyWithStatus([], s)
    ensures FindOrInitializeFor([], t) == Initial(t)
  {
  }

  /** The scenario of find_test.go: of two Locked conditions the earlier wins,
      and a status nobody has is not found. */
  lemma FindStatusExample()
    ensures
      var cs := [Condition("locked condition", Locked, ZeroTime, ""),
                 Condition("initialized condition", Initialized, ZeroTime, ""),
                 Condition("locked condition #2", Locked, ZeroTime, ""),
                 Condition("completed condition", Completed, ZeroTime, "")];
      && FindStatus(cs, Locked) == Some(cs[0])
      && FindStatus(cs, Terminated) == None
      && FindStatus(cs, Initialized) == Some(cs[1])
  {
    var cs := [Condition("locked condition", Locked, ZeroTime, ""),
               Condition("initialized condition", Initialized, ZeroTime, ""),
               Condition("locked condition #2", Locked, ZeroTime, ""),
               Condition("completed condition", Completed, ZeroTime, "")];
    assert FirstOfStatus(cs, 0, Locked);
    assert FirstOfStatus(cs, 1, Initialized);
  }

}
