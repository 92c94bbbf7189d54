/** The two mutations of mutations.go. A Go `*Conditions` receiver that may
    be nil is an `Option<seq<Condition>>`; the mutation returns the new value
    of `*c` together with what the Go method returns. The clock reading
    `time.Now()` is the parameter `now`. */
module Mutations {

  import opened Wrappers
  import opened Conditions
  import opened Find
  import Errors

  // SetCondition

  /** What `SetCondition` leaves behind: the new `*c` and the returned error. */
  datatype SetResult = SetResult(conditions: Option<seq<Condition>>, err: Option<Errors.Error>)

  /** What gets stored for the argument c: type, status and reason from c,
      and c's timestamp unless it is zero, in which case the clock reading. */
  function Stamp(c: Condition, now: Time): (r: Condition)
    requires now > ZeroTime
    ensures r.conditionType == c.conditionType && r.status == c.status && r.reason == c.reason
    ensures c.lastTransitionTime != ZeroTime ==> r.lastTransitionTime == c.lastTransitionTime
    ensures c.lastTransitionTime == ZeroTime ==> r.lastTransitionTime == now
    ensures r.lastTransitionTime != ZeroTime
  {
    if c.lastTransitionTime == ZeroTime then c.(lastTransitionTime := now) else c
  }

  /** The index the scan of `SetCondition` settles on: it walks the whole set
      and keeps overwriting the index on every match, so the last match wins. */
  function LastIndexOfType(cs: seq<Condition>, t: ConditionType): (r: Option<nat>)
    ensures r.None? <==> AbsentType(cs, t)
    ensures r.Some? ==> LastOfType(cs, r.value, t)
    ensures forall k {:trigger LastOfType(cs, k, t)} :: LastOfType(cs, k, t) ==> r == Some(k)
  {
    if |cs| == 0 then None
    else if cs[|cs| - 1].conditionType == t then Some(|cs| - 1)
    else
      var r := LastIndexOfType(cs[..|cs| - 1], t);
      assert forall k :: LastOfType(cs, k, t) ==> k < |cs| - 1 && LastOfType(cs[..|cs| - 1], k, t);
      r
  }

  /** `SetCondition` on an initialized set: append when the type is new,
      otherwise replace the whole entry at the last index holding the type. */
  function Upsert(cs: seq<Condition>, c: Condition, now: Time): (r: seq<Condition>)
    requires now > ZeroTime
    ensures AbsentType(cs, c.conditionType) ==>
      && |r| == |cs| + 1
      && r[..|cs|] == cs
      && r[|cs|] == Stamp(c, now)
    ensures forall k {:trigger LastOfType(cs, k, c.conditionType)} :: LastOfType(cs, k, c.conditionType) ==>
      && |r| == |cs|
      && r[k] == Stamp(c, now)
      && forall j :: 0 <= j < |cs| && j != k ==> r[j] == cs[j]
  {
    var stamped := Stamp(c, now);
    match LastIndexOfType(cs, c.conditionType)
    case None => cs + [stamped]
    case Some(k) => cs[k := stamped]
  }

  /** `(*Conditions).SetCondition`: a nil receiver is reported and left nil;
      otherwise the set is upserted and no error is returned. */
  function SetCondition(c: Option<seq<Condition>>, newCondition: Condition, now: Time): (r: SetResult)
    requires now > ZeroTime
    ensures c.None? ==> r.conditions.None? && r.err == Some(Errors.NotInitializedConditions)
    ensures c.Some? ==> r.err.None? && r.conditions == Some(Upsert(c.value, newCondition, now))
  {
    match c
    case None => SetResult(None, Some(Errors.NotInitializedConditions))
    case Some(cs) => SetResult(Some(Upsert(cs, newCondition, now)), None)
  }

  /** Whichever branch `Upsert` takes, the upserted type is present afterwards,
      at an index holding the stored condition. */
  lemma UpsertStores(cs: seq<Condition>, c: Condition, now: Time)
    requires now > ZeroTime
    ensures exists k :: 0 <= k < |Upsert(cs, c, now)| && Upsert(cs, c, now)[k] == Stamp(c, now)
    ensures !AbsentType(Upsert(cs, c, now), c.conditionType)
  {
    var r := Upsert(cs, c, now);
    var li := LastIndexOfType(cs, c.conditionType);
    if li.None? {
      assert r[|cs|] == Stamp(c, now);
    } else {
      assert r[li.value] == Stamp(c, now);
    }
  }

  /** An upsert never introduces a second condition of the same type. */
  lemma UpsertPreservesUniqueTypes(cs: seq<Condition>, c: Condition, now: Time)
    requires now > ZeroTime
    requires UniqueTypes(cs)
    ensures UniqueTypes(Upsert(cs, c, now))
  {
    var r := Upsert(cs, c, now);
    var li := LastIndexOfType(cs, c.conditionType);
    if li.None? {
      forall i, j | 0 <= i < j < |r|
        ensures r[i].conditionType != r[j].conditionType
      {
        if j == |cs| {
          assert r[i] == cs[i];
        } else {
          assert r[i] == cs[i] && r[j] == cs[j];
        }
      }
    } else {
      var k := li.value;
      forall i | 0 <= i < |r|
        ensures r[i].conditionType == cs[i].conditionType
      {
        if i != k {
          assert r[i] == cs[i];
        }
      }
    }
  }

  /** Round trip: with unique types, finding the upserted type gives back the
      stored condition, whose timestamp is never zero. */
  lemma UpsertThenFindType(cs: seq<Condition>, c: Condition, now: Time)
    requires now > ZeroTime
    requires UniqueTypes(cs)
    ensures FindType(Upsert(cs, c, now), c.conditionType) == Some(Stamp(c, now))
    ensures FindType(Upsert(cs, c, now), c.conditionType).value.lastTransitionTime != ZeroTime
  {
    var r := Upsert(cs, c, now);
    UpsertPreservesUniqueTypes(cs, c, now);
    UpsertStores(cs, c, now);
    var k :| 0 <= k < |r| && r[k] == Stamp(c, now);
    FindTypeUnique(r, k);
  }

  /** Two sets whose entries of type u sit at the same indices, with the same
      values, answer FindType(u) alike. */
  lemma {:induction false} FindTypeAgrees(a: seq<Condition>, b: seq<Condition>, u: ConditionType)
    requires |a| == |b|
    requires forall i :: 0 <= i < |a| ==> (a[i].conditionType == u <==> b[i].conditionType == u)
    requires forall i :: 0 <= i < |a| && a[i].conditionType == u ==> a[i] == b[i]
    ensures FindType(a, u) == FindType(b, u)
  {
    if |a| > 0 && a[0].conditionType != u {
      FindTypeAgrees(a[1..], b[1..], u);
    }
  }

  /** An upsert leaves what FindType returns for every other type unchanged. */
  lemma UpsertKeepsOtherTypes(cs: seq<Condition>, c: Condition, now: Time, u: ConditionType)
    requires now > ZeroTime
    requires u != c.conditionType
    ensures FindType(Upsert(cs, c, now), u) == FindType(cs, u)
  {
    var r := Upsert(cs, c, now);
    var li := LastIndexOfType(cs, c.conditionType);
    if li.None? {
      if AbsentType(cs, u) {
        assert AbsentType(r, u) by {
          forall i | 0 <= i < |r| ensures r[i].conditionType != u {
            if i < |cs| { assert r[i] == cs[i]; }
          }
        }
      } else {
        ExistsFirstOfType(cs, u);
        var i :| FirstOfType(cs, i, u);
        assert r[..|cs|] == cs;
        assert FirstOfType(r, i, u);
      }
    } else {
      FindTypeAgrees(cs, r, u);
    }
  }

  /** Storing a condition with `SetCondition` makes its type present, keeps
      types unique, is what FindType then returns under unique types, and
      leaves every other type's lookup alone. It grows the set only when the
      type is new, and every entry of another type stays at its index. */
  lemma UpsertEffects(cs: seq<Condition>, c: Condition, now: Time)
    requires now > ZeroTime
    ensures |Upsert(cs, c, now)| == |cs| + if AbsentType(cs, c.conditionType) then 1 else 0
    ensures forall i :: 0 <= i < |cs| && cs[i].conditionType != c.conditionType ==> Upsert(cs, c, now)[i] == cs[i]
    ensures !AbsentType(Upsert(cs, c, now), c.conditionType)
    ensures UniqueTypes(cs) ==> UniqueTypes(Upsert(cs, c, now))
    ensures UniqueTypes(cs) ==> FindType(Upsert(cs, c, now), c.conditionType) == Some(Stamp(c, now))
    ensures forall u :: u != c.conditionType ==> FindType(Upsert(cs, c, now), u) == FindType(cs, u)
  {
    UpsertStores(cs, c, now);
    var li := LastIndexOfType(cs, c.conditionType);
    if li.None? {
      assert Upsert(cs, c, now)[..|cs|] == cs;
      assert forall i :: 0 <= i < |cs| ==> Upsert(cs, c, now)[i] == Upsert(cs, c, now)[..|cs|][i];
    }
    if UniqueTypes(cs) {
      UpsertPreservesUniqueTypes(cs, c, now);
      UpsertThenFindType(cs, c, now);
    }
    forall u | u != c.conditionType ensures FindType(Upsert(cs, c, now), u) == FindType(cs, u) {
      UpsertKeepsOtherTypes(cs, c, now, u);
    }
  }

  /** Setting the same condition twice at the same clock reading is the same as
      setting it once: the second call finds the first one's entry as the last
      match and replaces it with an equal value. */
  lemma UpsertIdempotent(cs: seq<Condition>, c: Condition, now: Time)
    requires now > ZeroTime
    ensures Upsert(Upsert(cs, c, now), c, now) == Upsert(cs, c, now)
  {
    var r := Upsert(cs, c, now);
    var li := LastIndexOfType(cs, c.conditionType);
    var k := if li.None? then |cs| else li.value;
    assert LastOfType(r, k, c.conditionType) by {
      if li.None? {
        assert r[k] == Stamp(c, now);
      } else {
        forall j | k < j < |r| ensures r[j].conditionType != c.conditionType {
          assert r[j] == cs[j];
        }
      }
    }
    var r2 := Upsert(r, c, now);
    assert r2[k] == r[k];
    assert forall j :: 0 <= j < |r| ==> r2[j] == r[j];
  }

  /** The upsert replaces the whole entry: setting a condition with a zero
      timestamp again, at a later clock reading, moves the stored timestamp to
      that reading even when status and reason are unchanged. */
  lemma UpsertRestampsZeroTime(cs: seq<Condition>, c: Condition, now1: Time, now2: Time)
    requires ZeroTime < now1 < now2
    requires UniqueTypes(cs)
    requires c.lastTransitionTime == ZeroTime
    ensures FindType(Upsert(cs, c, now1), c.conditionType).value.lastTransitionTime == now1
    ensures FindType(Upsert(Upsert(cs, c, now1), c, now2), c.conditionType).value.lastTransitionTime == now2
  {
    UpsertThenFindType(cs, c, now1);
    UpsertPreservesUniqueTypes(cs, c, now1);
    UpsertThenFindType(Upsert(cs, c, now1), c, now2);
  }

  /** Uniqueness is what makes the round trip work: with two entries of one
      type, the upsert replaces the second while FindType keeps returning the
      first, still Locked. */
  lemma UpsertWithDuplicateTypes()
    ensures
      var cs := [Condition("Bucket", Locked, 1, ""), Condition("Bucket", Completed, 1, "")];
      && !UniqueTypes(cs)
      && FindType(Upsert(cs, Condition("Bucket", Error, ZeroTime, "failed"), 5), "Bucket").value.status == Locked
  {
    var cs := [Condition("Bucket", Locked, 1, ""), Condition("Bucket", Completed, 1, "")];
    var c := Condition("Bucket", Error, ZeroTime, "failed");
    assert LastOfType(cs, 1, "Bucket");
    var r := Upsert(cs, c, 5);
    assert r[0] == cs[0];
    assert FirstOfType(r, 0, "Bucket");
  }

  /** The SetCondition round trip of mutations_test.go and find_test.go on a
      non-nil set with unique types: no error, and the type is found with the
      argument's type, status and reason and a non-zero timestamp. */
  lemma SetConditionThenFindType(cs: seq<Condition>, c: Condition, now: Time)
    requires now > ZeroTime
    requires UniqueTypes(cs)
    ensures SetCondition(Some(cs), c, now).err.None?
    ensures SetCondition(Some(cs), c, now).conditions.Some?
    ensures
      var found := FindType(SetCondition(Some(cs), c, now).conditions.value, c.conditionType);
      && found.Some?
      && found.value.conditionType == c.conditionType
      && found.value.status == c.status
      && found.value.reason == c.reason
      && found.value.lastTransitionTime != ZeroTime
  {
    UpsertThenFindType(cs, c, now);
  }

  // RemoveConditionWith

  /** What `RemoveConditionWith` leaves behind: the new `*c` and the flag. */
  datatype Removal = Removal(conditions: Option<seq<Condition>>, removed: bool)

  /** Number of entries of type t. */
  function CountOfType(cs: seq<Condition>, t: ConditionType): (n: nat)
    ensures n <= |cs|
    ensures n == 0 <==> AbsentType(cs, t)
  {
    if |cs| == 0 then 0
    else (if cs[0].conditionType == t then 1 else 0) + CountOfType(cs[1..], t)
  }

  /** The filter loop of `RemoveConditionWith`: keeps, in order, every entry
      whose type is not t. */
  function WithoutType(cs: seq<Condition>, t: ConditionType): (r: seq<Condition>)
    ensures |r| == |cs| - CountOfType(cs, t)
    ensures forall x :: x in r <==> x in cs && x.conditionType != t
    ensures AbsentType(r, t)
  {
    if |cs| == 0 then []
    else
      var rest := WithoutType(cs[1..], t);
      assert forall x :: x in cs <==> x == cs[0] || x in cs[1..];
      if cs[0].conditionType != t then [cs[0]] + rest else rest
  }

  /** The filter keeps every other entry as often as the source has it and
      drops every entry of type t. */
  lemma {:induction false} WithoutTypeMultiplicity(cs: seq<Condition>, t: ConditionType)
    ensures forall x :: multiset(WithoutType(cs, t))[x] == if x.conditionType == t then 0 else multiset(cs)[x]
  {
    if |cs| > 0 {
      WithoutTypeMultiplicity(cs[1..], t);
      assert cs == [cs[0]] + cs[1..];
      assert multiset(cs) == multiset{cs[0]} + multiset(cs[1..]);
      var rest := WithoutType(cs[1..], t);
      if cs[0].conditionType != t {
        assert multiset(WithoutType(cs, t)) == multiset{cs[0]} + multiset(rest);
      }
    }
  }

  /** `(*Conditions).RemoveConditionWith`: nil or empty sets are left alone
      and report false; otherwise the filtered set replaces `*c`, and the flag
      says whether the length changed. */
  function RemoveConditionWith(c: Option<seq<Condition>>, t: ConditionType): (r: Removal)
    ensures (c.None? || c.value == []) ==> r == Removal(c, false)
    ensures c.Some? ==> r.conditions == Some(WithoutType(c.value, t))
    ensures c.Some? ==> AbsentType(r.conditions.value, t)
    ensures c.Some? ==> forall x :: x in r.conditions.value <==> x in c.value && x.conditionType != t
    ensures c.Some? ==> forall x ::
              multiset(r.conditions.value)[x] == if x.conditionType == t then 0 else multiset(c.value)[x]
    ensures r.removed <==> c.Some? && !AbsentType(c.value, t)
    ensures c.Some? ==> (r.removed <==> |r.conditions.value| != |c.value|)
  {
    if c.None? || |c.value| == 0 then Removal(c, false)
    else
      var kept := WithoutType(c.value, t);
      WithoutTypeMultiplicity(c.value, t);
      Removal(Some(kept), |c.value| != |kept|)
  }

  /** The filter keeps relative order: filtering a concatenation is the
      concatenation of the filtered parts. */
  lemma {:induction false} WithoutTypeConcat(a: seq<Condition>, b: seq<Condition>, t: ConditionType)
    ensures WithoutType(a + b, t) == WithoutType(a, t) + WithoutType(b, t)
  {
    if |a| == 0 {
      assert a + b == b;
    } else {
      assert (a + b)[0] == a[0];
      assert (a + b)[1..] == a[1..] + b;
      WithoutTypeConcat(a[1..], b, t);
      assert WithoutType(a + b, t) == (if a[0].conditionType != t then [a[0]] else []) + WithoutType(a[1..] + b, t);
    }
  }

  /** Filtering out a type nobody has changes nothing. */
  lemma {:induction false} WithoutAbsentType(cs: seq<Condition>, t: ConditionType)
    requires AbsentType(cs, t)
    ensures WithoutType(cs, t) == cs
  {
    if |cs| > 0 {
      WithoutAbsentType(cs[1..], t);
      assert [cs[0]] + cs[1..] == cs;
    }
  }

  /** Removing type t does not change what FindType returns for another type. */
  lemma {:induction false} WithoutTypeKeepsOthers(cs: seq<Condition>, t: ConditionType, u: ConditionType)
    requires u != t
    ensures FindType(WithoutType(cs, t), u) == FindType(cs, u)
  {
    if |cs| > 0 {
      WithoutTypeKeepsOthers(cs[1..], t, u);
      var rest := WithoutType(cs[1..], t);
      if cs[0].conditionType != t {
        assert ([cs[0]] + rest)[1..] == rest;
      }
    }
  }

  /** With unique types, at most one entry has any given type. */
  lemma {:induction false} UniqueCountAtMostOne(cs: seq<Condition>, t: ConditionType)
    requires UniqueTypes(cs)
    ensures CountOfType(cs, t) <= 1
  {
    if |cs| > 0 {
      assert UniqueTypes(cs[1..]) by {
        forall i, j | 0 <= i < j < |cs| - 1
          ensures cs[1..][i].conditionType != cs[1..][j].conditionType
        {
          assert cs[1..][i] == cs[i + 1] && cs[1..][j] == cs[j + 1];
        }
      }
      UniqueCountAtMostOne(cs[1..], t);
      if cs[0].conditionType == t {
        assert AbsentType(cs[1..], t) by {
          forall i | 0 <= i < |cs| - 1 ensures cs[1..][i].conditionType != t {
            assert cs[1..][i] == cs[i + 1];
          }
        }
      }
    }
  }

  /** Removal then lookup, as mutations_test.go exercises it: the removed type
      is gone, every other type is still found as before, and with unique
      types a present type costs exactly one entry. */
  lemma RemoveThenFind(cs: seq<Condition>, t: ConditionType)
    ensures
      var r := RemoveConditionWith(Some(cs), t);
      && FindType(r.conditions.value, t) == None
      && (forall u :: u != t ==> FindType(r.conditions.value, u) == FindType(cs, u))
      && (UniqueTypes(cs) && r.removed ==> |r.conditions.value| == |cs| - 1)
      && (!r.removed ==> r.conditions.value == cs)
  {
    var r := RemoveConditionWith(Some(cs), t);
    forall u | u != t ensures FindType(r.conditions.value, u) == FindType(cs, u) {
      WithoutTypeKeepsOthers(cs, t, u);
    }
    if UniqueTypes(cs) {
      UniqueCountAtMostOne(cs, t);
    }
    if !r.removed {
      WithoutAbsentType(cs, t);
    }
  }

}
