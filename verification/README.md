# konditions in Dafny

A model of the condition-set library `pkg/konditions` of konditionner. It covers
the `Condition` record and its built-in statuses, and the ordered `Conditions` set with its
upsert, removal and first-match queries. It also covers the advisory `Lock`, which
claims a condition by writing it as Locked, runs a task, and forces a final status
before writing the set back to the store.

The model is functional:

- A `Condition` is an immutable datatype.
- A set is a `seq<Condition>` kept in insertion order.
- A nil `*Conditions` is `Option<seq<Condition>>`.
- `meta.Time` is an `int`, where 0 is the zero time.
- `time.Now()` is a positive parameter `now`.
- A mutation returns the new value of the receiver together with what the Go method
  returns.

Go's queries have value receivers and return copies. In the model they are pure
functions, so no query can change the set.

`Execute` is a pure step function over the lock's snapshot and the live set:

- The two `Status().Update` calls become their outcomes `first` and `second`, each
  `None` for success or `Some(error)`.
- The task becomes an oracle `(snapshot, live set) -> (live set, error)`.
- `Execute` returns a trace of the writes it made and of the task call. Properties
  such as "no task after a failed first write" and "exactly two writes" are stated
  over that trace.

Modules, following the source files:

| module | file | contents |
|---|---|---|
| `Wrappers` | wrappers.dfy | `Option` |
| `Errors` | errors.dfy | the sentinel errors `NotInitializedConditionsErr` and `LockNotReleasedErr`, and opaque errors |
| `Conditions` | condition.dfy | the record, the statuses, `StatusIsOneOf`, the copy helpers, and the position predicates (first/last of a type, unique types) |
| `Find` | find.dfy | the queries of find.go |
| `Mutations` | mutations.dfy | `SetCondition` (as `Upsert` on a non-nil set) and `RemoveConditionWith` |
| `AdvisoryLock` | lock.dfy | `NewLock`, `Execute`, `Lock.Condition` |

## Where the model follows the code over the documented design

- **Upsert.** The doc comment of `SetCondition` (mutations.go:14) says the return
  value tells whether the condition was changed. The field comment of
  `LastTransitionTime` (condition.go:114-115) says the timestamp is the last time the
  status moved from one value to another. The code does something else. It returns
  an `error` that is non-nil only for a nil receiver. It replaces the last entry of
  the type wholesale, whatever its status was, and stamps a zero timestamp with the
  clock. A caller's non-zero timestamp is kept even when the status does not change.
  The model follows the code.
  - Setting the same zero-timestamp condition twice at two clock readings moves
    the timestamp to the second reading (`Mutations.UpsertRestampsZeroTime`).
  - `mutations_test.go:13-20` and `mutations_test.go:30-37` still treat the
    result as a boolean. They do not match the function as written.
- **First write fails.** The Locked condition stays in the in-memory set. `Execute`
  returns without undoing it. The store never saw it, because the write failed.
- **Error precedence.** `LockNotReleasedErr` replaces the task's error only when
  the first condition of the type is still Locked after the task's failure was
  recorded. With unique types that never happens, because the failure has just
  been stored as Error.
- **Failing task's timestamp.** The Error entry for a failing task is written from
  the snapshot. It therefore keeps the snapshot's timestamp when that timestamp is
  non-zero, and does not use the clock reading. The stored timestamp goes back
  from the Locked entry's to the pre-lock one (`AdvisoryLock.ExecuteErrorKeepsSnapshotTime`).
- **Duplicate types.** `SetCondition` replaces the last entry of a type, while
  `FindType` returns the first. The round trip therefore needs unique types.
  `Mutations.UpsertWithDuplicateTypes` exhibits a set where it fails.
  - The doc comment of `Execute` (lock.go:204-207) promises that a condition still
    Locked after the task is set to Error. With two entries of the tracked type,
    both Locked, `Execute` does return `LockNotReleasedErr`. But only the last entry
    is rewritten as Error, so the second write still holds the first one as Locked,
    and that is what `FindType` reports (`AdvisoryLock.ExecuteWithDuplicateTypes`).
- **Lock snapshot.** The doc comment of `Lock.Condition` (lock.go:254-255) says it
  returns the condition as it was when the lock was created. `Execute` rewrites the
  snapshot as Error on a task failure (lock.go:222-223) and on an unreleased lock
  (lock.go:228-229). After such an `Execute`, `Lock.Condition` returns the Error
  condition (`AdvisoryLock.ExecuteTaskFailure`, `AdvisoryLock.ExecuteLockNotReleased`).
  The creation-time snapshot is guaranteed only until `Execute` runs
  (`AdvisoryLock.NewLockSnapshot`).

## Model

| member | source | states |
|---|---|---|
| Conditions.BuiltInStatusesDistinct | pkg/konditions/condition.go:53-91 | the seven built-in statuses are seven pairwise distinct values |
| Conditions.StatusIsOneOf | pkg/konditions/condition.go:138-146 | true iff the condition's status occurs in the list; false for an empty list |
| Conditions.StatusIsOneOfExamples | pkg/konditions/condition_test.go:7-32 | Completed is not in [Locked] or [Locked, Terminated]; it is in [Locked, Completed], [Completed] and [Terminated, Terminating, Completed] |
| Conditions.CopyCondition | pkg/konditions/condition.go:176-183 | nil copies to nil; otherwise the copy equals the source |
| Conditions.EditedCopyIsIndependent | pkg/konditions/condition_test.go:51-69 | a copy with its status and reason edited differs from the original in both, and the unedited copy equals the original |
| Conditions.DeepCopyInto | pkg/konditions/condition.go:154-158 | demands a destination at least as long as the source; every source index is copied; the destination's tail is untouched; the length is the destination's |
| Conditions.DeepCopy | pkg/konditions/condition.go:161-168 | nil copies to nil; otherwise a set of the same length that is element-wise equal to the source |
| Conditions.AppendToDeepCopy | pkg/konditions/condition_test.go:34-49 | appending to a deep copy gives length n+1 while the source keeps length n |
| Find.FindType | pkg/konditions/find.go:59-67 | None iff no entry has the type; otherwise the entry at the first index holding the type |
| Find.FindStatus | pkg/konditions/find.go:41-49 | None iff no entry has the status; otherwise the entry at the first index holding the status |
| Find.FindOrInitializeFor | pkg/konditions/find.go:14-24 | has the requested type; is the first stored entry of that type if one exists, else {type, Initialized, zero time, empty reason} |
| Find.TypeHasStatus | pkg/konditions/find.go:78-85 | true iff FindType finds the type with that status, i.e. the first entry of the type has the status; false when the type is absent |
| Find.AnyWithStatus | pkg/konditions/find.go:95-99 | true iff some entry has the status |
| Find.ExistsFirstOfType | pkg/konditions/find.go:59-67 | whenever a type occurs, some index is the first one holding it |
| Find.FindTypeUnique | pkg/konditions/find.go:59-67 | with unique types, FindType of any entry's type returns that entry |
| Find.EmptySetQueries | pkg/konditions/find_test.go:7-33 | on an empty set FindType and FindStatus find nothing, TypeHasStatus and AnyWithStatus are false (the empty-set checks at lines 104 and 145 of the same test file), and FindOrInitializeFor gives the Initialized default |
| Find.FindStatusExample | pkg/konditions/find_test.go:35-66 | of two Locked entries the earlier is found; an absent status gives None; Initialized finds its entry |
| Mutations.Stamp | pkg/konditions/mutations.go:34-36 | the argument with its timestamp kept if non-zero and set to now otherwise; never zero afterwards |
| Mutations.LastIndexOfType | pkg/konditions/mutations.go:38-46 | None iff the type is absent; otherwise the last index holding the type |
| Mutations.Upsert | pkg/konditions/mutations.go:34-54 | absent type: old set plus the stamped argument appended; present type: same length, the last index of the type holds the stamped argument, every other index unchanged |
| Mutations.SetCondition | pkg/konditions/mutations.go:29-55 | nil receiver: NotInitializedConditionsErr and still nil; otherwise no error and the upserted set |
| Mutations.UpsertStores | pkg/konditions/mutations.go:48-54 | after an upsert the type is present, at an index holding the stored condition |
| Mutations.UpsertPreservesUniqueTypes | pkg/konditions/mutations.go:38-54 | unique types before the upsert imply unique types after it |
| Mutations.UpsertThenFindType | pkg/konditions/mutations.go:29-55 | with unique types, FindType after an upsert returns the argument's type, status and reason with a non-zero timestamp (the argument's, or now) |
| Mutations.FindTypeAgrees | pkg/konditions/find.go:59-67 | sets holding the same entries of a type at the same indices answer FindType for it alike |
| Mutations.UpsertEffects | pkg/konditions/mutations.go:29-55 | after an upsert the type is present; unique types stay unique and FindType then returns the stamped argument; every other type's lookup is unchanged; the set grows by one exactly when the type was absent, and every entry of another type keeps its index |
| Mutations.UpsertKeepsOtherTypes | pkg/konditions/mutations.go:38-54 | an upsert does not change what FindType returns for any other type |
| Mutations.UpsertIdempotent | pkg/konditions/mutations.go:38-54 | upserting the same condition twice at the same clock reading equals upserting it once |
| Mutations.UpsertRestampsZeroTime | pkg/konditions/mutations.go:34-36 | re-setting a zero-timestamp condition at a later reading moves the stored timestamp to that reading |
| Mutations.UpsertWithDuplicateTypes | pkg/konditions/mutations.go:38-53 | with two entries of one type, upserting Error leaves FindType returning the first, still Locked |
| Mutations.SetConditionThenFindType | pkg/konditions/mutations_test.go:23-55 | on a non-nil set with unique types: no error, and FindType returns the argument's type, status and reason with a non-zero timestamp |
| Mutations.CountOfType | pkg/konditions/mutations.go:72-79 | at most the set's length; zero iff the type is absent |
| Mutations.WithoutType | pkg/konditions/mutations.go:72-78 | keeps exactly the entries whose type differs, drops one entry per occurrence of the type, and leaves the type absent |
| Mutations.WithoutTypeMultiplicity | pkg/konditions/mutations.go:72-78 | every entry of another type is kept exactly as many times as the source holds it; every entry of the type is dropped |
| Mutations.RemoveConditionWith | pkg/konditions/mutations.go:68-83 | nil or empty: unchanged and false; otherwise the set becomes the order-preserving filter WithoutType of the source: the type is absent, and every other entry is kept with its multiplicity. The flag is true iff the type was present, i.e. iff the length changed |
| Mutations.WithoutTypeConcat | pkg/konditions/mutations.go:72-78 | filtering preserves relative order: the filter of a concatenation is the concatenation of the filters |
| Mutations.WithoutAbsentType | pkg/konditions/mutations.go:72-82 | removing a type nobody has leaves the set as it was |
| Mutations.WithoutTypeKeepsOthers | pkg/konditions/mutations.go:72-78 | removing a type does not change what FindType returns for any other type |
| Mutations.UniqueCountAtMostOne | pkg/konditions/mutations.go:79 | with unique types at most one entry has any given type |
| Mutations.RemoveThenFind | pkg/konditions/mutations_test.go:57-103 | after removal the type is not found, other types are found as before, a present unique type costs exactly one entry, and a false flag means no change |
| AdvisoryLock.NewLock | pkg/konditions/lock.go:166-174 | the snapshot has the requested type; it is the first stored entry of that type, or the Initialized default when absent |
| AdvisoryLock.LockCondition | pkg/konditions/lock.go:256-258 | returns the snapshot the lock holds |
| AdvisoryLock.NewLockSnapshot | pkg/konditions/lock.go:256-258 | right after NewLock, Lock.Condition returns FindOrInitializeFor of the set at construction, i.e. FindType's copy when present |
| AdvisoryLock.Resolve | pkg/konditions/lock.go:221-232 | no pending error iff the task succeeded and did not leave the type Locked, in which case set and snapshot are untouched. A failing task always leaves an error pending and the snapshot as Error; with unique types that error is the task's, the snapshot's reason is its text, and FindType returns the stored snapshot. A successful task that left the type Locked yields LockNotReleasedErr, with the snapshot set to Error and that error's text, and with unique types stored as FindType's answer. The writes happen in place: the set grows by one only when the type was missing, and every entry of another type keeps its index. Unique types stay unique, and no other type's lookup changes |
| AdvisoryLock.Execute | pkg/konditions/lock.go:208-239 | Locked is upserted before the first write; a failed first write returns its error with one write and no task; otherwise exactly two writes around one task call given the pre-lock snapshot; a failed second write's error wins; otherwise success iff the task succeeded and released the lock |
| AdvisoryLock.ExecuteLocksFirst | pkg/konditions/lock.go:209-215 | with unique types the first write holds the type as {Locked, "Resource locked", now} and every other type as before |
| AdvisoryLock.NewLockTaskSeesPreLockCondition | pkg/konditions/lock.go:219 | the task receives FindOrInitializeFor at construction; when the type was not Locked, the task sees a non-Locked status while the first write holds Locked |
| AdvisoryLock.ExecuteReleasesLock | pkg/konditions/lock.go:221-234 | if the task keeps types unique, the second write never holds the tracked type as Locked |
| AdvisoryLock.ExecuteTaskFailure | pkg/konditions/lock.go:221-225 | when both writes succeed, a failing task's error is returned, the type is stored as Error with the error text, and the lock's snapshot is rewritten the same way |
| AdvisoryLock.ExecuteLockNotReleased | pkg/konditions/lock.go:227-238 | a successful task that left the type Locked gets it stored as Error with the LockNotReleasedErr text; LockNotReleasedErr is returned unless the second write failed |
| Errors.Message | pkg/konditions/mutations.go:11 | NotInitializedConditionsErr reads "Conditions is not initialized", LockNotReleasedErr reads lock.go:10's text, both non-empty; any other error reads its own text |
| Errors.SentinelMessagesDiffer | pkg/konditions/lock.go:10 | the two sentinel errors have different texts |
| AdvisoryLock.ExecuteWithDuplicateTypes | pkg/konditions/lock.go:227-238 | with two Locked entries of the tracked type, Execute returns LockNotReleasedErr and rewrites the last entry as Error, but the second write still holds the first entry as Locked |
| AdvisoryLock.ExecuteErrorKeepsSnapshotTime | pkg/konditions/lock.go:221-224 | the Error entry for a failing task carries the snapshot's non-zero timestamp, not the clock reading |

## Left out

- The Kubernetes client, `context.Context`, `client.Object` and `Status().Update` are left out. They are replaced by the store outcomes `first` and `second`, which are inputs to `Execute`. The store's optimistic conflict detection and concurrent reconciliation attempts are outside this sequential code.
- Wall-clock time and `meta.Time` internals, including `meta.Time.DeepCopyInto`, are left out. Time is an `int`. Every stamp inside one `Execute` uses the same `now`, although Go calls `time.Now()` for each.
- The task's own side effects outside the condition set are left out. The task is an oracle that returns the set it leaves and its error.
- AdvisoryLock.Execute: in lock.go:227, a task that succeeds after removing the tracked condition makes the code dereference nil. The model requires the task either to fail or to leave the type present, and does not model the panic.
- The nil `Conditions()` pointer a resource could return is left out. `Execute` and `NewLock` take a non-nil set, because the value-receiver queries they call would panic on nil.
- JSON/protobuf tags and the kubebuilder validation markers (the Type pattern, the length limits) are left out. The API server enforces them, not this code.
- The example code in doc comments is left out, including the value-receiver accessor in lock.go.
- Go copies are new allocations; here values are immutable, so "editing the copy leaves the original alone" holds by construction and is stated only through `Conditions.EditedCopyIsIndependent`.
