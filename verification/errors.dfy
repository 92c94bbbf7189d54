/** The error values of the library. Go errors are compared by identity,
    so each sentinel is its own constructor; errors that come from the
    store or from a task are opaque and carry only their text. */
module Errors {

  datatype Error =
    | NotInitializedConditions   // mutations.go: NotInitializedConditionsErr
    | LockNotReleased            // lock.go: LockNotReleasedErr
    | Opaque(text: string)       // any other error, known only by its text

  const NotInitializedText: string := "Conditions is not initialized"
  const LockNotReleasedText: string :=
    "Condition still locked after task executed. The task needs to set the condition status before returning"

  /** The text `err.Error()` returns: the sentinel's own text, or the text an
      opaque error carries. */
  function Message(e: Error): (s: string)
    ensures e.Opaque? ==> s == e.text
    ensures e == NotInitializedConditions ==> s == NotInitializedText
    ensures e == LockNotReleased ==> s == LockNotReleasedText
    ensures !e.Opaque? ==> |s| > 0
  {
    match e
    case NotInitializedConditions => NotInitializedText
    case LockNotReleased => LockNotReleasedText
    case Opaque(t) => t
  }

  /** The two sentinel errors have different texts. */
  lemma SentinelMessagesDiffer()
    ensures Message(NotInitializedConditions) != Message(LockNotReleased)
  {
  }

}
