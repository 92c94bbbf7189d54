/** The optional value used for Go's nil pointers: a nil `*Conditions`
    receiver and the nil `*Condition` a finder returns when nothing matches. */
module Wrappers {

  datatype Option<+T> = None | Some(value: T)

}
