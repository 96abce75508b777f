/** The one failure-carrying type the model needs: an optional value, used for
    collaborator calls that may throw and for matches that may fail. */
module Wrappers {

  datatype Option<+T> = None | Some(value: T)

}
