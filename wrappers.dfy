/** Optional values: the classifier's answer (absent when the HTTP request
    failed) and the selected person box (absent where the source returns False). */
module Wrappers {

  datatype Option<+T> = None | Some(value: T)
}
