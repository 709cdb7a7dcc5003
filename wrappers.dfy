/** The optional value used for library calls that may fail (`url.Parse`) and for
    the `error` results of the scheduler jobs. */
module Wrappers {

  datatype Option<+T> = None | Some(value: T)

}
