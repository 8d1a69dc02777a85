/** The optional value used for files and directories that may be absent on disk. */
module Wrappers {

  datatype Option<+T> = None | Some(value: T)
}
