/** Small carrier types shared by the whole model. */
module Wrappers {

  /** A value that may be absent; stands for a pointer argument that may be NULL. */
  datatype Option<+T> = None | Some(value: T)

  /** What a fallible in-place operation leaves behind: the boolean it
      returns and the state of the object it was given. */
  datatype Returned<+T> = Returned(ok: bool, state: T)
}
