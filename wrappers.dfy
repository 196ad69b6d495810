/** Option stands for a Java reference that may be null: a child's tuple or a mask entry. */
module Wrappers {
  datatype Option<+T> = None | Some(value: T)
}
