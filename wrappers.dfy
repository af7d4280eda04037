/** The optional value shared by the dashboard and the message endpoint:
    it stands for TypeScript's `T | null` and for a record that may be absent. */
module Wrappers {
  datatype Option<+T> = None | Some(value: T)
}
