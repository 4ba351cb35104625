/** A value that may be absent: TypeScript's `T | null`, as returned by the
    room manager's lookups and by the pairing pass's search for a partner. */
module Optional {

  datatype Option<T> = None | Some(value: T)
}
