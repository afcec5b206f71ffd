/** Values that the database or the HTTP layer may leave out (`null` or `undefined` in the source). */
module Options {
  datatype Option<+T> = None | Some(value: T)

  /** Rows are named by UUIDs, which the services only ever compare for equality. */
  type Id = nat

  /** Milliseconds since the epoch, as `Date.getTime` returns them. */
  type Instant = int
}
