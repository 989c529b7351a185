/** Shared vocabulary of the model: record ids, optional values and dates. */
module Prelude {

  /** A record id. The store allocates every id itself, so an id is an opaque number. */
  type Id = nat

  /** A calendar date, as a count of milliseconds; dates are only stored and compared for presence. */
  type Date = int

  /** A field that a request or a record may leave out. */
  datatype Option<+T> = None | Some(value: T)
}
