/** What the control plane's requests have in common: who asks, and partial updates. */
module Requests {
  import opened Common

  /** The user behind a token: nobody known, or a user with or without the admin role. */
  datatype Actor = Unknown | User(id: int, admin: bool)

  /** A field of a partial-update request: left out, sent as null, or sent with a value. */
  datatype Field<+T> = Unset | Null | Value(value: T)

  /** The value a service reads from the request, falling back on the row. */
  function Or<T>(f: Field<T>, current: T): T {
    if f.Value? then f.value else current
  }

  /** setattr on a column that may be null. */
  function AssignNullable<T>(f: Field<T>, current: Option<T>): Option<T> {
    match f case Unset => current case Null => None case Value(v) => Some(v)
  }

  /** What a stored update has done to a column that is never null: a column left out is as
      it was, one sent has the value sent, and null was not sent. */
  predicate Carried<T(==)>(f: Field<T>, before: T, after: T) {
    !f.Null? && (f.Unset? ==> after == before) && (f.Value? ==> after == f.value)
  }

  /** The same for a column that may be null. */
  predicate CarriedNullable<T(==)>(f: Field<T>, before: Option<T>, after: Option<T>) {
    (f.Unset? ==> after == before) && (f.Null? ==> after.None?) && (f.Value? ==> after == Some(f.value))
  }
}
