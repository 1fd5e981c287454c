/** The optional value used for the picker's optional props and for
    parses that can fail (moment's "invalid date"). */
module Optional {

  datatype Option<T> = None | Some(value: T)

  /** JavaScript truthiness of an optional string: absent and "" are falsy. */
  predicate IsTruthy(s: Option<string>) {
    s.Some? && s.value != ""
  }
}
