/** The optional-value type used for the server's `location` (JavaScript's `null`
    or an object), the client's `socket` and `error`, and the geolocation reading. */
module Options {
  datatype Option<T> = None | Some(value: T)
}
