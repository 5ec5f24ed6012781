/** The part of a `JSON.parse` result that the extension looks at. Parsing
    itself is not modelled: callers pass a `Parser`, a function that gives
    None where `JSON.parse` throws. */
module Json {
  import opened Wrappers

  /** The nested `user` object of a stored auth payload: its `email` and `id`
      properties, each None when missing. */
  datatype User = User(email: Option<string>, id: Option<string>)

  /** A parsed value: `user` is Some exactly when the value is a non-null
      object whose `user` property is truthy. */
  datatype Parsed = Parsed(user: Option<User>)

  type Parser = string -> Option<Parsed>

  /** JavaScript truthiness of a string that may be missing. */
  predicate Truthy(s: Option<string>) {
    s.Some? && s.value != ""
  }
}
