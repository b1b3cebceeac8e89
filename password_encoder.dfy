/** The `PasswordEncoder` bean (BCrypt in the application), seen only through
    its two operations. Both are function values with no known definition, so
    nothing is proved about the hash beyond what a lemma explicitly takes as
    a hypothesis. */
module PasswordEncoding {

  datatype PasswordEncoder = PasswordEncoder(
    encode: string -> string,
    matches: (string, string) -> bool)

  /** The one property of a real encoder the model relies on, and only where
      a lemma says so: a password matches its own encoding. */
  ghost predicate Consistent(encoder: PasswordEncoder) {
    forall plain :: encoder.matches(plain, encoder.encode(plain))
  }
}
