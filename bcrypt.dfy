/** The password hashing library as the service sees it from outside: a way to
    turn a password into the text stored in the password column, and a way to
    check a password against such a text. Nothing is assumed about either
    beyond what `RoundTrips` states, and only where a lemma asks for it. */
module Bcrypt {

  /** `generate` stands for GenerateFromPassword at the default cost, `compare`
      for CompareHashAndPassword answering nil (true) or an error (false). */
  datatype Hasher = Hasher(generate: string -> string, compare: (string, string) -> bool)

  /** The one property relied on: a password always matches its own hash. */
  ghost predicate RoundTrips(h: Hasher)
  {
    forall p: string :: h.compare(h.generate(p), p)
  }
}
