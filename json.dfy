/** The shape of one field of a parsed JSON request body, as the handlers' schemas see it. */
module Json {
  datatype Field = Missing | Str(s: string) | NonString

  /** A string field of at least `min` and at most `max` characters (a `z.string().min().max()` check). */
  predicate StrBetween(f: Field, min: nat, max: nat) {
    f.Str? && min <= |f.s| <= max
  }

  /** A string field of at least `min` characters (a `z.string().min()` check). */
  predicate StrAtLeast(f: Field, min: nat) {
    f.Str? && min <= |f.s|
  }

  /** An optional string field (a `z.string().optional()` check): absent or a string. */
  predicate OptionalStr(f: Field) {
    !f.NonString?
  }
}
