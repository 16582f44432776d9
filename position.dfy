/** `Position`: a 1-based (line, column) pair, ordered lexicographically by
    line, then column (the order Python's dataclass `order=True` generates). */
module Positions {

  /** Column 1 is before the first character of a line. */
  datatype Position = Position(line: int, column: int)

  /** The generated `<`: compare the field tuples lexicographically. */
  predicate Less(a: Position, b: Position) {
    a.line < b.line || (a.line == b.line && a.column < b.column)
  }

  predicate LessEq(a: Position, b: Position) {
    Less(a, b) || a == b
  }

  function Min(a: Position, b: Position): (r: Position)
    ensures LessEq(r, a) && LessEq(r, b)
    ensures r == a || r == b
  {
    if Less(b, a) then b else a
  }

  function Max(a: Position, b: Position): (r: Position)
    ensures LessEq(a, r) && LessEq(b, r)
    ensures r == a || r == b
  {
    if Less(a, b) then b else a
  }

  /** Equality is field-wise. */
  lemma EqualIff(a: Position, b: Position)
    ensures a == b <==> a.line == b.line && a.column == b.column
  {
  }

  /** Trichotomy: exactly one of `<`, `==`, `>` holds. */
  lemma Trichotomy(a: Position, b: Position)
    ensures Less(a, b) || a == b || Less(b, a)
    ensures !(Less(a, b) && Less(b, a))
    ensures !Less(a, a)
  {
  }

  lemma LessTransitive(a: Position, b: Position, c: Position)
    requires Less(a, b) && Less(b, c)
    ensures Less(a, c)
  {
  }

  lemma LessEqTransitive(a: Position, b: Position, c: Position)
    requires LessEq(a, b) && LessEq(b, c)
    ensures LessEq(a, c)
  {
  }

  /** `<=` is the negation of `>`: the order is total. */
  lemma LessEqIsNotGreater(a: Position, b: Position)
    ensures LessEq(a, b) <==> !Less(b, a)
  {
  }
}
