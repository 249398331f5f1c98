/** `randInt`: a bounded integer computed from one uniform draw.

    The draw stands for the value of `Math.random()`, a number in [0, 1).
    It is modelled as an exact fraction num/den, so the floating point
    product of the app becomes a rational one; with den > 0 Dafny's
    division rounds down exactly as `Math.floor` does. */
module Draw {

  import opened Arith

  datatype Unit = Unit(num: nat, den: nat) {
    /** A number in [0, 1). */
    predicate Valid() {
      0 < den && num < den
    }
  }

  /** floor(u * (max - min + 1)) + min.  For min <= max the value lies in
      [min, max]; for min > max the span is not positive and the value
      falls in (max, min] instead, which no caller in the app reaches. */
  function RandInt(min: int, max: int, u: Unit): (r: int)
    requires u.Valid()
    ensures min <= max ==> min <= r <= max
    ensures max < min ==> max < r <= min
  {
    var span := max - min + 1;
    ScaledBounds(u, span);
    u.num * span / u.den + min
  }

  /** floor(u * span) lies between 0 and span - 1 for a positive span and
      between span and 0 for a non-positive one. */
  lemma ScaledBounds(u: Unit, span: int)
    requires u.Valid()
    ensures 0 < span ==> 0 <= u.num * span / u.den < span
    ensures span <= 0 ==> span <= u.num * span / u.den <= 0
  {
    if 0 < span {
      ScaledBoundsPositive(u.num, u.den, span);
    } else {
      ScaledBoundsNonPositive(u.num, u.den, span);
    }
  }

  lemma ScaledBoundsPositive(num: nat, den: nat, span: int)
    requires num < den && 0 < span
    ensures 0 <= num * span / den < span
  {
    MulMono(0, num, span);
    MulMono(num + 1, den, span);
    assert (num + 1) * span == num * span + span;
    DivBounds(num * span, den, 0, span);
  }

  lemma ScaledBoundsNonPositive(num: nat, den: nat, span: int)
    requires num < den && span <= 0
    ensures span <= num * span / den <= 0
  {
    var m := -span;
    MulMono(0, num, m);
    MulMono(num, den, m);
    assert num * m == -(num * span);
    assert den * m == -(span * den);
    DivBounds(num * span, den, span, 1);
  }

  /** Every value of [min, max] is produced by some draw, so the range of
      `RandInt` is exactly the inclusive range. */
  lemma RandIntCovers(min: int, max: int, r: int)
    requires min <= r <= max
    ensures var u := Unit(r - min, max - min + 1);
            u.Valid() && RandInt(min, max, u) == r
  {
    var span := max - min + 1;
    DivBounds((r - min) * span, span, r - min, r - min + 1);
  }
}
