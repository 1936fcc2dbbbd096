/**
 * Die.java: a die with a number of sides and the face currently up.
 * Math.random() is an arbitrary draw in [0, 1); the face is the draw scaled
 * to the number of sides, truncated, plus one.
 */
module Dice {
  import opened Wrappers
  import opened Sorting

  const DEFAULT_NUM_SIDES := 6
  const MIN_SIDES := 2

  datatype DieError = TooFewSides(sides: int)

  datatype Die = Die(sides: int, dots: int)

  /** What the constructors establish and roll preserves. */
  predicate Wf(d: Die) {
    d.sides >= MIN_SIDES && 1 <= d.dots <= d.sides
  }

  /** Java's (int) cast of a double: truncation toward zero. */
  function Truncate(x: real): (r: int)
    ensures x >= 0.0 ==> r as real <= x < r as real + 1.0
    ensures x < 0.0 ==> r as real - 1.0 < x <= r as real
  {
    if x >= 0.0 then x.Floor else -((-x).Floor)
  }

  /** `(int) (d * _sides) + 1` for a draw d in [0, 1). */
  function FaceOfDraw(draw: real, sides: int): int
    requires 0.0 <= draw < 1.0
  {
    Truncate(draw * sides as real) + 1
  }

  /** Every draw gives a face between 1 and the number of sides. */
  lemma FaceOfDrawInRange(draw: real, sides: int)
    requires 0.0 <= draw < 1.0 && sides >= 1
    ensures 1 <= FaceOfDraw(draw, sides) <= sides
  {
    assert draw * sides as real < sides as real;
  }

  /** Every face can come up: the draw (face - 1) / sides yields it. */
  lemma EveryFaceReachable(face: int, sides: int)
    requires 1 <= face <= sides
    ensures var draw := (face - 1) as real / sides as real;
            0.0 <= draw < 1.0 && FaceOfDraw(draw, sides) == face
  {
    var draw := (face - 1) as real / sides as real;
    assert draw * sides as real == (face - 1) as real;
  }

  /** roll: the die keeps its sides and shows the face some draw in [0, 1) yields. */
  method Roll(d: Die) returns (r: Die)
    ensures r.sides == d.sides
    ensures d.sides >= 1 ==> 1 <= r.dots <= d.sides
    ensures d.sides >= MIN_SIDES ==> Wf(r)
  {
    var draw: real :| 0.0 <= draw < 1.0;
    if d.sides >= 1 {
      FaceOfDrawInRange(draw, d.sides);
    }
    r := Die(d.sides, FaceOfDraw(draw, d.sides));
  }

  /** Die(iSides): fails below two sides, otherwise a rolled die with that many sides. */
  method NewDie(sides: int) returns (r: Result<Die, DieError>)
    ensures r.Failure? <==> sides < MIN_SIDES
    ensures r.Failure? ==> r.error == TooFewSides(sides)
    ensures r.Success? ==> r.value.sides == sides && Wf(r.value)
  {
    if sides < MIN_SIDES {
      return Failure(TooFewSides(sides));
    }
    var d := Roll(Die(sides, 0));
    r := Success(d);
  }

  /** Die(): a rolled six-sided die. */
  method DefaultDie() returns (r: Die)
    ensures r.sides == DEFAULT_NUM_SIDES && Wf(r)
  {
    r := Roll(Die(DEFAULT_NUM_SIDES, 0));
  }

  /** setDots: the server overwrites the face, the sides stay. */
  function SetDots(d: Die, dots: int): (r: Die)
    ensures r.sides == d.sides && r.dots == dots
  {
    d.(dots := dots)
  }

  /** compareTo: dice are ordered by the face showing, sides ignored. */
  function Compare(a: Die, b: Die): (r: int)
    ensures -1 <= r <= 1
  {
    if a.dots < b.dots then -1
    else if a.dots > b.dots then 1
    else 0
  }

  lemma CompareAgreesWithFaces(a: Die, b: Die)
    ensures Compare(a, b) < 0 <==> a.dots < b.dots
    ensures Compare(a, b) == 0 <==> a.dots == b.dots
    ensures Compare(a, b) == -Compare(b, a)
  {
  }

  /** The order Collections.sort uses for the dice in a cup. */
  predicate DieLeq(a: Die, b: Die) {
    Compare(a, b) <= 0
  }

  lemma DieLeqIsTotalPreorder()
    ensures TotalPreorder(DieLeq)
  {
  }
}
