/**
 * Bid.java: a claim "quantity dice show dots" or a call of b.s. on the
 * previous claim, with the three-way comparison the referee uses to decide
 * whether a new bid outbids the last one.
 */
module Bids {
  import opened Wrappers
  import opened JavaText
  import opened Sorting

  const MIN_QUANTITY := 1
  const MIN_DOTS := 1
  const MAX_DOTS := 6

  /** The two validation failures of setQuantity and setDots. */
  datatype BidError = QuantityBelowMinimum(quantity: int) | DotsOutOfRange(dots: int)

  /**
   * The fields of a Bid object. A b.s. bid still stores the bounds (1, 1) as
   * its quantity and dots; the accessors hide them. `playerName` and
   * `playerNumDice` are the informational fields the referee fills in.
   */
  datatype Bid = Bid(quantity: int, dots: int, isBS: bool,
                     playerName: Option<string>, playerNumDice: int,
                     message: Option<string>)

  /** The field values of a Bid before any constructor code runs. */
  const Unset: Bid := Bid(0, 0, false, None, 0, None)

  predicate InRange(quantity: int, dots: int) {
    quantity >= MIN_QUANTITY && MIN_DOTS <= dots <= MAX_DOTS
  }

  /** What every constructor establishes: the stored claim is within bounds. */
  predicate Wf(b: Bid) {
    InRange(b.quantity, b.dots)
  }

  /**
   * setBid: setQuantity then setDots, each throwing on a value out of range,
   * then clearing the b.s. flag.
   */
  function SetBid(b: Bid, quantity: int, dots: int): (r: Result<Bid, BidError>)
    ensures r.Success? <==> InRange(quantity, dots)
    ensures quantity < MIN_QUANTITY ==> r == Failure(QuantityBelowMinimum(quantity))
    ensures quantity >= MIN_QUANTITY && !InRange(quantity, dots) ==> r == Failure(DotsOutOfRange(dots))
    ensures r.Success? ==> Wf(r.value) && !r.value.isBS
    ensures r.Success? ==> NumDice(r.value) == quantity && Dots(r.value) == dots
    ensures r.Success? ==> r.value.playerName == b.playerName && r.value.playerNumDice == b.playerNumDice
                           && r.value.message == b.message
  {
    if quantity < MIN_QUANTITY then Failure(QuantityBelowMinimum(quantity))
    else if dots < MIN_DOTS || dots > MAX_DOTS then Failure(DotsOutOfRange(dots))
    else Success(b.(quantity := quantity, dots := dots, isBS := false))
  }

  /** Bid(quantity, dots, message) and, with `message` None, Bid(quantity, dots). */
  function NewBid(quantity: int, dots: int, message: Option<string>): (r: Result<Bid, BidError>)
    ensures r.Success? <==> InRange(quantity, dots)
    ensures r.Success? ==> !IsBS(r.value) && NumDice(r.value) == quantity && Dots(r.value) == dots
    ensures r.Success? ==> r.value.message == message && r.value.playerName == None
                           && r.value.playerNumDice == 0
  {
    var b :- SetBid(Unset, quantity, dots);
    Success(b.(message := message, isBS := false))
  }

  /** Bid(message) and, with `message` None, Bid(): a call of b.s. */
  function BSBid(message: Option<string>): (r: Bid)
    ensures IsBS(r) && Wf(r)
    ensures NumDice(r) == -1 && Dots(r) == -1
    ensures r.message == message && r.playerName == None && r.playerNumDice == 0
  {
    var b := SetBid(Unset, MIN_QUANTITY, MIN_DOTS).value;
    b.(message := message, isBS := true)
  }

  function IsBS(b: Bid): bool { b.isBS }

  /** getNumDice: the claimed quantity, or -1 for b.s. */
  function NumDice(b: Bid): int {
    if b.isBS then -1 else b.quantity
  }

  /** getDots: the claimed face, or -1 for b.s. */
  function Dots(b: Bid): int {
    if b.isBS then -1 else b.dots
  }

  /** setPlayerNumDice: only the informational dice count changes. */
  function SetPlayerNumDice(b: Bid, playerNumDice: int): (r: Bid)
    ensures r.playerNumDice == playerNumDice
    ensures forall other :: Compare(r, other) == Compare(b, other)
    ensures r.isBS == b.isBS && NumDice(r) == NumDice(b) && Dots(r) == Dots(b)
    ensures r.playerName == b.playerName && r.message == b.message
  {
    b.(playerNumDice := playerNumDice)
  }

  /** setPlayerSimpleClassName: only the informational player name changes. */
  function SetPlayerSimpleClassName(b: Bid, name: string): (r: Bid)
    ensures r.playerName == Some(name)
    ensures forall other :: Compare(r, other) == Compare(b, other)
    ensures r.isBS == b.isBS && NumDice(r) == NumDice(b) && Dots(r) == Dots(b)
    ensures r.playerNumDice == b.playerNumDice && r.message == b.message
  {
    b.(playerName := Some(name))
  }

  /**
   * compareTo: 1 against null; b.s. above every claim and equal to b.s.;
   * claims by quantity, then by dots.
   */
  function Compare(a: Bid, other: Option<Bid>): (r: int)
    ensures -1 <= r <= 1
    ensures other.None? ==> r == 1
    ensures other.Some? && a.isBS && !other.value.isBS ==> r == 1
    ensures other.Some? && !a.isBS && other.value.isBS ==> r == -1
    ensures other.Some? && a.isBS && other.value.isBS ==> r == 0
  {
    if other.None? then 1
    else
      var b := other.value;
      if a.isBS || b.isBS then
        (if a.isBS && b.isBS then 0 else if a.isBS then 1 else -1)
      else if a.quantity > NumDice(b) then 1
      else if a.quantity < NumDice(b) then -1
      else if a.dots > Dots(b) then 1
      else if a.dots < Dots(b) then -1
      else 0
  }

  /** An independent statement of the order: b.s. ranks above every (quantity, dots) pair. */
  function Rank(b: Bid): (int, int, int) {
    if b.isBS then (1, 0, 0) else (0, b.quantity, b.dots)
  }

  function CompareTriples(x: (int, int, int), y: (int, int, int)): int {
    if x.0 != y.0 then (if x.0 < y.0 then -1 else 1)
    else if x.1 != y.1 then (if x.1 < y.1 then -1 else 1)
    else if x.2 != y.2 then (if x.2 < y.2 then -1 else 1)
    else 0
  }

  lemma CompareIsLexicographic(a: Bid, b: Bid)
    ensures Compare(a, Some(b)) == CompareTriples(Rank(a), Rank(b))
  {
  }

  lemma CompareAntisymmetric(a: Bid, b: Bid)
    ensures Compare(a, Some(b)) == -Compare(b, Some(a))
  {
    CompareIsLexicographic(a, b);
    CompareIsLexicographic(b, a);
  }

  lemma CompareTransitive(a: Bid, b: Bid, c: Bid)
    ensures Compare(a, Some(b)) >= 0 && Compare(b, Some(c)) >= 0 ==> Compare(a, Some(c)) >= 0
    ensures Compare(a, Some(b)) > 0 && Compare(b, Some(c)) >= 0 ==> Compare(a, Some(c)) > 0
    ensures Compare(a, Some(b)) >= 0 && Compare(b, Some(c)) > 0 ==> Compare(a, Some(c)) > 0
  {
    CompareIsLexicographic(a, b);
    CompareIsLexicographic(b, c);
    CompareIsLexicographic(a, c);
  }

  /** Two bids compare equal exactly when both are b.s. or both claim the same pair. */
  lemma CompareZeroIffSameClaim(a: Bid, b: Bid)
    ensures Compare(a, Some(b)) == 0 <==> Rank(a) == Rank(b)
  {
    CompareIsLexicographic(a, b);
  }

  /** The order Collections.sort uses for a list of bids. */
  predicate BidLeq(a: Bid, b: Bid) {
    Compare(a, Some(b)) <= 0
  }

  lemma BidLeqIsTotalPreorder()
    ensures TotalPreorder(BidLeq)
  {
    forall a: Bid, b: Bid
      ensures BidLeq(a, b) || BidLeq(b, a)
    {
      CompareAntisymmetric(a, b);
    }
    forall a: Bid, b: Bid, c: Bid | BidLeq(a, b) && BidLeq(b, c)
      ensures BidLeq(a, c)
    {
      CompareAntisymmetric(a, b);
      CompareAntisymmetric(b, c);
      CompareAntisymmetric(a, c);
      CompareTransitive(c, b, a);
    }
  }

  /** toString: "b.s.!" or quantity + "x" + dots + "'s". */
  function ToString(b: Bid): string {
    if b.isBS then "b.s.!"
    else IntToString(b.quantity) + "x" + IntToString(b.dots) + "'s"
  }

  /** Well-formed bids print differently unless they make the same claim. */
  lemma {:induction false} ToStringInjective(a: Bid, b: Bid)
    requires Wf(a) && Wf(b)
    requires ToString(a) == ToString(b)
    ensures Rank(a) == Rank(b)
  {
    LeadingCharacter(a);
    LeadingCharacter(b);
    if !a.isBS && !b.isBS {
      var pa, pb := NatToString(a.quantity), NatToString(b.quantity);
      var ra, rb := NatToString(a.dots) + "'s", NatToString(b.dots) + "'s";
      assert ToString(a) == pa + "x" + ra;
      assert ToString(b) == pb + "x" + rb;
      SplitAtSeparator(pa, ra, pb, rb);
      NatToStringInjective(a.quantity, b.quantity);
      assert NatToString(a.dots) == ra[..|ra| - 2] == rb[..|rb| - 2] == NatToString(b.dots);
      NatToStringInjective(a.dots, b.dots);
    }
  }

  /** A claim prints starting with a digit, a call of b.s. with a letter. */
  lemma LeadingCharacter(b: Bid)
    requires Wf(b)
    ensures |ToString(b)| > 0
    ensures IsDigit(ToString(b)[0]) <==> !b.isBS
  {
    if !b.isBS {
      assert ToString(b)[0] == NatToString(b.quantity)[0];
    }
  }

  /** A digit prefix before an 'x' is determined by the text. */
  lemma SplitAtSeparator(pa: string, ra: string, pb: string, rb: string)
    requires forall i :: 0 <= i < |pa| ==> IsDigit(pa[i])
    requires forall i :: 0 <= i < |pb| ==> IsDigit(pb[i])
    requires pa + "x" + ra == pb + "x" + rb
    ensures pa == pb && ra == rb
  {
    var s := pa + "x" + ra;
    assert forall k :: 0 <= k < |pa| ==> IsDigit(s[k]);
    assert s[|pa|] == 'x';
    assert forall k :: 0 <= k < |pb| ==> IsDigit(s[k]);
    assert s[|pb|] == 'x';
    assert |pa| == |pb|;
    assert pa == s[..|pa|] == pb;
    assert ra == s[|pa| + 1..] == rb;
  }
}
