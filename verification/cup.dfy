/**
 * Cup.java: a player's dice, kept sorted by face. The referee shakes it,
 * takes the lowest die away after a lost round, and counts faces; a player
 * may list the truthful bids it supports.
 */
module Cups {
  import opened Wrappers
  import opened JavaText
  import opened Sorting
  import opened Dice
  import opened Bids

  const DEFAULT_NUM_DICE := 5

  /** Number of dice in `ds` showing `face`. */
  function CountFace(ds: seq<Die>, face: int): (n: nat)
    ensures n <= |ds|
  {
    if |ds| == 0 then 0
    else CountFace(ds[..|ds| - 1], face) + (if ds[|ds| - 1].dots == face then 1 else 0)
  }

  /** The faces showing, in order. */
  function Faces(ds: seq<Die>): (fs: seq<int>)
    ensures |fs| == |ds| && forall i :: 0 <= i < |ds| ==> fs[i] == ds[i].dots
  {
    seq(|ds|, i requires 0 <= i < |ds| => ds[i].dots)
  }

  /** The count of a face is its multiplicity among the faces showing. */
  lemma {:induction false} CountFaceIsMultiplicity(ds: seq<Die>, face: int)
    ensures CountFace(ds, face) == multiset(Faces(ds))[face]
  {
    if |ds| > 0 {
      var init := ds[..|ds| - 1];
      CountFaceIsMultiplicity(init, face);
      assert Faces(ds) == Faces(init) + [ds[|ds| - 1].dots];
    }
  }

  /** Sum of CountFace(ds, f) for f in [lo, hi). */
  function CountRange(ds: seq<Die>, lo: int, hi: int): nat
    decreases hi - lo
  {
    if lo >= hi then 0 else CountFace(ds, lo) + CountRange(ds, lo + 1, hi)
  }

  lemma {:induction false} CountRangeSnoc(ds: seq<Die>, d: Die, lo: int, hi: int)
    ensures CountRange(ds + [d], lo, hi)
            == CountRange(ds, lo, hi) + (if lo <= d.dots < hi then 1 else 0)
    decreases hi - lo
  {
    assert (ds + [d])[..|ds + [d]| - 1] == ds;
    if lo < hi {
      CountRangeSnoc(ds, d, lo + 1, hi);
    }
  }

  lemma {:induction false} NoDiceNoCounts(ds: seq<Die>, lo: int, hi: int)
    requires |ds| == 0
    ensures CountRange(ds, lo, hi) == 0
    decreases hi - lo
  {
    if lo < hi {
      NoDiceNoCounts(ds, lo + 1, hi);
    }
  }

  /**
   * When every face lies between 1 and `sides`, the counts of the faces
   * 1..sides add up to the number of dice.
   */
  lemma {:induction false} CountsAddUp(ds: seq<Die>, sides: int)
    requires forall i :: 0 <= i < |ds| ==> 1 <= ds[i].dots <= sides
    ensures CountRange(ds, 1, sides + 1) == |ds|
  {
    if |ds| == 0 {
      NoDiceNoCounts(ds, 1, sides + 1);
    } else {
      var init := ds[..|ds| - 1];
      CountsAddUp(init, sides);
      assert ds == init + [ds[|ds| - 1]];
      CountRangeSnoc(init, ds[|ds| - 1], 1, sides + 1);
    }
  }

  /** The bid Bid(quantity, dots) builds. */
  function Claim(quantity: int, dots: int): (b: Bid)
    requires InRange(quantity, dots)
    ensures Bids.Wf(b) && !b.isBS && b.quantity == quantity && b.dots == dots
    ensures b == Bid(quantity, dots, false, None, 0, None)
  {
    NewBid(quantity, dots, None).value
  }

  /** Length of the run of equal faces that ends `ds`. */
  function RunEnd(ds: seq<Die>): (n: nat)
    ensures |ds| > 0 ==> 1 <= n <= |ds|
    ensures |ds| == 0 ==> n == 0
  {
    if |ds| == 0 then 0
    else if |ds| >= 2 && ds[|ds| - 2].dots == ds[|ds| - 1].dots then RunEnd(ds[..|ds| - 1]) + 1
    else 1
  }

  /**
   * The bids the scan of getSortedTrueBids emits, in emission order: for each
   * die, (length of the run so far, its face). A face outside 1..6 makes the
   * Bid constructor throw; the exception is swallowed and nothing is emitted.
   */
  function TrueBids(ds: seq<Die>): (bs: seq<Bid>)
    ensures |bs| <= |ds|
  {
    if |ds| == 0 then []
    else
      var last := ds[|ds| - 1];
      TrueBids(ds[..|ds| - 1])
        + (if MIN_DOTS <= last.dots <= MAX_DOTS then [Claim(RunEnd(ds), last.dots)] else [])
  }

  /** The run ending a sequence is made of dice showing its last face. */
  lemma {:induction false} RunEndBounded(ds: seq<Die>)
    requires |ds| > 0
    ensures RunEnd(ds) <= CountFace(ds, ds[|ds| - 1].dots)
  {
    var init := ds[..|ds| - 1];
    if |ds| >= 2 && ds[|ds| - 2].dots == ds[|ds| - 1].dots {
      RunEndBounded(init);
      assert init[|init| - 1] == ds[|ds| - 2];
    }
  }

  /** Every emitted bid is well formed and truthful for the dice it came from. */
  lemma {:induction false} TrueBidsAreTruthful(ds: seq<Die>)
    ensures forall b :: b in TrueBids(ds) ==>
              Bids.Wf(b) && !b.isBS && b.quantity <= CountFace(ds, b.dots)
  {
    if |ds| > 0 {
      var init := ds[..|ds| - 1];
      var last := ds[|ds| - 1];
      TrueBidsAreTruthful(init);
      RunEndBounded(ds);
      forall b | b in TrueBids(ds)
        ensures Bids.Wf(b) && !b.isBS && b.quantity <= CountFace(ds, b.dots)
      {
        if b in TrueBids(init) {
          assert CountFace(init, b.dots) <= CountFace(ds, b.dots);
        }
      }
    }
  }

  /** With every face in 1..6 the scan emits exactly one bid per die. */
  lemma {:induction false} OneBidPerDie(ds: seq<Die>)
    requires forall i :: 0 <= i < |ds| ==> MIN_DOTS <= ds[i].dots <= MAX_DOTS
    ensures |TrueBids(ds)| == |ds|
  {
    if |ds| > 0 {
      OneBidPerDie(ds[..|ds| - 1]);
    }
  }

  /** No die in `ds` shows a face at least `face`. */
  lemma {:induction false} CountAbove(ds: seq<Die>, face: int)
    requires forall i :: 0 <= i < |ds| ==> ds[i].dots < face
    ensures CountFace(ds, face) == 0
  {
    if |ds| > 0 {
      CountAbove(ds[..|ds| - 1], face);
    }
  }

  /** In sorted dice the run ending the sequence holds every die with that face. */
  lemma {:induction false} RunEndIsCount(ds: seq<Die>)
    requires SortedBy(ds, DieLeq) && |ds| > 0
    ensures RunEnd(ds) == CountFace(ds, ds[|ds| - 1].dots)
  {
    var init := ds[..|ds| - 1];
    var face := ds[|ds| - 1].dots;
    if |ds| >= 2 && ds[|ds| - 2].dots == face {
      RunEndIsCount(init);
      assert init[|init| - 1] == ds[|ds| - 2];
    } else {
      forall i | 0 <= i < |init|
        ensures init[i].dots < face
      {
        assert DieLeq(ds[i], ds[|ds| - 2]);
      }
      CountAbove(init, face);
    }
  }

  /**
   * For sorted dice the scan is exhaustive: a claim (q, d) with d in 1..6 is
   * emitted exactly when 1 <= q <= the number of dice showing d.
   */
  lemma {:induction false} TrueBidsExhaustive(ds: seq<Die>, q: int, d: int)
    requires SortedBy(ds, DieLeq)
    requires MIN_DOTS <= d <= MAX_DOTS
    ensures (exists b :: b in TrueBids(ds) && b.quantity == q && b.dots == d)
            <==> 1 <= q <= CountFace(ds, d)
  {
    TrueBidsAreTruthful(ds);
    if |ds| > 0 && 1 <= q <= CountFace(ds, d) {
      var init := ds[..|ds| - 1];
      var last := ds[|ds| - 1];
      if q <= CountFace(init, d) {
        TrueBidsExhaustive(init, q, d);
        var b :| b in TrueBids(init) && b.quantity == q && b.dots == d;
        assert b in TrueBids(ds);
      } else {
        RunEndIsCount(ds);
        assert Claim(RunEnd(ds), last.dots) in TrueBids(ds);
      }
    }
  }

  /** The four dice of the example in the documentation of getSortedTrueBids. */
  const ExampleDice: seq<Die> := [Die(6, 1), Die(6, 3), Die(6, 3), Die(6, 6)]

  function ClaimsOf(bs: seq<Bid>): (cs: seq<(int, int)>)
    ensures |cs| == |bs|
  {
    seq(|bs|, i requires 0 <= i < |bs| => (bs[i].quantity, bs[i].dots))
  }

  /** The scan over 1, 3, 3, 6 emits (1,1), (1,3), (2,3), (1,6). */
  lemma ExampleScan(ds: seq<Die>)
    requires ds == ExampleDice
    ensures TrueBids(ds) == [Claim(1, 1), Claim(1, 3), Claim(2, 3), Claim(1, 6)]
  {
    assert ds[..0] == [];
    ScanStep(ds, 0);
    assert TrueBids(ds[..1]) == [Claim(1, 1)];
    ScanStep(ds, 1);
    assert TrueBids(ds[..2]) == [Claim(1, 1), Claim(1, 3)];
    ScanStep(ds, 2);
    assert TrueBids(ds[..3]) == [Claim(1, 1), Claim(1, 3), Claim(2, 3)];
    ScanStep(ds, 3);
    assert ds[..4] == ds;
  }

  /** Dice 1, 3, 3, 6 yield the sorted bids (1,1), (1,3), (1,6), (2,3). */
  lemma SortedTrueBidsExample(ds: seq<Die>, r: seq<Bid>)
    requires ds == ExampleDice
    requires SortedBy(r, BidLeq)
    requires multiset(r) == multiset(TrueBids(ds))
    ensures ClaimsOf(r) == [(1, 1), (1, 3), (1, 6), (2, 3)]
  {
    var expected := [Claim(1, 1), Claim(1, 3), Claim(1, 6), Claim(2, 3)];
    ExampleScan(ds);
    ExamplePermuted();
    ExampleSorted();
    ExampleAntisymmetric();
    SortedPermutationUnique(expected, r, BidLeq);
    ExampleClaims();
  }

  lemma ExamplePermuted()
    ensures multiset([Claim(1, 1), Claim(1, 3), Claim(2, 3), Claim(1, 6)])
            == multiset([Claim(1, 1), Claim(1, 3), Claim(1, 6), Claim(2, 3)])
  {
  }

  lemma ExampleClaims()
    ensures ClaimsOf([Claim(1, 1), Claim(1, 3), Claim(1, 6), Claim(2, 3)]) == [(1, 1), (1, 3), (1, 6), (2, 3)]
  {
  }

  lemma ExampleAntisymmetric()
    ensures AntisymmetricOn([Claim(1, 1), Claim(1, 3), Claim(1, 6), Claim(2, 3)], BidLeq)
  {
    PlainClaimsAntisymmetric([Claim(1, 1), Claim(1, 3), Claim(1, 6), Claim(2, 3)]);
  }

  lemma ExampleSorted()
    ensures SortedBy([Claim(1, 1), Claim(1, 3), Claim(1, 6), Claim(2, 3)], BidLeq)
  {
  }

  /** Bids built by Bid(quantity, dots) are equal when they compare equal. */
  lemma PlainClaimsAntisymmetric(s: seq<Bid>)
    requires forall b :: b in s ==> !b.isBS && b.playerName == None && b.playerNumDice == 0 && b.message == None
    ensures AntisymmetricOn(s, BidLeq)
  {
    forall a, b | a in s && b in s && BidLeq(a, b) && BidLeq(b, a)
      ensures a == b
    {
      CompareAntisymmetric(a, b);
      CompareZeroIffSameClaim(a, b);
    }
  }

  class Cup {
    var dice: seq<Die>

    /** Sorted by face, every die well formed, all with the same number of sides. */
    ghost predicate Valid()
      reads this
    {
      && SortedBy(dice, DieLeq)
      && (forall i :: 0 <= i < |dice| ==> Dice.Wf(dice[i]))
      && (forall i, j :: 0 <= i < |dice| && 0 <= j < |dice| ==> dice[i].sides == dice[j].sides)
    }

    /** A cup holding exactly `ds`. */
    constructor Holding(ds: seq<Die>)
      ensures dice == ds
    {
      dice := ds;
    }

    /**
     * Cup(iNumDice, iNumSides): that many freshly rolled dice with that many
     * sides, sorted; fails as Die(iNumSides) does when a die is to be made.
     */
    static method Create(numDice: int, numSides: int) returns (r: Result<Cup, DieError>)
      ensures r.Failure? <==> numDice > 0 && numSides < MIN_SIDES
      ensures r.Failure? ==> r.error == TooFewSides(numSides)
      ensures r.Success? ==> fresh(r.value) && r.value.Valid()
      ensures r.Success? ==> |r.value.dice| == (if numDice > 0 then numDice else 0)
      ensures r.Success? ==> forall d :: d in r.value.dice ==> d.sides == numSides
    {
      var ds: seq<Die> := [];
      var i := 0;
      while i < numDice
        invariant 0 <= i && (numDice > 0 ==> i <= numDice) && (numDice <= 0 ==> i == 0)
        invariant |ds| == i
        invariant i > 0 ==> numSides >= MIN_SIDES
        invariant forall k :: 0 <= k < i ==> ds[k].sides == numSides && Dice.Wf(ds[k])
      {
        var d := NewDie(numSides);
        if d.Failure? {
          return Failure(d.error);
        }
        ds := ds + [d.value];
        i := i + 1;
      }
      DieLeqIsTotalPreorder();
      var sorted := SortBy(ds, DieLeq);
      SameSidesAfterSort(ds, sorted, numSides);
      var cup := new Cup.Holding(sorted);
      r := Success(cup);
    }

    /**
     * Cup(Cup): a new cup with a copy of each die, sorted again. A valid cup
     * is already sorted, so the copy holds the same dice in the same order.
     */
    constructor Copy(cup: Cup)
      ensures SortedBy(dice, DieLeq) && multiset(dice) == multiset(cup.dice)
      ensures cup.Valid() ==> Valid() && dice == cup.dice
    {
      var ds: seq<Die> := [];
      for i := 0 to |cup.dice|
        invariant ds == cup.dice[..i]
      {
        ds := ds + [cup.dice[i]];
      }
      assert ds == cup.dice;
      DieLeqIsTotalPreorder();
      var sorted := SortBy(ds, DieLeq);
      if cup.Valid() {
        UniformDiceAntisymmetric(ds);
        SortedPermutationUnique(ds, sorted, DieLeq);
      }
      dice := sorted;
    }

    /** getNumDice(). */
    function NumDice(): nat
      reads this
    {
      |dice|
    }

    /** shake: every die is rolled again, then the dice are sorted. */
    method Shake()
      requires Valid()
      modifies this
      ensures Valid()
      ensures |dice| == |old(dice)|
      ensures forall k :: 0 <= k < |dice| ==> dice[k].sides == old(dice)[k].sides
    {
      var ds := dice;
      var rolled: seq<Die> := [];
      for i := 0 to |ds|
        invariant |rolled| == i
        invariant forall k :: 0 <= k < i ==> rolled[k].sides == ds[k].sides && Dice.Wf(rolled[k])
      {
        var d := Roll(ds[i]);
        rolled := rolled + [d];
      }
      if |ds| > 0 {
        var sides := ds[0].sides;
        DieLeqIsTotalPreorder();
        var sorted := SortBy(rolled, DieLeq);
        SameSidesAfterSort(rolled, sorted, sides);
        dice := sorted;
      } else {
        dice := rolled;
      }
    }

    /** removeDie: fails on an empty cup, otherwise drops the die at index 0, the lowest face. */
    method RemoveDie() returns (ok: bool)
      requires Valid()
      modifies this
      ensures Valid()
      ensures ok <==> |old(dice)| > 0
      ensures ok ==> dice == old(dice)[1..]
      ensures ok ==> forall d :: d in dice ==> old(dice)[0].dots <= d.dots
      ensures !ok ==> dice == old(dice)
    {
      if |dice| < 1 {
        return false;
      }
      ghost var before := dice;
      dice := dice[1..];
      ok := true;
      forall d | d in dice
        ensures before[0].dots <= d.dots
      {
        var k :| 0 <= k < |dice| && dice[k] == d;
        assert DieLeq(before[0], before[k + 1]);
      }
    }

    /** getNumDice(dots): the number of dice showing `dots`. */
    method CountDots(dots: int) returns (quantity: int)
      ensures quantity == CountFace(dice, dots)
      ensures quantity == multiset(Faces(dice))[dots]
    {
      quantity := 0;
      for i := 0 to |dice|
        invariant quantity == CountFace(dice[..i], dots)
      {
        assert dice[..i + 1][..i] == dice[..i];
        if dots == dice[i].dots {
          quantity := quantity + 1;
        }
      }
      assert dice[..|dice|] == dice;
      CountFaceIsMultiplicity(dice, dots);
    }

    /**
     * getSortedTrueBids: the bids of the scan over the dice, sorted by
     * Bid.compareTo.
     */
    method GetSortedTrueBids() returns (bids: seq<Bid>)
      ensures SortedBy(bids, BidLeq)
      ensures multiset(bids) == multiset(TrueBids(dice))
      ensures forall b :: b in bids ==> Bids.Wf(b) && !b.isBS && b.quantity <= CountFace(dice, b.dots)
    {
      var ds := dice;
      var scanned: seq<Bid> := [];
      var bid: Option<Bid> := None;
      var dots1 := 0;
      if |ds| > 0 {
        dots1 := ds[0].dots;
        var made := NewBid(1, dots1, None);
        if made.Success? {
          bid := Some(made.value);
          scanned := scanned + [made.value];
        }
        ScanStep(ds, 0);
      }
      var i := if |ds| > 0 then 1 else 0;
      while i < |ds|
        invariant 0 <= i <= |ds| && (|ds| > 0 ==> i >= 1)
        invariant i >= 1 ==> dots1 == ds[i - 1].dots
        invariant i >= 1 && InRange(1, dots1) ==> bid == Some(Claim(RunEnd(ds[..i]), dots1))
        invariant scanned == TrueBids(ds[..i])
      {
        var dots2 := ds[i].dots;
        ScanStep(ds, i);
        if dots2 == dots1 {
          // a null `bid` throws a NullPointerException: swallowed, nothing emitted
          if bid.Some? {
            var made := NewBid(Bids.NumDice(bid.value) + 1, dots1, None);
            if made.Success? {
              bid := Some(made.value);
              scanned := scanned + [made.value];
            }
          }
        } else {
          var made := NewBid(1, dots2, None);
          if made.Success? {
            bid := Some(made.value);
            scanned := scanned + [made.value];
          }
          dots1 := dots2;
        }
        i := i + 1;
      }
      assert ds[..|ds|] == ds;
      BidLeqIsTotalPreorder();
      bids := SortBy(scanned, BidLeq);
      TrueBidsAreTruthful(ds);
      forall b | b in bids
        ensures b in TrueBids(ds)
      {
        assert b in multiset(bids);
      }
    }

    /** toString: "empty" for no dice, otherwise the faces joined by ", ". */
    method ToString() returns (s: string)
      ensures s == (if |dice| == 0 then "empty" else JoinFaces(dice))
      ensures s == "empty" <==> |dice| == 0
    {
      if |dice| == 0 {
        return "empty";
      }
      s := "";
      for i := 0 to |dice|
        invariant s == Terminated(dice[..i])
      {
        assert dice[..i + 1][..i] == dice[..i];
        s := s + IntToString(dice[i].dots) + ", ";
      }
      assert dice[..|dice|] == dice;
      TrimTerminated(dice);
      s := s[..|s| - 2];
      JoinFacesNotEmptyWord(dice);
    }
  }

  /** How the scan's state after die i follows from its state before it. */
  lemma ScanStep(ds: seq<Die>, i: int)
    requires 0 <= i < |ds|
    ensures RunEnd(ds[..i + 1])
            == if i >= 1 && ds[i - 1].dots == ds[i].dots then RunEnd(ds[..i]) + 1 else 1
    ensures TrueBids(ds[..i + 1]) == TrueBids(ds[..i])
              + (if MIN_DOTS <= ds[i].dots <= MAX_DOTS then [Claim(RunEnd(ds[..i + 1]), ds[i].dots)] else [])
  {
    assert ds[..i + 1][..i] == ds[..i];
  }

  /** Each face followed by ", ". */
  function Terminated(ds: seq<Die>): (s: string)
    ensures |s| >= 2 * |ds|
  {
    if |ds| == 0 then ""
    else Terminated(ds[..|ds| - 1]) + IntToString(ds[|ds| - 1].dots) + ", "
  }

  /** The faces separated by ", ". */
  function JoinFaces(ds: seq<Die>): string
    requires |ds| > 0
  {
    if |ds| == 1 then IntToString(ds[0].dots)
    else JoinFaces(ds[..|ds| - 1]) + ", " + IntToString(ds[|ds| - 1].dots)
  }

  lemma {:induction false} TrimTerminated(ds: seq<Die>)
    requires |ds| > 0
    ensures Terminated(ds)[..|Terminated(ds)| - 2] == JoinFaces(ds)
  {
    var last := IntToString(ds[|ds| - 1].dots);
    if |ds| == 1 {
      assert ds[..0] == [];
    } else {
      var init := ds[..|ds| - 1];
      TrimTerminated(init);
      var t := Terminated(init);
      assert Terminated(ds) == t + last + ", ";
      assert t == t[..|t| - 2] + ", ";
    }
  }

  /** A joined list of faces starts with a digit or a minus sign, so it never reads "empty". */
  lemma {:induction false} JoinFacesNotEmptyWord(ds: seq<Die>)
    requires |ds| > 0
    ensures |JoinFaces(ds)| > 0
    ensures IsDigit(JoinFaces(ds)[0]) || JoinFaces(ds)[0] == '-'
  {
    if |ds| == 1 {
      var f := ds[0].dots;
      if f >= 0 {
        assert IntToString(f)[0] == NatToString(f)[0];
      }
    } else {
      JoinFacesNotEmptyWord(ds[..|ds| - 1]);
    }
  }

  /** Dice that share their number of sides are told apart by their faces. */
  lemma UniformDiceAntisymmetric(ds: seq<Die>)
    requires forall i, j :: 0 <= i < |ds| && 0 <= j < |ds| ==> ds[i].sides == ds[j].sides
    ensures AntisymmetricOn(ds, DieLeq)
  {
    forall a, b | a in ds && b in ds && DieLeq(a, b) && DieLeq(b, a)
      ensures a == b
    {
      var i :| 0 <= i < |ds| && ds[i] == a;
      var j :| 0 <= j < |ds| && ds[j] == b;
    }
  }

  /** Sorting keeps every die of `ds`: the sorted cup is valid. */
  lemma SameSidesAfterSort(ds: seq<Die>, sorted: seq<Die>, sides: int)
    requires forall k :: 0 <= k < |ds| ==> ds[k].sides == sides && Dice.Wf(ds[k])
    requires SortedBy(sorted, DieLeq) && multiset(sorted) == multiset(ds)
    ensures |sorted| == |ds|
    ensures forall k :: 0 <= k < |sorted| ==> sorted[k].sides == sides && Dice.Wf(sorted[k])
  {
    assert |sorted| == |multiset(sorted)| == |multiset(ds)| == |ds|;
    forall k | 0 <= k < |sorted|
      ensures sorted[k].sides == sides && Dice.Wf(sorted[k])
    {
      assert sorted[k] in multiset(ds);
      var j :| 0 <= j < |ds| && ds[j] == sorted[k];
    }
  }
}
