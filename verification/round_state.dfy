/**
 * RoundState.java: the record of one round. The referee appends one entry
 * per seat (name, live dice count, a private copy of the cup) and every bid
 * in order; the cups stay hidden until the showdown is over.
 */
module Rounds {
  import opened Wrappers
  import opened JavaText
  import opened Sorting
  import opened Dice
  import opened Bids
  import opened Cups

  datatype RoundError =
    | DivisionByZero                // `index %= getNumPlayers()` with no players
    | IndexOutOfBounds(index: int)  // ArrayList.get, or the range check of getBid
    | NameNotFound(name: string)    // indexOf returned -1
    | ShowdownNotOver               // cup access before setShowdownOver

  /** Sum of a list of dice counts. */
  function Sum(s: seq<int>): int {
    if |s| == 0 then 0 else Sum(s[..|s| - 1]) + s[|s| - 1]
  }

  lemma SumAppend(s: seq<int>, x: int)
    ensures Sum(s + [x]) == Sum(s) + x
  {
    assert (s + [x])[..|s|] == s;
  }

  /** Every count non-negative makes a non-negative sum. */
  lemma {:induction false} SumNonNegative(s: seq<int>)
    requires forall i :: 0 <= i < |s| ==> s[i] >= 0
    ensures Sum(s) >= 0
  {
    if |s| > 0 {
      SumNonNegative(s[..|s| - 1]);
    }
  }

  class RoundState {
    var names: seq<string>
    var numDice: seq<int>
    var bids: seq<Bid>
    var cups: seq<seq<Die>>
    var showdownOver: bool

    /** The three per-seat lists are parallel. */
    ghost predicate Valid()
      reads this
    {
      |names| == |numDice| == |cups|
    }

    /** RoundState(): no seats, no bids, showdown not over. */
    constructor()
      ensures Valid()
      ensures names == [] && numDice == [] && cups == [] && bids == []
      ensures !showdownOver
    {
      names, numDice, bids, cups := [], [], [], [];
      showdownOver := false;
    }

    function NumPlayers(): nat
      reads this
    {
      |names|
    }

    function NumBids(): nat
      reads this
    {
      |bids|
    }

    /** `index %= getNumPlayers()`, then the list access the result feeds. */
    function Seat(index: int): (r: Result<nat, RoundError>)
      reads this
      ensures |names| == 0 ==> r == Failure(DivisionByZero)
      ensures |names| > 0 && index >= 0 ==> r == Success(index % |names|)
      ensures |names| > 0 && index < 0 ==> (r.Success? <==> JavaRem(index, |names|) == 0)
      ensures r.Success? ==> r.value < |names| && r.value == JavaRem(index, |names|)
    {
      if |names| == 0 then Failure(DivisionByZero)
      else
        var k := JavaRem(index, |names|);
        if k < 0 then Failure(IndexOutOfBounds(k)) else Success(k)
    }

    /** getPlayerIndex: the first seat with that name. */
    function PlayerIndex(name: string): (r: Result<nat, RoundError>)
      reads this
      ensures r.Failure? <==> name !in names
      ensures r.Failure? ==> r.error == NameNotFound(name)
      ensures r.Success? ==> r.value < |names| && names[r.value] == name && name !in names[..r.value]
    {
      var i := IndexOf(names, name);
      if i == -1 then Failure(NameNotFound(name)) else Success(i)
    }

    /** getPlayerSimpleClassName(index): the name at seat index mod the roster size. */
    function PlayerSimpleClassName(index: int): (r: Result<string, RoundError>)
      reads this
      ensures r.Success? <==> Seat(index).Success?
      ensures r.Success? ==> r.value == names[Seat(index).value]
    {
      var k :- Seat(index);
      Success(names[k])
    }

    /** getBid(index): the bid at that position; no wrap-around. */
    function GetBid(index: int): (r: Result<Bid, RoundError>)
      reads this
      ensures r.Success? <==> 0 <= index < |bids|
      ensures r.Failure? ==> r.error == IndexOutOfBounds(index)
      ensures r.Success? ==> r.value == bids[index]
    {
      if index < 0 || index > |bids| - 1 then Failure(IndexOutOfBounds(index))
      else Success(bids[index])
    }

    /** getHighestBid: null before the first bid, otherwise the latest one. */
    function HighestBid(): (r: Option<Bid>)
      reads this
      ensures r.None? <==> |bids| == 0
      ensures r.Some? ==> r.value == bids[|bids| - 1]
    {
      if |bids| == 0 then None else Some(bids[|bids| - 1])
    }

    /** getNumDice(index): the dice count at seat index mod the roster size. */
    function NumDiceAt(index: int): (r: Result<int, RoundError>)
      reads this
      requires Valid()
      ensures r.Success? <==> Seat(index).Success?
      ensures r.Success? ==> r.value == numDice[Seat(index).value]
    {
      var k :- Seat(index);
      Success(numDice[k])
    }

    /** getNumDice(name): the dice count of the first seat with that name. */
    function NumDiceOf(name: string): (r: Result<int, RoundError>)
      reads this
      requires Valid()
      ensures r.Failure? <==> name !in names
      ensures r.Success? ==> r.value == numDice[PlayerIndex(name).value]
    {
      var i :- PlayerIndex(name);
      Success(numDice[i])
    }

    /** getNumDiceTotal: the dice counts of all seats added up. */
    method NumDiceTotal() returns (total: int)
      ensures total == Sum(numDice)
    {
      total := 0;
      for i := 0 to |numDice|
        invariant total == Sum(numDice[..i])
      {
        assert numDice[..i + 1] == numDice[..i] + [numDice[i]];
        SumAppend(numDice[..i], numDice[i]);
        total := total + numDice[i];
      }
      assert numDice[..|numDice|] == numDice;
    }

    /** getCup(index): refused until the showdown is over, then seat index mod the roster size. */
    function CupAt(index: int): (r: Result<seq<Die>, RoundError>)
      reads this
      requires Valid()
      ensures !showdownOver ==> r == Failure(ShowdownNotOver)
      ensures r.Success? <==> showdownOver && Seat(index).Success?
      ensures r.Success? ==> r.value == cups[Seat(index).value]
    {
      if !showdownOver then Failure(ShowdownNotOver)
      else
        var k :- Seat(index);
        Success(cups[k])
    }

    /** getCups: every cup once the showdown is over. */
    function Cups(): (r: Result<seq<seq<Die>>, RoundError>)
      reads this
      ensures r.Success? <==> showdownOver
      ensures r.Success? ==> r.value == cups
    {
      if !showdownOver then Failure(ShowdownNotOver) else Success(cups)
    }

    /** getCup(name): the gate is checked before the name is looked up. */
    function CupOf(name: string): (r: Result<seq<Die>, RoundError>)
      reads this
      requires Valid()
      ensures !showdownOver ==> r == Failure(ShowdownNotOver)
      ensures r.Success? <==> showdownOver && name in names
      ensures r.Success? ==> r.value == cups[PlayerIndex(name).value]
    {
      if !showdownOver then Failure(ShowdownNotOver)
      else
        var i :- PlayerIndex(name);
        Success(cups[i])
    }

    /** getCupProtected: the referee's own lookup, not gated. */
    function CupOfProtected(name: string): (r: Result<seq<Die>, RoundError>)
      reads this
      requires Valid()
      ensures r.Success? <==> name in names
      ensures r.Success? ==> r.value == cups[PlayerIndex(name).value]
    {
      var i :- PlayerIndex(name);
      Success(cups[i])
    }

    /** addPlayerState: one more seat; the cup is recorded as a sorted copy. */
    method AddPlayerState(name: string, count: int, cup: Cup)
      requires Valid()
      modifies this
      ensures Valid()
      ensures names == old(names) + [name] && numDice == old(numDice) + [count]
      ensures |cups| == |old(cups)| + 1 && cups[..|old(cups)|] == old(cups)
      ensures multiset(cups[|cups| - 1]) == multiset(cup.dice) && SortedBy(cups[|cups| - 1], DieLeq)
      ensures cup.Valid() ==> cups[|cups| - 1] == cup.dice
      ensures bids == old(bids) && showdownOver == old(showdownOver)
    {
      var copy := new Cup.Copy(cup);
      names := names + [name];
      numDice := numDice + [count];
      cups := cups + [copy.dice];
    }

    /** addNextBid: the history grows by exactly that bid. */
    method AddNextBid(bid: Bid)
      modifies this
      ensures bids == old(bids) + [bid]
      ensures names == old(names) && numDice == old(numDice) && cups == old(cups)
      ensures showdownOver == old(showdownOver)
    {
      bids := bids + [bid];
    }

    /** setShowdownOver: opens the gate; no method closes it again. */
    method SetShowdownOver()
      modifies this
      ensures showdownOver
      ensures names == old(names) && numDice == old(numDice) && cups == old(cups) && bids == old(bids)
    {
      showdownOver := true;
    }
  }

  /** A seat index within the roster names that very seat. */
  lemma SeatInRange(rs: RoundState, index: int)
    requires 0 <= index < rs.NumPlayers()
    ensures rs.Seat(index) == Success(index)
  {
    ModSmall(index, rs.NumPlayers());
  }

  /** Seat lookups wrap around: index and index + n name the same seat. */
  lemma SeatWrapsAround(rs: RoundState, index: int)
    requires index >= 0 && rs.NumPlayers() > 0
    ensures rs.Seat(index + rs.NumPlayers()) == rs.Seat(index)
    ensures rs.PlayerSimpleClassName(index + rs.NumPlayers()) == rs.PlayerSimpleClassName(index)
  {
    ModShift(index, rs.NumPlayers());
  }

  /** A negative multiple of the roster size leaves remainder 0 and names seat 0. */
  lemma SeatNegativeMultiple(rs: RoundState, k: nat)
    requires rs.NumPlayers() > 0
    ensures rs.Seat(-(k * rs.NumPlayers())) == Success(0)
  {
    var n := rs.NumPlayers();
    ModUnique(k * n, n, k, 0);
  }

  /** The latest bid is the highest one, and getBid reaches all of them. */
  lemma HighestIsLastBid(rs: RoundState)
    requires rs.NumBids() > 0
    ensures rs.HighestBid() == Some(rs.GetBid(rs.NumBids() - 1).value)
  {
  }
}
