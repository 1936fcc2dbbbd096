/**
 * players/PlayerTruthful.java: a player that never bluffs. It lists the
 * truthful bids its own cup supports, lowest first, and offers the first of
 * them that outbids the highest bid so far; when none does, it calls b.s.
 */
module Truthful {
  import opened Wrappers
  import opened Sorting
  import opened Bids
  import opened Cups
  import opened Rounds
  import Dice

  const SHOW_ME_THE_MONEY := "Show me the money"

  /** The ways getBid ends without handing back a bid. */
  datatype TruthfulError =
    | NoTrueBids    // bids.get(0) on an empty list
    | Exited        // the iterator was empty: System.exit(-1)
    | NeverReturns  // the highest bid is a b.s.: nothing outbids it, the loop spins

  /** Where the walk over `bids` stops: the first bid that outbids `highest`, or |bids| if none does. */
  function FirstAbove(bids: seq<Bid>, highest: Option<Bid>): (i: nat)
    ensures i <= |bids|
    ensures forall k :: 0 <= k < i ==> Compare(bids[k], highest) < 1
    ensures i < |bids| ==> Compare(bids[i], highest) == 1
  {
    if |bids| == 0 then 0
    else if Compare(bids[0], highest) == 1 then 0
    else 1 + FirstAbove(bids[1..], highest)
  }

  /** The answer getBid gives when its cup lists the true bids `bids`, in order. */
  function Choice(bids: seq<Bid>, highest: Option<Bid>): Result<Bid, TruthfulError> {
    if highest.None? then
      (if |bids| == 0 then Failure(NoTrueBids) else Success(bids[0]))
    else if |bids| == 0 then Failure(Exited)
    else
      var i := FirstAbove(bids, highest);
      if i < |bids| then Success(bids[i])
      else if highest.value.isBS then Failure(NeverReturns)
      else Success(BSBid(Some(SHOW_ME_THE_MONEY)))
  }

  /**
   * The choice over the sorted true bids tb of a cup: the lowest true bid
   * when nobody has bid, else the lowest one that outbids the highest; a b.s.
   * call when none does. What it offers always outbids a plain highest bid
   * and is truthful.
   */
  lemma ChoiceMeetsPromise(bids: seq<Bid>, tb: seq<Bid>, h: Option<Bid>, dice: seq<Dice.Die>)
    requires SortedBy(bids, BidLeq) && multiset(bids) == multiset(tb) && TotalPreorder(BidLeq)
    requires forall b :: b in tb ==> !b.isBS && b.quantity <= CountFace(dice, b.dots)
    ensures var r := Choice(bids, h);
            && (h.None? ==> (r.Success? <==> |tb| > 0))
            && (h.None? && r.Success? ==> r.value in tb && forall b :: b in tb ==> BidLeq(r.value, b))
            && (h.Some? && |tb| == 0 ==> r == Failure(Exited))
            && (h.Some? && (exists b :: b in tb && Compare(b, h) == 1) ==>
                  && r.Success? && r.value in tb && Compare(r.value, h) == 1
                  && forall b :: b in tb && Compare(b, h) == 1 ==> BidLeq(r.value, b))
            && (h.Some? && |tb| > 0 && (forall b :: b in tb ==> Compare(b, h) < 1) ==>
                  r == if h.value.isBS then Failure(NeverReturns) else Success(BSBid(Some(SHOW_ME_THE_MONEY))))
            && (h.Some? && !h.value.isBS && |tb| > 0 ==> r.Success? && Compare(r.value, h) == 1)
            && (r.Success? && !r.value.isBS ==> r.value.quantity <= CountFace(dice, r.value.dots))
  {
    InSorted(bids, tb);
    var i := FirstAbove(bids, h);
    forall b | b in tb
      ensures (h.None? || Compare(b, h) == 1) && i < |bids| ==> BidLeq(bids[if h.None? then 0 else i], b)
    {
      var k :| 0 <= k < |bids| && bids[k] == b;
      var j := if h.None? then 0 else i;
      if (h.None? || Compare(b, h) == 1) && i < |bids| && j != k {
        assert j < k;
      }
    }
    if h.Some? && (exists b :: b in tb && Compare(b, h) == 1) {
      var b :| b in tb && Compare(b, h) == 1;
      assert i < |bids|;
    }
  }

  /**
   * getBid: with no bid yet, the lowest true bid; otherwise the true bids
   * are walked in order until one outbids the highest, falling back on a
   * b.s. call, which is answered with its own message.
   */
  method GetBid(rs: RoundState, cup: Cup) returns (r: Result<Bid, TruthfulError>)
    ensures var h, tb := rs.HighestBid(), TrueBids(cup.dice);
            && (h.None? ==> (r.Success? <==> |tb| > 0))
            && (h.None? && r.Success? ==> r.value in tb && forall b :: b in tb ==> BidLeq(r.value, b))
            && (h.Some? && |tb| == 0 ==> r == Failure(Exited))
            && (h.Some? && (exists b :: b in tb && Compare(b, h) == 1) ==>
                  && r.Success? && r.value in tb && Compare(r.value, h) == 1
                  && forall b :: b in tb && Compare(b, h) == 1 ==> BidLeq(r.value, b))
            && (h.Some? && |tb| > 0 && (forall b :: b in tb ==> Compare(b, h) < 1) ==>
                  r == if h.value.isBS then Failure(NeverReturns) else Success(BSBid(Some(SHOW_ME_THE_MONEY))))
            && (h.Some? && !h.value.isBS && |tb| > 0 ==> r.Success? && Compare(r.value, h) == 1)
    ensures r.Success? && !r.value.isBS ==> r.value.quantity <= CountFace(cup.dice, r.value.dots)
  {
    var bids := cup.GetSortedTrueBids();
    var highest := rs.HighestBid();
    BidLeqIsTotalPreorder();
    TrueBidsAreTruthful(cup.dice);
    ChoiceMeetsPromise(bids, TrueBids(cup.dice), highest, cup.dice);
    r := Walk(bids, highest);
  }

  /** The body of getBid once the true bids are listed: the iterator loop. */
  method Walk(bids: seq<Bid>, highest: Option<Bid>) returns (r: Result<Bid, TruthfulError>)
    requires forall k :: 0 <= k < |bids| ==> !bids[k].isBS
    ensures r == Choice(bids, highest)
  {
    if highest.None? {
      if |bids| == 0 {
        return Failure(NoTrueBids);
      }
      return Success(bids[0]);
    }
    if |bids| == 0 {
      return Failure(Exited);
    }
    var bid := bids[0];
    var next := 1;
    while Compare(bid, highest) < 1
      invariant 1 <= next <= |bids|
      invariant bid == bids[next - 1] || (bid == BSBid(None) && next == |bids|)
      invariant forall k :: 0 <= k < next - 1 ==> Compare(bids[k], highest) < 1
      invariant bid.isBS ==> Compare(bid, highest) == 1 && forall k :: 0 <= k < |bids| ==> Compare(bids[k], highest) < 1
      decreases |bids| - next, if bid.isBS then 0 else 1
    {
      if next < |bids| {
        bid := bids[next];
        next := next + 1;
      } else {
        if Compare(BSBid(None), highest) < 1 {
          // every later pass sets the same b.s. bid and compares it again
          return Failure(NeverReturns);
        }
        bid := BSBid(None);
      }
    }
    if bid.isBS {
      return Success(BSBid(Some(SHOW_ME_THE_MONEY)));
    }
    r := Success(bid);
  }

  /** A sorted permutation of the true bids holds the same bids, each position in order. */
  lemma InSorted(bids: seq<Bid>, tb: seq<Bid>)
    requires multiset(bids) == multiset(tb)
    ensures |bids| == |tb|
    ensures forall b :: b in tb <==> b in bids
  {
    assert |bids| == |multiset(bids)| == |multiset(tb)| == |tb|;
    forall b
      ensures b in tb <==> b in bids
    {
      assert b in tb <==> b in multiset(tb);
      assert b in bids <==> b in multiset(bids);
    }
  }
}
