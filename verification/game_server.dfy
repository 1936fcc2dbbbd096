/**
 * GameServer.java: the referee. It seats the configured players, gives each
 * a cup, and plays rounds until one player is left. A round asks the players
 * for bids in turn until someone calls b.s. (or forfeits), then takes one
 * die from the loser; a player without dice leaves the table.
 *
 * Every index here (current player, defender, challenger, winner, loser) is
 * an index into the live player list. All `%` operands are non-negative, so
 * Java's remainder and Dafny's agree.
 */
module Server {
  import opened Wrappers
  import opened JavaText
  import opened Dice
  import opened Bids
  import opened Cups
  import opened Rounds
  import opened Games

  const MIN_NUM_PLAYERS := 2

  /** What a player is shown when asked for a bid: the round so far. */
  datatype RoundView = RoundView(names: seq<string>, numDice: seq<int>, bids: seq<Bid>)

  /**
   * A player's getBid behind the timeout wrapper, keyed by the player's class
   * name: None stands for a null bid, a timeout or an exception.
   */
  type Strategy = (string, RoundView, seq<Die>) -> Option<Bid>

  /** The three ways to lose a round without a showdown. */
  datatype Forfeit = NoBid | TooLow | FirstBidBS

  datatype RoundOutcome =
    | Forfeited(reason: Forfeit, winner: nat, loser: nat)
    | Showdown(defender: nat, challenger: nat, defended: bool, trueCount: int)
    | OutOfFuel

  /** The player who loses a die at the end of a round. */
  function Loser(o: RoundOutcome): nat
    requires !o.OutOfFuel?
  {
    match o
    case Forfeited(_, _, loser) => loser
    case Showdown(defender, challenger, defended, _) => if defended then challenger else defender
  }

  /** The player d places before player c at a table of n, wrapping around below 0. */
  function Behind(c: nat, d: nat, n: nat): (r: nat)
    requires c < n && d <= n
    ensures r < n && (if r + d < n then r + d else r + d - n) == c
  {
    if c >= d then c - d else c + n - d
  }

  /**
   * The showdown verdict when the player after the challenger is c at a
   * table of n: the challenger sits one place back and the bidder of `bid`
   * two, and the bid is defended if the dice on the table bear it out.
   */
  function Verdict(c: nat, n: nat, bid: Bid, dice: seq<seq<Die>>): (r: RoundOutcome)
    requires MIN_NUM_PLAYERS <= n && c < n
    ensures r.Showdown? && r.defender < n && r.challenger < n
    ensures r.challenger == (if c == 0 then n - 1 else c - 1)
    ensures r.defender == (if r.challenger == 0 then n - 1 else r.challenger - 1)
    ensures r.trueCount == CountAll(dice, Dots(bid))
    ensures Loser(r) == r.challenger <==> NumDice(bid) <= r.trueCount
  {
    var trueCount := CountAll(dice, Dots(bid));
    Showdown(Behind(c, 2, n), Behind(c, 1, n),
             NumDice(bid) <= trueCount, trueCount)
  }

  /** How one game ends. */
  datatype GameOutcome =
    | Winner(name: string)
    | NotEnoughPlayers   // loadPlayers threw: fewer than two players configured
    | RoundFailed        // the first round could not seat the current player
    | GameOutOfFuel      // a round's bidding did not end within the fuel bound

  /** The seating of a round that starts at `start`: s[start], s[start + 1], ..., wrapping around. */
  function Rotate<T>(s: seq<T>, start: nat): (r: seq<T>)
    requires start <= |s|
    ensures |r| == |s|
  {
    s[start..] + s[..start]
  }

  /** `s` without the element at index i, as ArrayList.remove(int) leaves it. */
  function Remove<T>(s: seq<T>, i: nat): (r: seq<T>)
    requires i < |s|
    ensures |r| == |s| - 1
  {
    s[..i] + s[i + 1..]
  }

  /** Number of dice in a list of cups. */
  function DiceCount(cs: seq<seq<Die>>): nat {
    if |cs| == 0 then 0 else DiceCount(cs[..|cs| - 1]) + |cs[|cs| - 1]|
  }

  /** Number of dice showing `face` in a list of cups. */
  function CountAll(cs: seq<seq<Die>>, face: int): nat {
    if |cs| == 0 then 0 else CountAll(cs[..|cs| - 1], face) + CountFace(cs[|cs| - 1], face)
  }

  /** All dice of a list of cups, cup after cup. */
  function Flatten(cs: seq<seq<Die>>): (ds: seq<Die>)
    ensures |ds| == DiceCount(cs)
  {
    if |cs| == 0 then [] else Flatten(cs[..|cs| - 1]) + cs[|cs| - 1]
  }

  lemma {:induction false} CountFaceAppend(a: seq<Die>, b: seq<Die>, face: int)
    ensures CountFace(a + b, face) == CountFace(a, face) + CountFace(b, face)
  {
    if |b| == 0 {
      assert a + b == a;
    } else {
      CountFaceAppend(a, b[..|b| - 1], face);
      assert (a + b)[..|a + b| - 1] == a + b[..|b| - 1];
    }
  }

  /** Counting cup by cup is counting the dice of all cups together. */
  lemma {:induction false} CountAllIsTally(cs: seq<seq<Die>>, face: int)
    ensures CountAll(cs, face) == CountFace(Flatten(cs), face)
    ensures CountAll(cs, face) == multiset(Faces(Flatten(cs)))[face]
  {
    if |cs| > 0 {
      CountAllIsTally(cs[..|cs| - 1], face);
      CountFaceAppend(Flatten(cs[..|cs| - 1]), cs[|cs| - 1], face);
    }
    CountFaceIsMultiplicity(Flatten(cs), face);
  }

  lemma {:induction false} CountAllAppend(a: seq<seq<Die>>, b: seq<seq<Die>>, face: int)
    ensures CountAll(a + b, face) == CountAll(a, face) + CountAll(b, face)
  {
    if |b| == 0 {
      assert a + b == a;
    } else {
      CountAllAppend(a, b[..|b| - 1], face);
      assert (a + b)[..|a + b| - 1] == a + b[..|b| - 1];
    }
  }

  /** The seating order does not change how many dice show a face. */
  lemma CountAllRotate(cs: seq<seq<Die>>, start: nat, face: int)
    requires start <= |cs|
    ensures CountAll(Rotate(cs, start), face) == CountAll(cs, face)
  {
    CountAllAppend(cs[start..], cs[..start], face);
    CountAllAppend(cs[..start], cs[start..], face);
    assert cs[..start] + cs[start..] == cs;
  }

  lemma {:induction false} DiceCountAppend(a: seq<seq<Die>>, b: seq<seq<Die>>)
    ensures DiceCount(a + b) == DiceCount(a) + DiceCount(b)
  {
    if |b| == 0 {
      assert a + b == a;
    } else {
      DiceCountAppend(a, b[..|b| - 1]);
      assert (a + b)[..|a + b| - 1] == a + b[..|b| - 1];
    }
  }

  /** Replacing one cup changes the total by the difference in its size. */
  lemma DiceCountUpdate(cs: seq<seq<Die>>, i: nat, x: seq<Die>)
    requires i < |cs|
    ensures DiceCount(cs[i := x]) == DiceCount(cs) - |cs[i]| + |x|
  {
    assert cs == cs[..i] + [cs[i]] + cs[i + 1..];
    assert cs[i := x] == cs[..i] + [x] + cs[i + 1..];
    DiceCountAppend(cs[..i] + [cs[i]], cs[i + 1..]);
    DiceCountAppend(cs[..i], [cs[i]]);
    DiceCountAppend(cs[..i] + [x], cs[i + 1..]);
    DiceCountAppend(cs[..i], [x]);
  }

  /** Dropping one cup drops its dice from the total. */
  lemma DiceCountRemove(cs: seq<seq<Die>>, i: nat)
    requires i < |cs|
    ensures DiceCount(Remove(cs, i)) == DiceCount(cs) - |cs[i]|
  {
    assert cs == cs[..i] + [cs[i]] + cs[i + 1..];
    DiceCountAppend(cs[..i] + [cs[i]], cs[i + 1..]);
    DiceCountAppend(cs[..i], [cs[i]]);
    DiceCountAppend(cs[..i], cs[i + 1..]);
  }

  /**
   * Java's `(i + d) % n` for a seat i < n moved on by 0 <= d <= n places:
   * the sum is below 2n, so the remainder wraps around at most once.
   */
  method Advance(i: int, d: int, n: int) returns (r: int)
    requires 0 <= i < n && 0 <= d <= n
    ensures r == if i + d < n then i + d else i + d - n
  {
    r := (i + d) % n;
    if i + d < n {
      ModSmall(i + d, n);
    } else {
      ModUnique(i + d, n, 1, i + d - n);
    }
  }

  /** The seat of turn k at a table of n: k mod n, counted out without division. */
  function SeatOf(k: nat, n: nat): (s: nat)
    requires n > 0
    ensures s < n
    decreases k
  {
    if k < n then k else SeatOf(k - n, n)
  }

  lemma {:induction false} SeatOfIsMod(k: nat, n: nat)
    requires n > 0
    ensures SeatOf(k, n) == k % n
    decreases k
  {
    if k < n {
      ModSmall(k, n);
    } else {
      SeatOfIsMod(k - n, n);
      ModShift(k - n, n);
    }
  }

  /** The turn after k is at the next seat, wrapping around to seat 0. */
  lemma {:induction false} SeatOfNext(k: nat, n: nat)
    requires n > 0
    ensures SeatOf(k + 1, n) == if SeatOf(k, n) + 1 < n then SeatOf(k, n) + 1 else 0
    decreases k
  {
    if k + 1 < n {
    } else if k < n {
      assert SeatOf(k + 1 - n, n) == 0;
    } else {
      SeatOfNext(k - n, n);
    }
  }

  /** The turn d before k is d seats back, wrapping around below seat 0. */
  lemma {:induction false} SeatOfBack(k: nat, d: nat, n: nat)
    requires n > 0 && d <= k && d <= n
    ensures SeatOf(k - d, n) == if SeatOf(k, n) >= d then SeatOf(k, n) - d else SeatOf(k, n) + n - d
    decreases k
  {
    if k >= n && k - d >= n {
      SeatOfBack(k - n, d, n);
      assert k - d - n == (k - n) - d;
    } else if k >= n {
      assert SeatOf(k - n, n) == k - n;
    }
  }

  /** The player index of seat `seat` in a round seated from player `start`. */
  function PlayerAt(start: nat, seat: nat, n: nat): (i: nat)
    requires start < n && seat < n
    ensures i < n
  {
    if start + seat < n then start + seat else start + seat - n
  }

  /** The player d turns before turn k, for d at most one lap back. */
  lemma PlayerAtBack(start: nat, k: nat, d: nat, n: nat)
    requires start < n && d <= k && d <= n
    ensures var c := PlayerAt(start, SeatOf(k, n), n);
            PlayerAt(start, SeatOf(k - d, n), n) == Behind(c, d, n)
  {
    SeatOfBack(k, d, n);
  }

  /** Seat k of a rotation starting at `start` holds the player at that index. */
  lemma RotateAt<T>(s: seq<T>, start: nat, k: nat)
    requires start < |s| && k < |s|
    ensures Rotate(s, start)[k] == s[PlayerAt(start, k, |s|)]
  {
  }

  /**
   * When the turn is at m, the bid made d turns back (d at most one lap)
   * carries the name of the player d places before the current player c.
   */
  lemma BidderBehind(players: seq<string>, names: seq<string>, counts: seq<int>, start: nat, b: seq<Bid>,
                     c: nat, d: nat)
    requires start < |players| && 1 <= d <= |b| && d <= |players|
    requires names == Rotate(players, start) && |counts| == |names| && Tagged(b, names, counts)
    requires c == PlayerAt(start, SeatOf(|b|, |players|), |players|)
    ensures b[|b| - d].playerName == Some(players[Behind(c, d, |players|)])
  {
    var n, s := |players|, SeatOf(|b| - d, |players|);
    assert b[|b| - d].playerName == Some(names[s]);
    PlayerAtBack(start, |b|, d, n);
    RotateAt(players, start, s);
  }

  /**
   * A b.s. call closing a round seated from `start` leaves what the
   * showdown needs: the caller and the bidder called one and two places
   * before the current player c, and the seated cups hold the dice of the table.
   */
  lemma ShowdownReady(players: seq<string>, names: seq<string>, counts: seq<int>, dice: seq<seq<Die>>, start: nat,
                      b: seq<Bid>, cups: seq<seq<Die>>, c: nat)
    requires 2 <= |players| && start < |players| && 2 <= |b|
    requires names == Rotate(players, start) && |counts| == |names| && Tagged(b, names, counts)
    requires start <= |dice| && cups == Rotate(dice, start)
    requires c == PlayerAt(start, SeatOf(|b|, |players|), |players|)
    ensures b[|b| - 1].playerName == Some(players[Behind(c, 1, |players|)])
    ensures b[|b| - 2].playerName == Some(players[Behind(c, 2, |players|)])
    ensures CountAll(cups, Dots(b[|b| - 2])) == CountAll(dice, Dots(b[|b| - 2]))
  {
    BidderBehind(players, names, counts, start, b, c, 1);
    BidderBehind(players, names, counts, start, b, c, 2);
    CountAllRotate(dice, start, Dots(b[|b| - 2]));
  }

  /**
   * What settling the round needs to know about the way the bidding ended,
   * with c the current player: the seat that gave no answer, the author of
   * the offending bid, or the challenger and bidder of a b.s. call.
   */
  ghost predicate Ready(exit: BidExit, players: seq<string>, names: seq<string>, b: seq<Bid>,
                        dice: seq<seq<Die>>, cups: seq<seq<Die>>, c: nat)
    requires 2 <= |players| == |names| && c < |players|
  {
    var n := |players|;
    match exit
    case NullBid => names[SeatOf(|b|, n)] == players[c]
    case LowBid => |b| > 0 && b[|b| - 1].playerName == Some(players[c])
    case OpeningBS => |b| > 0 && b[|b| - 1].playerName == Some(players[c])
    case Called =>
      && |b| >= 2
      && b[|b| - 1].playerName == Some(players[Behind(c, 1, n)])
      && b[|b| - 2].playerName == Some(players[Behind(c, 2, n)])
      && CountAll(cups, Dots(b[|b| - 2])) == CountAll(dice, Dots(b[|b| - 2]))
    case Exhausted => true
  }

  /** A round seated from `start` and tagged by seat is ready to be settled whichever way its bidding ended. */
  lemma RoundReady(exit: BidExit, players: seq<string>, names: seq<string>,
                   counts: seq<int>, dice: seq<seq<Die>>, start: nat, b: seq<Bid>, cups: seq<seq<Die>>, c: nat)
    requires 2 <= |players| && start < |players|
    requires names == Rotate(players, start) && |counts| == |names| && Tagged(b, names, counts)
    requires start <= |dice| && cups == Rotate(dice, start)
    requires exit == Called ==> |b| >= 2
    requires exit == LowBid || exit == OpeningBS ==> |b| >= 1
    requires c == PlayerAt(start, SeatOf(TurnAt(exit, |b|), |players|), |players|)
    ensures Ready(exit, players, names, b, dice, cups, c)
  {
    var n := |players|;
    match exit
    case NullBid =>
      RotateAt(players, start, SeatOf(|b|, n));
    case Called =>
      ShowdownReady(players, names, counts, dice, start, b, cups, c);
    case Exhausted =>
    case _ =>
      var s := SeatOf(|b| - 1, n);
      assert b[|b| - 1].playerName == Some(names[s]);
      RotateAt(players, start, s);
  }

  /** Every bid after the first outbids the one before it. */
  ghost predicate Raises(bids: seq<Bid>) {
    |bids| <= 1 || (Raises(bids[..|bids| - 1]) && Bids.Compare(bids[|bids| - 1], Some(bids[|bids| - 2])) == 1)
  }

  /** The bids of a raising history, up to any point, still raise. */
  lemma {:induction false} RaisesPrefix(bids: seq<Bid>, m: nat)
    requires Raises(bids) && m <= |bids|
    ensures Raises(bids[..m])
    decreases |bids| - m
  {
    if m == |bids| {
      assert bids[..m] == bids;
    } else {
      RaisesPrefix(bids[..|bids| - 1], m);
      assert bids[..|bids| - 1][..m] == bids[..m];
    }
  }

  /** In a raising history each bid outbids the one just before it. */
  lemma RaisesStep(bids: seq<Bid>, j: nat)
    requires Raises(bids) && 0 < j < |bids|
    ensures Bids.Compare(bids[j], Some(bids[j - 1])) == 1
  {
    RaisesPrefix(bids, j + 1);
  }

  /** A bid that outbids the last one extends a raising history. */
  lemma RaisesExtend(bids: seq<Bid>, b: Bid)
    requires Raises(bids)
    requires |bids| > 0 ==> Bids.Compare(b, Some(bids[|bids| - 1])) == 1
    ensures Raises(bids + [b])
  {
    assert (bids + [b])[..|bids|] == bids;
  }

  /** No bid is a call of b.s. */
  ghost predicate ClaimsOnly(bids: seq<Bid>) {
    forall k :: 0 <= k < |bids| ==> !bids[k].isBS
  }

  /** Bid k carries the name and the dice count of seat k mod the roster size. */
  ghost predicate Tagged(bids: seq<Bid>, names: seq<string>, numDice: seq<int>)
    requires |names| == |numDice| > 0
  {
    forall k :: 0 <= k < |bids| ==>
      && bids[k].playerName == Some(names[SeatOf(k, |names|)])
      && bids[k].playerNumDice == numDice[SeatOf(k, |names|)]
  }

  /** An accepted sequence of bids strictly increases: each outbids every earlier one. */
  lemma {:induction false} RaisesIncreasing(bids: seq<Bid>, i: nat, j: nat)
    requires Raises(bids) && i < j < |bids|
    ensures Bids.Compare(bids[j], Some(bids[i])) == 1
    decreases j - i
  {
    RaisesStep(bids, i + 1);
    if i + 1 < j {
      RaisesIncreasing(bids, i + 1, j);
      CompareTransitive(bids[j], bids[i + 1], bids[i]);
    }
  }

  /** The referee's marks on an answer: the bidder's dice count, then the bidder's name. */
  function Stamp(b: Bid, count: int, name: string): (r: Bid)
    ensures r.playerNumDice == count && r.playerName == Some(name)
    ensures r.isBS == b.isBS && NumDice(r) == NumDice(b) && Dots(r) == Dots(b)
    ensures forall other :: Bids.Compare(r, other) == Bids.Compare(b, other)
  {
    SetPlayerSimpleClassName(SetPlayerNumDice(b, count), name)
  }

  /**
   * Bid k is the answer of the player at seat k mod n, asked with the round
   * so far and that player's own dice, stamped with the seat's dice count
   * and name.
   */
  ghost predicate AnswerAt(ask: Strategy, names: seq<string>, numDice: seq<int>, cups: seq<seq<Die>>,
                           bids: seq<Bid>, k: nat)
    requires |names| == |numDice| == |cups| > 0 && k < |bids|
  {
    var s := SeatOf(k, |names|);
    var answer := ask(names[s], RoundView(names, numDice, bids[..k]), cups[s]);
    answer.Some? && bids[k] == Stamp(answer.value, numDice[s], names[s])
  }

  /** Every recorded bid is a stamped answer of the player whose turn it was. */
  ghost predicate Answered(ask: Strategy, names: seq<string>, numDice: seq<int>, cups: seq<seq<Die>>,
                           bids: seq<Bid>)
    requires |names| == |numDice| == |cups| > 0
  {
    forall k :: 0 <= k < |bids| ==> AnswerAt(ask, names, numDice, cups, bids, k)
  }

  /** Recording one more answer keeps the earlier ones answered. */
  lemma AnsweredExtend(ask: Strategy, names: seq<string>, numDice: seq<int>, cups: seq<seq<Die>>,
                       bids: seq<Bid>, b: Bid)
    requires |names| == |numDice| == |cups| > 0
    requires Answered(ask, names, numDice, cups, bids)
    requires AnswerAt(ask, names, numDice, cups, bids + [b], |bids|)
    ensures Answered(ask, names, numDice, cups, bids + [b])
  {
    forall k | 0 <= k < |bids|
      ensures AnswerAt(ask, names, numDice, cups, bids + [b], k)
    {
      assert AnswerAt(ask, names, numDice, cups, bids, k);
      assert (bids + [b])[..k] == bids[..k] && (bids + [b])[k] == bids[k];
    }
  }

  /** Answered bids carry the name and the dice count of the seat that made them. */
  lemma AnsweredTagged(ask: Strategy, names: seq<string>, numDice: seq<int>, cups: seq<seq<Die>>,
                       bids: seq<Bid>)
    requires |names| == |numDice| == |cups| > 0
    requires Answered(ask, names, numDice, cups, bids)
    ensures Tagged(bids, names, numDice)
  {
    forall k | 0 <= k < |bids|
      ensures bids[k].playerName == Some(names[SeatOf(k, |names|)])
      ensures bids[k].playerNumDice == numDice[SeatOf(k, |names|)]
    {
      assert AnswerAt(ask, names, numDice, cups, bids, k);
    }
  }

  /** How the bidding loop of playRound was left. */
  datatype BidExit =
    | NullBid     // the player had no answer
    | LowBid      // the answer did not outbid the highest bid
    | OpeningBS   // the round's first answer called b.s.
    | Called      // a later answer called b.s.: a showdown follows
    | Exhausted   // the fuel bound on the number of bids was reached

  /**
   * What the bidding loop has established when it is left through `exit`,
   * about the bids `b` of a round seated as names/counts/cups.
   */
  ghost predicate ExitFacts(exit: BidExit, ask: Strategy, fuel: nat, names: seq<string>, counts: seq<int>,
                            cups: seq<seq<Die>>, b: seq<Bid>)
    requires |names| == |counts| == |cups| > 0
  {
    var s := SeatOf(|b|, |names|);
    match exit
    case NullBid =>
      && |b| < fuel && ClaimsOnly(b) && Raises(b)
      && ask(names[s], RoundView(names, counts, b), cups[s]).None?
    case LowBid =>
      && 2 <= |b| <= fuel && ClaimsOnly(b) && Raises(b[..|b| - 1])
      && Bids.Compare(b[|b| - 1], Some(b[|b| - 2])) < 1
    case OpeningBS =>
      |b| == 1 <= fuel && b[0].isBS
    case Called =>
      && 2 <= |b| <= fuel && ClaimsOnly(b[..|b| - 1]) && b[|b| - 1].isBS && Raises(b)
    case Exhausted =>
      |b| == fuel && ClaimsOnly(b) && Raises(b)
  }

  /** The bids a way out of the bidding loop leaves behind. */
  lemma ExitLengths(exit: BidExit, ask: Strategy, fuel: nat, names: seq<string>, counts: seq<int>,
                    cups: seq<seq<Die>>, b: seq<Bid>)
    requires |names| == |counts| == |cups| > 0
    requires ExitFacts(exit, ask, fuel, names, counts, cups, b)
    ensures exit == Called || exit == LowBid ==> |b| >= 2
    ensures exit == OpeningBS ==> |b| == 1
    ensures |b| <= fuel
  {
  }

  /**
   * The turn the current player is left at: the offending bid's for a low
   * or opening b.s. bid, otherwise the turn after the last recorded bid.
   */
  function TurnAt(exit: BidExit, numBids: nat): nat {
    if (exit == LowBid || exit == OpeningBS) && numBids > 0 then numBids - 1 else numBids
  }

  /** The way out of the bidding loop that leads to each round outcome. */
  function ExitOf(o: RoundOutcome): BidExit {
    match o
    case Forfeited(reason, _, _) => (match reason case NoBid => NullBid case TooLow => LowBid case FirstBidBS => OpeningBS)
    case Showdown(_, _, _, _) => Called
    case OutOfFuel => Exhausted
  }

  /** The dice of each cup, in order. */
  function DiceOf(pc: seq<Cup>): (cs: seq<seq<Die>>)
    reads pc
    ensures |cs| == |pc| && forall i :: 0 <= i < |pc| ==> cs[i] == pc[i].dice
  {
    seq(|pc|, i reads pc requires 0 <= i < |pc| => pc[i].dice)
  }

  /**
   * The cups after `loser` lost a die: the first (lowest) die of a sorted
   * cup goes, and an emptied cup leaves the list.
   */
  function Punished(cs: seq<seq<Die>>, loser: nat): (r: seq<seq<Die>>)
    requires loser < |cs| && |cs[loser]| > 0
  {
    if |cs[loser]| > 1 then cs[loser := cs[loser][1..]] else Remove(cs, loser)
  }

  /** The number of dice in each cup. */
  function SizesOf(cs: seq<seq<Die>>): (ns: seq<int>)
    ensures |ns| == |cs| && forall i :: 0 <= i < |cs| ==> ns[i] == |cs[i]|
  {
    seq(|cs|, i requires 0 <= i < |cs| => |cs[i]|)
  }

  /** The dice counts after `loser` lost a die: a count that reaches zero leaves the list. */
  function Shrunk(sizes: seq<int>, loser: nat): (r: seq<int>)
    requires loser < |sizes|
  {
    if sizes[loser] > 1 then sizes[loser := sizes[loser] - 1] else Remove(sizes, loser)
  }

  lemma {:induction false} SumConcat(a: seq<int>, b: seq<int>)
    ensures Sum(a + b) == Sum(a) + Sum(b)
  {
    if |b| > 0 {
      SumConcat(a, b[..|b| - 1]);
      assert (a + b)[..|a + b| - 1] == a + b[..|b| - 1];
    } else {
      assert a + b == a;
    }
  }

  /** Changing one count changes the sum by the difference. */
  lemma SumUpdate(s: seq<int>, i: nat, x: int)
    requires i < |s|
    ensures Sum(s[i := x]) == Sum(s) - s[i] + x
  {
    var front, back := s[..i], s[i + 1..];
    assert s == (front + [s[i]]) + back;
    assert s[i := x] == (front + [x]) + back;
    SumConcat(front + [s[i]], back);
    SumConcat(front + [x], back);
    SumAppend(front, s[i]);
    SumAppend(front, x);
  }

  /** Dropping one count drops it from the sum. */
  lemma SumRemove(s: seq<int>, i: nat)
    requires i < |s|
    ensures Sum(Remove(s, i)) == Sum(s) - s[i]
  {
    var front, back := s[..i], s[i + 1..];
    assert s[..i + 1] == front + [s[i]];
    assert s == s[..i + 1] + back;
    SumConcat(s[..i + 1], back);
    SumAppend(front, s[i]);
    SumConcat(front, back);
  }

  /** The referee's view of the table: live players, their dice counts, whose turn it is. */
  datatype Table = Table(players: seq<string>, sizes: seq<int>, current: int)

  /**
   * The table of players p with dice counts sizes after `loser` lost a die:
   * a player left without dice is gone, and the turn is with the player
   * after the loser.
   */
  function Penalty(p: seq<string>, sizes: seq<int>, loser: nat): (r: Table)
    requires loser < |p| == |sizes|
  {
    var n := |p|;
    Table(if sizes[loser] > 1 then p else Remove(p, loser),
          Shrunk(sizes, loser),
          if loser + 1 == n then 0 else if sizes[loser] > 1 then loser + 1 else loser)
  }

  /**
   * The penalty keeps the table consistent: one die fewer, the players and
   * the counts still parallel, the turn with a seated player, and a player
   * leaves exactly when the last die goes.
   */
  lemma PenaltyKeepsTable(p: seq<string>, sizes: seq<int>, loser: nat)
    requires loser < |p| == |sizes|
    requires forall i :: 0 <= i < |sizes| ==> sizes[i] >= 1
    ensures var r := Penalty(p, sizes, loser);
            && |r.players| == |r.sizes|
            && Sum(r.sizes) == Sum(sizes) - 1
            && (forall i :: 0 <= i < |r.sizes| ==> r.sizes[i] >= 1)
            && (|r.players| < |p| <==> sizes[loser] == 1)
            && (|r.players| > 0 ==> 0 <= r.current < |r.players|)
  {
    var r := Penalty(p, sizes, loser);
    if sizes[loser] > 1 {
      SumUpdate(sizes, loser, sizes[loser] - 1);
    } else {
      SumRemove(sizes, loser);
      forall i | 0 <= i < |r.sizes|
        ensures r.sizes[i] >= 1
      {
        assert r.sizes[i] == sizes[if i < loser then i else i + 1];
      }
    }
  }

  /**
   * How a round that ended in `outcome` was settled: p0 and sizes0 are the
   * players and their dice counts before it and t the table after, names,
   * bids and cups are the round's record (cups shown or not), and rounds0
   * and rounds are the archive before and after. Says who lost a die and
   * why, and which records were archived.
   */
  ghost predicate Settled(outcome: RoundOutcome, p0: seq<string>, sizes0: seq<int>, t: Table, names: seq<string>,
                          bids: seq<Bid>, cups: seq<seq<Die>>, shown: bool,
                          rounds0: seq<RoundState>, rounds: seq<RoundState>, rs: RoundState)
  {
    var n, b := |p0|, bids;
    && n == |sizes0| == |names| && n >= MIN_NUM_PLAYERS
    && match outcome
       case OutOfFuel =>
         !shown && rounds == rounds0 && t.players == p0 && t.sizes == sizes0
       case Forfeited(reason, winner, loser) =>
         && loser < n && winner == Behind(loser, 1, n)
         && shown && t == Penalty(p0, sizes0, loser)
         && (match reason
             case NoBid => names[SeatOf(|b|, n)] == p0[loser] && rounds == rounds0
             case _ => |b| > 0 && b[|b| - 1].playerName == Some(p0[loser]) && rounds == rounds0 + [rs, rs])
       case Showdown(defender, challenger, defended, trueCount) =>
         && |b| >= 2 && challenger < n && defender == Behind(challenger, 1, n)
         && b[|b| - 2].playerName == Some(p0[defender]) && b[|b| - 1].playerName == Some(p0[challenger])
         && trueCount == CountAll(cups, Dots(b[|b| - 2]))
         && (defended <==> NumDice(b[|b| - 2]) <= trueCount)
         && shown && t == Penalty(p0, sizes0, Loser(outcome))
         && rounds == rounds0 + [rs]
  }
  /** A penalty keeps only players who were seated. */
  lemma PenaltyMembers(p: seq<string>, sizes: seq<int>, loser: nat)
    requires loser < |p| == |sizes|
    ensures forall x :: x in Penalty(p, sizes, loser).players ==> x in p
  {
    if sizes[loser] <= 1 {
      RemoveMembers(p, loser);
    }
  }

  /**
   * Every round that ends without running out of fuel costs the table
   * exactly one die and at most one player; someone is always left.
   */
  lemma SettledShrinks(outcome: RoundOutcome, p0: seq<string>, sizes0: seq<int>, t: Table, names: seq<string>,
                       bids: seq<Bid>, cups: seq<seq<Die>>, shown: bool,
                       rounds0: seq<RoundState>, rounds: seq<RoundState>, rs: RoundState)
    requires Settled(outcome, p0, sizes0, t, names, bids, cups, shown, rounds0, rounds, rs)
    requires !outcome.OutOfFuel? && |p0| == |sizes0|
    requires forall i :: 0 <= i < |sizes0| ==> sizes0[i] >= 1
    ensures |t.players| == |t.sizes| && 1 <= |p0| - 1 <= |t.players| <= |p0|
    ensures Sum(t.sizes) == Sum(sizes0) - 1
    ensures forall x :: x in t.players ==> x in p0
    ensures 0 <= t.current < |t.players|
  {
    var loser := Loser(outcome);
    PenaltyKeepsTable(p0, sizes0, loser);
    PenaltyMembers(p0, sizes0, loser);
  }


  /** Each round's penalty takes exactly one die off the table. */
  lemma PunishedCount(cs: seq<seq<Die>>, loser: nat)
    requires loser < |cs| && |cs[loser]| > 0
    ensures DiceCount(Punished(cs, loser)) == DiceCount(cs) - 1
  {
    if |cs[loser]| > 1 {
      DiceCountUpdate(cs, loser, cs[loser][1..]);
    } else {
      DiceCountRemove(cs, loser);
    }
  }

  /** Punishing the dice shrinks their counts the same way. */
  lemma SizesOfPunished(cs: seq<seq<Die>>, loser: nat)
    requires loser < |cs| && |cs[loser]| > 0
    ensures SizesOf(Punished(cs, loser)) == Shrunk(SizesOf(cs), loser)
  {
  }

  /** The number of dice on the table depends only on how many each cup holds. */
  lemma {:induction false} DiceCountIsSum(cs: seq<seq<Die>>)
    ensures DiceCount(cs) == Sum(SizesOf(cs))
  {
    if |cs| > 0 {
      DiceCountIsSum(cs[..|cs| - 1]);
      assert SizesOf(cs)[..|cs| - 1] == SizesOf(cs[..|cs| - 1]);
    }
  }

  /** Removing an element keeps only elements that were there. */
  lemma RemoveMembers<T>(s: seq<T>, i: nat)
    requires i < |s|
    ensures forall x :: x in Remove(s, i) ==> x in s
  {
    forall x | x in Remove(s, i)
      ensures x in s
    {
      if x !in s[..i] {
        assert x in s[i + 1..];
      }
    }
  }

  lemma RemoveUpdate<T>(s: seq<T>, i: nat, x: T)
    requires i < |s|
    ensures Remove(s[i := x], i) == Remove(s, i)
  {
    assert Remove(s[i := x], i) == Remove(s, i);
  }

  /** No cup object appears twice. */
  ghost predicate DistinctCups(pc: seq<Cup>) {
    forall i, j :: 0 <= i < j < |pc| ==> pc[i] != pc[j]
  }

  /** Every cup is sorted, well formed and holds at least one die. */
  ghost predicate ValidCups(pc: seq<Cup>)
    reads pc
  {
    && (forall i {:trigger pc[i].Valid()} :: 0 <= i < |pc| ==> pc[i].Valid())
    && (forall i :: 0 <= i < |pc| ==> |pc[i].dice| > 0)
  }

  /** Taking an emptied cup out of the list keeps the others as they were. */
  lemma RemoveCup(pc: seq<Cup>, i: nat)
    requires i < |pc| && DistinctCups(pc)
    requires forall j :: 0 <= j < |pc| && j != i ==> pc[j].Valid() && |pc[j].dice| > 0
    ensures DistinctCups(Remove(pc, i)) && ValidCups(Remove(pc, i))
    ensures DiceOf(Remove(pc, i)) == Remove(DiceOf(pc), i)
  {
    var r := Remove(pc, i);
    forall j | 0 <= j < |r|
      ensures r[j] == pc[if j < i then j else j + 1]
    {
    }
  }

  class GameServer {
    var players: seq<string>
    var playerCups: seq<Cup>
    var rs: RoundState
    var gamestate: GameState
    var currentPlayer: int

    /** One distinct, valid, non-empty cup per live player. */
    ghost predicate CupsValid()
      reads this`players, this`playerCups, playerCups
    {
      |playerCups| == |players| && DistinctCups(playerCups) && ValidCups(playerCups)
    }

    /** Between rounds: the cups are in order and the current player is seated. */
    ghost predicate Valid()
      reads this`players, this`playerCups, this`currentPlayer, playerCups
    {
      CupsValid() && (|players| > 0 ==> 0 <= currentPlayer < |players|)
    }

    /** The dice of every live cup, in player order. */
    function CupDice(): seq<seq<Die>>
      reads this`playerCups, playerCups
    {
      DiceOf(playerCups)
    }

    /** getNumDice() of every live cup, in player order. */
    function CupSizes(): (ns: seq<int>)
      reads this`playerCups, playerCups
      ensures |ns| == |playerCups| && forall i :: 0 <= i < |playerCups| ==> ns[i] == |playerCups[i].dice|
    {
      SizesOf(CupDice())
    }

    /** The live dice on the table. */
    function TotalDice(): nat
      reads this`playerCups, playerCups
    {
      DiceCount(CupDice())
    }

    /** The table as the referee sees it. */
    function Seats(): Table
      reads this`players, this`playerCups, this`currentPlayer, playerCups
    {
      Table(players, CupSizes(), currentPlayer)
    }

    /**
     * GameServer(): no players, no cups, the first player to start. The round
     * and game records, null until the first game, start out empty here.
     */
    constructor(now: int)
      ensures players == [] && playerCups == [] && currentPlayer == 0
      ensures fresh(rs) && fresh(gamestate) && gamestate.rounds == []
    {
      players, playerCups, currentPlayer := [], [], 0;
      rs := new RoundState();
      gamestate := new GameState(now);
    }

    /**
     * loadPlayers: the configured players, in order, replace the list; fewer
     * than two makes it throw after the list has been filled.
     */
    method LoadPlayers(configured: seq<string>) returns (ok: bool)
      modifies this
      ensures ok <==> |configured| >= MIN_NUM_PLAYERS
      ensures players == configured
      ensures playerCups == old(playerCups) && currentPlayer == old(currentPlayer)
      ensures rs == old(rs) && gamestate == old(gamestate)
    {
      var loaded: seq<string> := [];
      for i := 0 to |configured|
        invariant loaded == configured[..i]
      {
        loaded := loaded + [configured[i]];
      }
      assert configured[..|configured|] == configured;
      players := loaded;
      ok := |players| >= MIN_NUM_PLAYERS;
    }

    /** makeCups: a fresh cup of five rolled six-sided dice for every player. */
    method MakeCups()
      modifies this
      ensures CupsValid()
      ensures forall i :: 0 <= i < |playerCups| ==> fresh(playerCups[i])
      ensures forall i :: 0 <= i < |playerCups| ==> |playerCups[i].dice| == DEFAULT_NUM_DICE
      ensures forall i, d :: 0 <= i < |playerCups| && d in playerCups[i].dice ==> d.sides == DEFAULT_NUM_SIDES
      ensures TotalDice() == DEFAULT_NUM_DICE * |players|
      ensures players == old(players) && currentPlayer == old(currentPlayer)
      ensures rs == old(rs) && gamestate == old(gamestate)
    {
      var cups: seq<Cup> := [];
      ghost var dice: seq<seq<Die>> := [];
      var i := |players|;
      while i > 0
        modifies {}
        invariant 0 <= i <= |players| && |cups| == |players| - i && |dice| == |cups|
        invariant forall k :: 0 <= k < |cups| ==> fresh(cups[k])
        invariant forall k, l :: 0 <= k < l < |cups| ==> cups[k] != cups[l]
        invariant forall k :: 0 <= k < |cups| ==>
                    cups[k].Valid() && cups[k].dice == dice[k] && |dice[k]| == DEFAULT_NUM_DICE
        invariant forall k, d :: 0 <= k < |cups| && d in cups[k].dice ==> d.sides == DEFAULT_NUM_SIDES
        invariant DiceCount(dice) == DEFAULT_NUM_DICE * |cups|
      {
        i := i - 1;
        var made := Cup.Create(DEFAULT_NUM_DICE, DEFAULT_NUM_SIDES);
        var cup := made.value;
        DiceCountAppend(dice, [cup.dice]);
        assert [cup.dice][..0] == [];
        cups := cups + [cup];
        dice := dice + [cup.dice];
      }
      playerCups := cups;
      assert CupDice() == dice;
    }

    /** shakeCups: every cup is shaken; each keeps its number of dice. */
    method ShakeCups()
      requires CupsValid()
      modifies playerCups
      ensures CupsValid()
      ensures CupSizes() == old(CupSizes())
    {
      ghost var sizes := CupSizes();
      for i := 0 to |playerCups|
        invariant forall j :: 0 <= j < |playerCups| ==>
                    playerCups[j].Valid() && |playerCups[j].dice| == sizes[j]
      {
        playerCups[i].Shake();
      }
    }

    /** getNumDice(dots): the dice showing `dots` across all live cups. */
    method NumDiceShowing(dots: int) returns (quantity: int)
      ensures quantity == CountAll(CupDice(), dots)
      ensures quantity == multiset(Faces(Flatten(CupDice())))[dots]
    {
      quantity := 0;
      for i := 0 to |playerCups|
        invariant quantity == CountAll(CupDice()[..i], dots)
      {
        var n := playerCups[i].CountDots(dots);
        assert CupDice()[..i + 1][..i] == CupDice()[..i];
        quantity := quantity + n;
      }
      assert CupDice()[..|playerCups|] == CupDice();
      CountAllIsTally(CupDice(), dots);
    }

    /**
     * prepareNewRound: shakes the cups and records a new round seated from
     * player `start` on: names, dice counts and cup copies in that order.
     */
    method PrepareNewRound(start: int)
      requires CupsValid() && 0 <= start < |players|
      modifies this`rs, playerCups
      ensures CupsValid()
      ensures CupSizes() == old(CupSizes())
      ensures players == old(players) && playerCups == old(playerCups)
      ensures currentPlayer == old(currentPlayer) && gamestate == old(gamestate)
      ensures fresh(rs) && rs.Valid()
      ensures rs.names == Rotate(players, start)
      ensures rs.numDice == Rotate(CupSizes(), start)
      ensures rs.cups == Rotate(CupDice(), start)
      ensures rs.bids == [] && !rs.showdownOver
    {
      ShakeCups();
      rs := SeatRound(start);
    }

    /** The seating loop of prepareNewRound, on the shaken cups. */
    method SeatRound(start: int) returns (r: RoundState)
      requires CupsValid() && 0 <= start < |players|
      ensures fresh(r) && r.Valid()
      ensures r.names == Rotate(players, start)
      ensures r.numDice == Rotate(CupSizes(), start)
      ensures r.cups == Rotate(CupDice(), start)
      ensures r.bids == [] && !r.showdownOver
    {
      r := new RoundState();
      var n := |players|;
      ghost var sizes, dice := CupSizes(), CupDice();
      var index := start;
      var count := n;
      while count > 0
        modifies r
        invariant 0 <= count <= n && 0 <= index < n
        invariant count > 0 ==> index == PlayerAt(start, n - count, n)
        invariant r.Valid() && |r.names| == n - count
        invariant r.bids == [] && !r.showdownOver
        invariant forall i :: 0 <= i < n - count ==>
                    r.names[i] == players[PlayerAt(start, i, n)]
                    && r.numDice[i] == sizes[PlayerAt(start, i, n)]
                    && r.cups[i] == dice[PlayerAt(start, i, n)]
      {
        count := count - 1;
        AddSeat(r, index);
        index := Advance(index, 1, n);
      }
      forall i | 0 <= i < n
        ensures r.names[i] == Rotate(players, start)[i]
        ensures r.numDice[i] == Rotate(sizes, start)[i]
        ensures r.cups[i] == Rotate(dice, start)[i]
      {
        RotateAt(players, start, i);
        RotateAt(sizes, start, i);
        RotateAt(dice, start, i);
      }
    }

    /** One pass of the seating loop: the player's name, dice count and a copy of the cup. */
    method AddSeat(r: RoundState, index: nat)
      requires index < |players| == |playerCups| && playerCups[index].Valid() && r.Valid()
      modifies r
      ensures r.Valid() && r.bids == old(r.bids) && r.showdownOver == old(r.showdownOver)
      ensures r.names == old(r.names) + [players[index]]
      ensures r.numDice == old(r.numDice) + [|playerCups[index].dice|]
      ensures r.cups == old(r.cups) + [playerCups[index].dice]
    {
      var cup := playerCups[index];
      var copy := new Cup.Copy(cup);
      r.AddPlayerState(players[index], |cup.dice|, copy);
    }

    /** The round is seated from `start`: names, dice counts and dice in seat order. */
    ghost predicate Seated(start: nat, names: seq<string>, counts: seq<int>, cups: seq<seq<Die>>)
      reads this`players, this`playerCups, playerCups
    {
      && start < |players| == |playerCups|
      && names == Rotate(players, start) && cups == Rotate(CupDice(), start) && counts == Rotate(CupSizes(), start)
    }

    /**
     * The state the bidding loop keeps: the round record unchanged but for
     * its bids, the current player at the turn after the last bid, every bid
     * a stamped answer, each outbidding the one before and none of them a b.s.
     */
    ghost predicate Bidding(ask: Strategy, start: nat, names: seq<string>, counts: seq<int>, cups: seq<seq<Die>>)
      reads this`currentPlayer, this`rs, rs
    {
      var n := |names|;
      && start < n == |counts| == |cups|
      && rs.names == names && rs.numDice == counts && rs.cups == cups
      && currentPlayer == PlayerAt(start, SeatOf(|rs.bids|, n), n)
      && ClaimsOnly(rs.bids) && Raises(rs.bids)
      && Answered(ask, names, counts, cups, rs.bids)
    }

    /**
     * The do-while loop of playRound: the player whose turn it is answers,
     * the answer is stamped and recorded, then checked against the highest
     * bid before it; the turn passes on until a valid b.s. Each way out of
     * the loop is reported, with the current player left at the bidder.
     */
    method CollectBids(ask: Strategy, fuel: nat) returns (exit: BidExit)
      requires 0 <= currentPlayer < |players| == |playerCups|
      requires rs.Valid() && rs.bids == []
      requires rs.names == Rotate(players, currentPlayer)
      requires rs.numDice == Rotate(CupSizes(), currentPlayer)
      requires rs.cups == Rotate(CupDice(), currentPlayer)
      modifies this`currentPlayer, rs
      ensures rs.names == old(rs.names) && rs.numDice == old(rs.numDice) && rs.cups == old(rs.cups)
      ensures rs.showdownOver == old(rs.showdownOver)
      ensures Answered(ask, rs.names, rs.numDice, rs.cups, rs.bids)
      ensures ExitFacts(exit, ask, fuel, rs.names, rs.numDice, rs.cups, rs.bids)
      ensures currentPlayer == PlayerAt(old(currentPlayer), SeatOf(TurnAt(exit, |rs.bids|), |players|), |players|)
    {
      ghost var start := currentPlayer;
      ghost var names, counts, cups := rs.names, rs.numDice, rs.cups;
      while rs.NumBids() < fuel
        modifies this`currentPlayer, rs
        invariant Seated(start, names, counts, cups) && Bidding(ask, start, names, counts, cups)
        invariant rs.showdownOver == old(rs.showdownOver) && |rs.bids| <= fuel
        decreases fuel - |rs.bids|
      {
        ghost var seat := SeatOf(|rs.bids|, |players|);
        RotateAt(players, start, seat);
        RotateAt(CupSizes(), start, seat);
        RotateAt(CupDice(), start, seat);
        var e := Turn(ask, start, names, counts, cups, fuel);
        if e.Some? {
          return e.value;
        }
      }
      return Exhausted;
    }

    /** One pass of the bidding loop; None: the loop goes on with the next player. */
    method Turn(ask: Strategy, ghost start: nat, ghost names: seq<string>, ghost counts: seq<int>,
                ghost cups: seq<seq<Die>>, ghost fuel: nat) returns (exit: Option<BidExit>)
      requires Bidding(ask, start, names, counts, cups) && |rs.bids| < fuel
      requires 0 <= currentPlayer < |players| == |playerCups| == |names|
      requires var seat := SeatOf(|rs.bids|, |names|);
               && players[currentPlayer] == names[seat]
               && playerCups[currentPlayer].dice == cups[seat] && |cups[seat]| == counts[seat]
      modifies this`currentPlayer, rs
      ensures rs.showdownOver == old(rs.showdownOver)
      ensures exit.None? ==> Bidding(ask, start, names, counts, cups) && |rs.bids| == |old(rs.bids)| + 1
      ensures exit.Some? ==>
                && rs.names == names && rs.numDice == counts && rs.cups == cups
                && Answered(ask, names, counts, cups, rs.bids)
                && ExitFacts(exit.value, ask, fuel, names, counts, cups, rs.bids)
                && exit.value != Exhausted
                && currentPlayer == PlayerAt(start, SeatOf(TurnAt(exit.value, |rs.bids|), |names|), |names|)
    {
      var n := |players|;
      ghost var before := rs.bids;
      var name := players[currentPlayer];
      var cup := playerCups[currentPlayer];
      // the player is handed a copy of the cup; a sorted cup copies to the same dice
      var answer := ask(name, RoundView(rs.names, rs.numDice, rs.bids), cup.dice);
      if answer.None? {
        return Some(NullBid);
      }
      var bid := Stamp(answer.value, cup.NumDice(), name);
      var highest := rs.HighestBid();
      rs.AddNextBid(bid);
      assert rs.bids[..|before|] == before;
      AnsweredExtend(ask, names, counts, cups, before, bid);
      if highest.Some? && Bids.Compare(bid, highest) < 1 {
        return Some(LowBid);
      }
      if highest.None? && bid.isBS {
        return Some(OpeningBS);
      }
      SeatOfNext(|before|, n);
      currentPlayer := Advance(currentPlayer, 1, rs.NumPlayers());
      if bid.isBS {
        assert rs.bids[..|rs.bids| - 1] == before;
        return Some(Called);
      }
      exit := None;
    }

    /**
     * PlayGame: a new game record, the configured players, a cup each, then
     * rounds until one player is left. The current player carries over from
     * the previous game; one off the new table fails the first round.
     */
    method PlayGame(configured: seq<string>, ask: Strategy, fuel: nat, now: int) returns (r: GameOutcome)
      modifies this
      ensures r == NotEnoughPlayers <==> |configured| < MIN_NUM_PLAYERS
      ensures r == RoundFailed <==>
                |configured| >= MIN_NUM_PLAYERS && !(0 <= old(currentPlayer) < |configured|)
      ensures r != NotEnoughPlayers ==> fresh(gamestate)
      ensures r.Winner? ==> |players| == 1 && r.name == players[0] && r.name in configured
    {
      gamestate := new GameState(now);
      var ok := LoadPlayers(configured);
      if !ok {
        return NotEnoughPlayers;
      }
      r := Deal(ask, fuel);
    }

    /** The rest of PlayGame once the players are loaded: the cups, then the rounds. */
    method Deal(ask: Strategy, fuel: nat) returns (r: GameOutcome)
      requires |players| >= MIN_NUM_PLAYERS
      modifies this, gamestate
      ensures r != NotEnoughPlayers && gamestate == old(gamestate)
      ensures r == RoundFailed <==> !(0 <= old(currentPlayer) < old(|players|))
      ensures r.Winner? ==> |players| == 1 && r.name == players[0] && r.name in old(players)
    {
      MakeCups();
      if !(0 <= currentPlayer < |players|) {
        // shakeCups and a new round record, then players.get fails
        ShakeCups();
        rs := new RoundState();
        return RoundFailed;
      }
      r := PlayRounds(ask, fuel);
    }

    /**
     * The loop of PlayGame: a round at a time until one player is left. Each
     * finished round takes one die off the table, so the loop ends.
     */
    method PlayRounds(ask: Strategy, fuel: nat) returns (r: GameOutcome)
      requires Valid() && |players| >= 1
      modifies this`players, this`playerCups, this`currentPlayer, this`rs, playerCups, gamestate
      ensures Valid() && (r.Winner? || r == GameOutOfFuel)
      ensures r.Winner? ==> |players| == 1 && r.name == players[0]
      ensures forall x :: x in players ==> x in old(players)
      ensures forall c :: c in playerCups ==> c in old(playerCups)
    {
      ghost var cups := set c | c in playerCups;
      while |players| > 1
        modifies this`players, this`playerCups, this`currentPlayer, this`rs, cups, gamestate
        invariant Valid() && |players| >= 1
        invariant forall x :: x in players ==> x in old(players)
        invariant forall c :: c in playerCups ==> c in cups
        decreases TotalDice()
      {
        var outcome := Step(ask, fuel);
        if outcome.OutOfFuel? {
          return GameOutOfFuel;
        }
      }
      r := Winner(players[0]);
    }

    /** One pass of the loop of PlayGame: a round, which leaves a die fewer on the table unless it ran out of fuel. */
    method Step(ask: Strategy, fuel: nat) returns (outcome: RoundOutcome)
      requires Valid() && |players| >= MIN_NUM_PLAYERS
      modifies this`players, this`playerCups, this`currentPlayer, this`rs, playerCups, gamestate
      ensures Valid() && |players| >= 1
      ensures !outcome.OutOfFuel? ==> TotalDice() == old(TotalDice()) - 1
      ensures forall x :: x in players ==> x in old(players)
      ensures forall c :: c in playerCups ==> c in old(playerCups)
    {
      ghost var p0, sizes0, rounds0 := players, CupSizes(), gamestate.rounds;
      DiceCountIsSum(CupDice());
      outcome := PlayRound(ask, fuel);
      if !outcome.OutOfFuel? {
        SettledShrinks(outcome, p0, sizes0, Seats(), rs.names, rs.bids, rs.cups, rs.showdownOver,
                       rounds0, gamestate.rounds, rs);
        DiceCountIsSum(CupDice());
      }
    }

    /**
     * playRound: a new round seated from the current player, the bidding,
     * then the penalty. Each forfeit costs the player who made it a die; a
     * b.s. call is settled by a showdown. Every round but one lost to a
     * missing answer is archived, a forfeited one twice.
     */
    method PlayRound(ask: Strategy, fuel: nat) returns (outcome: RoundOutcome)
      requires Valid() && |players| >= MIN_NUM_PLAYERS
      modifies this`players, this`playerCups, this`currentPlayer, this`rs, playerCups, gamestate
      ensures Valid() && fresh(rs) && rs.Valid()
      ensures rs.names == Rotate(old(players), old(currentPlayer))
      ensures rs.numDice == Rotate(old(CupSizes()), old(currentPlayer))
      ensures Answered(ask, rs.names, rs.numDice, rs.cups, rs.bids)
      ensures ExitFacts(ExitOf(outcome), ask, fuel, rs.names, rs.numDice, rs.cups, rs.bids)
      ensures Settled(outcome, old(players), old(CupSizes()), Seats(), rs.names, rs.bids, rs.cups, rs.showdownOver,
                      old(gamestate.rounds), gamestate.rounds, rs)
      ensures forall c :: c in playerCups ==> c in old(playerCups)
    {
      ghost var p0, sizes0, rounds0 := players, CupSizes(), gamestate.rounds;
      var exit := OpenRound(ask, fuel);
      assert players == p0 && CupSizes() == sizes0 && gamestate.rounds == rounds0;
      outcome := Settle(exit);
    }

    /** The start of playRound: a round seated from the current player, then its bidding. */
    method OpenRound(ask: Strategy, fuel: nat) returns (exit: BidExit)
      requires Valid() && |players| >= MIN_NUM_PLAYERS
      modifies this`currentPlayer, this`rs, playerCups
      ensures Valid() && players == old(players) && playerCups == old(playerCups) && CupSizes() == old(CupSizes())
      ensures fresh(rs) && rs.Valid() && !rs.showdownOver && |rs.names| == |players|
      ensures rs.names == Rotate(old(players), old(currentPlayer))
      ensures rs.numDice == Rotate(old(CupSizes()), old(currentPlayer))
      ensures Answered(ask, rs.names, rs.numDice, rs.cups, rs.bids)
      ensures ExitFacts(exit, ask, fuel, rs.names, rs.numDice, rs.cups, rs.bids)
      ensures Ready(exit, players, rs.names, rs.bids, CupDice(), rs.cups, currentPlayer)
    {
      ghost var start := currentPlayer;
      PrepareNewRound(currentPlayer);
      exit := CollectBids(ask, fuel);
      AnsweredTagged(ask, rs.names, rs.numDice, rs.cups, rs.bids);
      ExitLengths(exit, ask, fuel, rs.names, rs.numDice, rs.cups, rs.bids);
      RoundReady(exit, players, rs.names, rs.numDice, CupDice(), start, rs.bids, rs.cups, currentPlayer);
    }

    /** The end of playRound: the bidding loop was left through `exit`. */
    method Settle(exit: BidExit) returns (outcome: RoundOutcome)
      requires Valid() && |players| >= MIN_NUM_PLAYERS
      requires rs.Valid() && |rs.names| == |players| && !rs.showdownOver
      requires Ready(exit, players, rs.names, rs.bids, CupDice(), rs.cups, currentPlayer)
      modifies this`players, this`playerCups, this`currentPlayer, rs, playerCups, gamestate
      ensures Valid() && ExitOf(outcome) == exit
      ensures rs.names == old(rs.names) && rs.numDice == old(rs.numDice)
      ensures rs.cups == old(rs.cups) && rs.bids == old(rs.bids)
      ensures Settled(outcome, old(players), old(CupSizes()), Seats(), rs.names, rs.bids, rs.cups, rs.showdownOver,
                      old(gamestate.rounds), gamestate.rounds, rs)
      ensures forall c :: c in playerCups ==> c in old(playerCups)
    {
      match exit
      case Called =>
        outcome := Challenge();
      case Exhausted =>
        outcome := OutOfFuel;
      case NullBid =>
        outcome := Forfeit(NoBid);
      case LowBid =>
        outcome := Forfeit(TooLow);
      case OpeningBS =>
        outcome := Forfeit(FirstBidBS);
    }

    /**
     * The three forfeits of playRound: the current player, who gave no
     * answer, a bid too low or an opening b.s., loses a die to the player
     * before. Except for a missing answer, the round is archived before and
     * after the penalty.
     */
    method Forfeit(reason: Forfeit) returns (outcome: RoundOutcome)
      requires Valid() && |players| >= MIN_NUM_PLAYERS
      requires rs.Valid() && |rs.names| == |players|
      requires reason == NoBid ==> rs.names[SeatOf(|rs.bids|, |players|)] == players[currentPlayer]
      requires reason != NoBid ==> |rs.bids| > 0 && rs.bids[|rs.bids| - 1].playerName == Some(players[currentPlayer])
      modifies this`players, this`playerCups, this`currentPlayer, rs, playerCups, gamestate
      ensures Valid() && outcome.Forfeited? && outcome.reason == reason
      ensures rs.names == old(rs.names) && rs.numDice == old(rs.numDice)
      ensures rs.cups == old(rs.cups) && rs.bids == old(rs.bids)
      ensures Settled(outcome, old(players), old(CupSizes()), Seats(), rs.names, rs.bids, rs.cups, rs.showdownOver,
                      old(gamestate.rounds), gamestate.rounds, rs)
      ensures forall c :: c in playerCups ==> c in old(playerCups)
    {
      var n := |players|;
      var loser := currentPlayer;
      var winner := if loser > 0 then loser - 1 else n - 1;  // (loser + n - 1) % n
      outcome := Forfeited(reason, winner, loser);
      ghost var names, counts, cups, b := rs.names, rs.numDice, rs.cups, rs.bids;
      ghost var t0, pc0, dice0, rounds0 := Seats(), playerCups, CupDice(), gamestate.rounds;
      ghost var rounds1 := if reason == NoBid then rounds0 else rounds0 + [rs, rs];
      assert Settled(outcome, t0.players, t0.sizes, Penalty(t0.players, t0.sizes, loser), names, b, cups, true, rounds0, rounds1, rs);
      ArchiveForfeit(reason);
      assert playerCups == pc0 && CupDice() == dice0 && Seats() == t0 && Valid();
      assert rs.names == names && rs.numDice == counts && rs.cups == cups && rs.bids == b;
      assert gamestate.rounds == rounds1;
      PunishLoser(winner, loser, t0);
    }

    /** A bid that is too low or an opening b.s. archives the round before and after the penalty: the same record twice. */
    method ArchiveForfeit(reason: Forfeit)
      modifies gamestate
      ensures gamestate.rounds == if reason == NoBid then old(gamestate.rounds) else old(gamestate.rounds) + [rs, rs]
      ensures gamestate.bornOn == old(gamestate.bornOn)
    {
      if reason != NoBid {
        gamestate.Add(rs);
        gamestate.Add(rs);
      }
    }

    /** The b.s. call of playRound: the round is archived, then the showdown is resolved. */
    method Challenge() returns (outcome: RoundOutcome)
      requires Valid() && |players| >= MIN_NUM_PLAYERS
      requires rs.Valid() && |rs.names| == |players| && |rs.bids| >= 2
      requires rs.bids[|rs.bids| - 1].playerName == Some(players[Behind(currentPlayer, 1, |players|)])
      requires rs.bids[|rs.bids| - 2].playerName == Some(players[Behind(currentPlayer, 2, |players|)])
      requires CountAll(rs.cups, Dots(rs.bids[|rs.bids| - 2])) == CountAll(CupDice(), Dots(rs.bids[|rs.bids| - 2]))
      modifies this`players, this`playerCups, this`currentPlayer, rs, playerCups, gamestate
      ensures Valid() && outcome.Showdown?
      ensures rs.names == old(rs.names) && rs.numDice == old(rs.numDice)
      ensures rs.cups == old(rs.cups) && rs.bids == old(rs.bids)
      ensures Settled(outcome, old(players), old(CupSizes()), Seats(), rs.names, rs.bids, rs.cups, rs.showdownOver,
                      old(gamestate.rounds), gamestate.rounds, rs)
      ensures forall c :: c in playerCups ==> c in old(playerCups)
    {
      ghost var names, counts, cups, b := rs.names, rs.numDice, rs.cups, rs.bids;
      ghost var t0, pc0, dice0, rounds0 := Seats(), playerCups, CupDice(), gamestate.rounds;
      ghost var verdict := Verdict(t0.current, |t0.players|, b[|b| - 2], dice0);
      assert b[|b| - 2].playerName == Some(t0.players[verdict.defender]);
      assert b[|b| - 1].playerName == Some(t0.players[verdict.challenger]);
      assert verdict.trueCount == CountAll(cups, Dots(b[|b| - 2]));
      ghost var t1 := Penalty(t0.players, t0.sizes, Loser(verdict));
      assert Settled(verdict, t0.players, t0.sizes, t1, names, b, cups, true, rounds0, rounds0 + [rs], rs);
      gamestate.Add(rs);
      assert playerCups == pc0 && CupDice() == dice0 && Seats() == t0 && Valid();
      assert rs.names == names && rs.numDice == counts && rs.cups == cups && rs.bids == b;
      assert gamestate.rounds == rounds0 + [rs];
      outcome := ResolveShowdown(t0, verdict);
    }

    /**
     * resolveShowdown: the bid before the b.s. call is the one challenged.
     * The current player is the one after the challenger, so the challenger
     * sits one place back and the bidder two; the bidder wins if at least the
     * claimed number of dice across all live cups show the claimed face, and
     * the other one loses a die.
     */
    method ResolveShowdown(ghost t0: Table, ghost verdict: RoundOutcome) returns (outcome: RoundOutcome)
      requires Valid() && |players| >= MIN_NUM_PLAYERS && Seats() == t0
      requires rs.Valid() && |rs.names| == |players| && |rs.bids| >= 2
      requires verdict == Verdict(currentPlayer, |players|, rs.bids[|rs.bids| - 2], CupDice())
      modifies this`players, this`playerCups, this`currentPlayer, rs, playerCups
      ensures outcome == verdict
      ensures Valid() && Seats() == Penalty(t0.players, t0.sizes, Loser(verdict)) && rs.showdownOver
      ensures rs.names == old(rs.names) && rs.numDice == old(rs.numDice)
      ensures rs.cups == old(rs.cups) && rs.bids == old(rs.bids)
      ensures gamestate.rounds == old(gamestate.rounds)
      ensures forall c :: c in playerCups ==> c in old(playerCups)
    {
      outcome := Judge();
      assert Seats() == t0 && outcome == verdict;
      var winner := if outcome.defended then outcome.defender else outcome.challenger;
      PunishLoser(winner, Loser(outcome), t0);
    }

    /** The verdict of resolveShowdown, before anyone is punished. */
    method Judge() returns (outcome: RoundOutcome)
      requires 0 <= currentPlayer < |players| && |players| >= MIN_NUM_PLAYERS
      requires |rs.names| == |players| && |rs.bids| >= 2
      ensures outcome == Verdict(currentPlayer, |players|, rs.bids[|rs.bids| - 2], CupDice())
    {
      var bid := rs.GetBid(rs.NumBids() - 2).value;
      var n := rs.NumPlayers();
      var defender := Advance(currentPlayer, n - 2, n);
      var challenger := Advance(currentPlayer, n - 1, n);
      var trueCount := NumDiceShowing(Dots(bid));
      outcome := Showdown(defender, challenger, NumDice(bid) <= trueCount, trueCount);
    }

    /**
     * punishLoser: opens the round's cups, takes a die from the loser and
     * passes the turn to the player after the loser; a loser left without
     * dice leaves the table together with the cup.
     */
    method PunishLoser(winner: nat, loser: nat, ghost t0: Table)
      requires Valid() && winner < |players| && loser < |players| && Seats() == t0
      requires rs.Valid() && |rs.names| == |players|
      modifies this`players, this`playerCups, this`currentPlayer, rs, playerCups[loser]
      ensures Valid() && rs.showdownOver
      ensures rs.names == old(rs.names) && rs.numDice == old(rs.numDice)
      ensures rs.cups == old(rs.cups) && rs.bids == old(rs.bids)
      ensures gamestate.rounds == old(gamestate.rounds)
      ensures Seats() == Penalty(t0.players, t0.sizes, loser)
      ensures TotalDice() == old(TotalDice()) - 1
      ensures forall c :: c in playerCups ==> c in old(playerCups)
    {
      ghost var dice0, pc0 := CupDice(), playerCups;
      var n := rs.NumPlayers();
      rs.SetShowdownOver();
      currentPlayer := Advance(loser, 1, n);
      assert players == t0.players && playerCups == pc0 && CupDice() == dice0;
      assert CupSizes() == t0.sizes && TotalDice() == DiceCount(dice0);
      LoseDie(loser, t0);
    }

    /** The die and, with its last die, the seat the loser gives up. */
    method LoseDie(loser: nat, ghost t0: Table)
      requires Valid() && loser < |players|
      requires t0.players == players && t0.sizes == CupSizes()
      requires currentPlayer == if loser + 1 < |players| then loser + 1 else 0
      modifies this`players, this`playerCups, this`currentPlayer, playerCups[loser]
      ensures Valid() && Seats() == Penalty(t0.players, t0.sizes, loser)
      ensures CupDice() == Punished(old(CupDice()), loser)
      ensures TotalDice() == old(TotalDice()) - 1
      ensures forall c :: c in playerCups ==> c in old(playerCups)
    {
      ghost var before, pc0 := CupDice(), playerCups;
      var emptied := TakeDie(loser);
      if emptied {
        RemoveUpdate(before, loser, before[loser][1..]);
        Unseat(loser);
        RemoveMembers(pc0, loser);
      }
      SizesOfPunished(before, loser);
      PunishedCount(before, loser);
    }

    /** The die-removal step of punishLoser: the loser's lowest die goes. */
    method TakeDie(loser: nat) returns (emptied: bool)
      requires CupsValid() && loser < |players|
      modifies playerCups[loser]
      ensures DistinctCups(playerCups)
      ensures forall j :: 0 <= j < |playerCups| && j != loser ==>
                playerCups[j].Valid() && |playerCups[j].dice| > 0
      ensures CupDice() == old(CupDice())[loser := old(playerCups[loser].dice)[1..]]
      ensures playerCups[loser].Valid()
      ensures emptied <==> |old(playerCups[loser].dice)| == 1
      ensures !emptied ==> ValidCups(playerCups)
    {
      ghost var before := CupDice();
      var cup := playerCups[loser];
      var ok := cup.RemoveDie();
      forall j | 0 <= j < |playerCups| && j != loser
        ensures playerCups[j].dice == before[j] && playerCups[j].Valid()
      {
        assert playerCups[j] != playerCups[loser];
      }
      assert CupDice() == before[loser := before[loser][1..]];
      emptied := cup.NumDice() == 0;
    }

    /**
     * The elimination step of punishLoser: the player and the emptied cup
     * leave, and the current index follows its player down one place.
     */
    method Unseat(loser: nat)
      requires loser < |players| == |playerCups| && DistinctCups(playerCups)
      requires forall j :: 0 <= j < |playerCups| && j != loser ==>
                 playerCups[j].Valid() && |playerCups[j].dice| > 0
      modifies this`players, this`playerCups, this`currentPlayer
      ensures players == Remove(old(players), loser) && playerCups == Remove(old(playerCups), loser)
      ensures CupsValid() && CupDice() == Remove(old(CupDice()), loser)
      ensures currentPlayer == if old(currentPlayer) > loser then old(currentPlayer) - 1 else old(currentPlayer)
    {
      RemoveCup(playerCups, loser);
      players := Remove(players, loser);
      playerCups := Remove(playerCups, loser);
      if currentPlayer > loser {
        currentPlayer := currentPlayer - 1;
      }
    }
  }
}
