# Liar's Dice referee, modelled in Dafny

A model of the Java Liar's Dice simulator (package `com.shuttersky.liarsdice`):
the referee that seats the players, deals each a cup of dice, runs the
bidding rounds and punishes the loser of each round until one player is
left, together with the value types it works on and one built-in player.

One module per Java file:

- `Bids` (bid.dfy): a bid is a claim "quantity dice show dots" or a call of
  b.s.; the constructors validate the claim, and `compareTo` is a total order
  with b.s. on top and claims ordered by quantity, then face.
- `Dice` (die.dfy): a die with its sides and the face up; `roll` draws an
  arbitrary real in [0, 1) and truncates it to a face.
- `Cups` (cup.dfy): the `Cup` class keeps its dice sorted by face; `shake`,
  `removeDie`, the face count and `getSortedTrueBids`, whose scan emits a
  bid for every prefix of every run of equal faces.
- `Rounds` (round_state.dfy): the `RoundState` record of one round: parallel
  lists of names, dice counts and cup copies, the bid history, and the
  one-way gate that keeps the cups hidden until the showdown.
- `Games` (game_state.dfy): the `GameState` archive of rounds and the
  winner-to-loser ranking of `logResults`.
- `Server` (game_server.dfy): the `GameServer` referee: `PlayGame`,
  `playRound` with its bidding loop and its three forfeits, `resolveShowdown`
  and `punishLoser`. A player's `getBid` is a function parameter (a
  `Strategy`) that may answer nothing, standing for a null bid, a timeout or
  an exception.
- `Truthful` (player_truthful.dfy): `PlayerTruthful.getBid`, the player that
  bids the lowest true bid that outbids the table.
- `LogFiles` (log_file_filter.dfy): `LogFileFilter`, the file chooser filter
  for game logs. `DESCRIPTION` is the constant "Log Files" of
  `getDescription`, and `GAME_LOG_EXT` the "log" extension.
- `Sorting`, `JavaText` and `Wrappers` hold the library behaviour the model
  relies on: `Collections.sort` as a sorted permutation, `String.valueOf`,
  ASCII `toLowerCase`, Java's `%`, `List.indexOf`, and Option/Result.

Java exceptions, and the `System.exit` calls the code makes on impossible
paths, become `Failure` values of a `Result`. `PlayerTruthful.getBid` has one
path that never returns (the highest bid is a b.s., so nothing outbids it and
the loop spins); it is reported as the `NeverReturns` failure.

Two facts about how the referee archives rounds:

- A forfeited round is archived twice as the same `RoundState` object, so
  both entries show the state after the penalty, with the gate open
  (`ArchiveForfeit`).
- A round lost to a missing answer is not archived (`Forfeit(NoBid)`).

## Model

| member | source | states |
|---|---|---|
| Bids.SetBid | src/main/java/com/shuttersky/liarsdice/Bid.java:330-377 | succeeds exactly when quantity >= 1 and dots lies in 1..6; a low quantity is reported before bad dots; on success the claim is stored as given, the b.s. flag cleared and the informational fields kept |
| Bids.NewBid | src/main/java/com/shuttersky/liarsdice/Bid.java:60-82 | Bid(quantity, dots[, message]) fails exactly as setBid does; otherwise a non-b.s. bid with that quantity, face and message and no player tag |
| Bids.BSBid | src/main/java/com/shuttersky/liarsdice/Bid.java:90-123 | Bid([message]) is a b.s. call whose stored claim is the in-range (1, 1) and whose getNumDice and getDots both answer -1 |
| Bids.IsBS | src/main/java/com/shuttersky/liarsdice/Bid.java:143-146 | the b.s. flag; BSBid and SetBid state when it is set |
| Bids.NumDice | src/main/java/com/shuttersky/liarsdice/Bid.java:155-163 | the claimed quantity, -1 for b.s.; BSBid and CompareIsLexicographic state its meaning |
| Bids.Dots | src/main/java/com/shuttersky/liarsdice/Bid.java:172-180 | the claimed face, -1 for b.s.; BSBid and CompareIsLexicographic state its meaning |
| Bids.SetPlayerNumDice | src/main/java/com/shuttersky/liarsdice/Bid.java:317-320 | only the informational dice count changes: the claim, the b.s. flag and every comparison stay as they were |
| Bids.SetPlayerSimpleClassName | src/main/java/com/shuttersky/liarsdice/Bid.java:306-309 | only the informational player name changes: the claim, the b.s. flag and every comparison stay as they were |
| Bids.Compare | src/main/java/com/shuttersky/liarsdice/Bid.java:217-276 | answers only -1, 0 or 1; 1 against null; b.s. beats every claim, a claim loses to b.s., two b.s. calls are equal |
| Bids.CompareIsLexicographic | src/main/java/com/shuttersky/liarsdice/Bid.java:247-275 | compareTo agrees with the lexicographic order on (is b.s., quantity, dots) |
| Bids.CompareAntisymmetric | src/main/java/com/shuttersky/liarsdice/Bid.java:217-276 | swapping the operands negates the answer |
| Bids.CompareTransitive | src/main/java/com/shuttersky/liarsdice/Bid.java:217-276 | the order is transitive, strictly so when either step is strict |
| Bids.CompareZeroIffSameClaim | src/main/java/com/shuttersky/liarsdice/Bid.java:217-276 | two bids compare equal exactly when both are b.s. or both make the same (quantity, dots) claim |
| Bids.BidLeqIsTotalPreorder | src/main/java/com/shuttersky/liarsdice/Bid.java:217-276 | the order Collections.sort uses on bids is total and transitive |
| Bids.ToStringInjective | src/main/java/com/shuttersky/liarsdice/Bid.java:284-298 | two well-formed bids print the same text only when they make the same claim (or are both b.s.) |
| Bids.ToString | src/main/java/com/shuttersky/liarsdice/Bid.java:284-298 | "QxD's" or "b.s.!"; ToStringInjective and LeadingCharacter state that the text identifies the claim |
| Bids.LeadingCharacter | src/main/java/com/shuttersky/liarsdice/Bid.java:284-298 | a claim's text starts with a digit and the b.s. text does not |
| Dice.Truncate | src/main/java/com/shuttersky/liarsdice/Die.java:79-83 | the (int) cast of a double truncates toward zero |
| Dice.FaceOfDrawInRange | src/main/java/com/shuttersky/liarsdice/Die.java:79-83 | every draw in [0, 1) gives a face in 1..sides |
| Dice.EveryFaceReachable | src/main/java/com/shuttersky/liarsdice/Die.java:79-83 | every face in 1..sides is the result of some draw in [0, 1) |
| Dice.Roll | src/main/java/com/shuttersky/liarsdice/Die.java:79-83 | roll keeps the number of sides and leaves a face in 1..sides |
| Dice.NewDie | src/main/java/com/shuttersky/liarsdice/Die.java:54-64 | Die(iSides) fails exactly when iSides < 2; otherwise a die with that many sides and a face in range |
| Dice.DefaultDie | src/main/java/com/shuttersky/liarsdice/Die.java:40-44 | Die() is a six-sided die with a face in range |
| Dice.SetDots | src/main/java/com/shuttersky/liarsdice/Die.java:90-93 | setDots changes the face and never the sides |
| Dice.Compare | src/main/java/com/shuttersky/liarsdice/Die.java:117-132 | compareTo answers only -1, 0 or 1 |
| Dice.CompareAgreesWithFaces | src/main/java/com/shuttersky/liarsdice/Die.java:117-132 | the answer depends only on the faces (below, equal) and is antisymmetric |
| Dice.DieLeqIsTotalPreorder | src/main/java/com/shuttersky/liarsdice/Die.java:117-132 | the order Collections.sort uses on dice is total and transitive |
| Sorting.Insert | src/main/java/com/shuttersky/liarsdice/Cup.java:205 | one insertion step of the sort: the result is sorted and holds the old elements plus the new one |
| Sorting.SortBy | src/main/java/com/shuttersky/liarsdice/Cup.java:53 | Collections.sort returns a sorted permutation of its input |
| Sorting.SortedPermutationUnique | src/main/java/com/shuttersky/liarsdice/Cup.java:72 | two sorted permutations of the same elements are equal when the order tells them apart, so sorting a sorted cup changes nothing |
| JavaText.IntToString | src/main/java/com/shuttersky/liarsdice/Bid.java:284-298 | String.valueOf: the digits of a non-negative number, a minus sign before a negative one |
| JavaText.NatToStringInjective | src/main/java/com/shuttersky/liarsdice/Bid.java:284-298 | different numbers never print the same digits |
| JavaText.ToLower | src/main/java/com/shuttersky/liarsdice/LogFileFilter.java:53 | toLowerCase keeps the length and lower-cases each ASCII letter |
| JavaText.JavaRem | src/main/java/com/shuttersky/liarsdice/RoundState.java:89-94 | Java's % for a positive divisor: the remainder has the dividend's sign, lies strictly between -b and b, and differs from the dividend by a multiple of b, which fixes it uniquely |
| JavaText.JavaRemNegates | src/main/java/com/shuttersky/liarsdice/RoundState.java:89-94 | the remainder truncates toward zero: negating the dividend negates the remainder |
| JavaText.JavaRemExample | src/main/java/com/shuttersky/liarsdice/RoundState.java:89-94 | -7 % 3 is -1, 7 % 3 is 1 and -6 % 3 is 0 |
| JavaText.IndexOf | src/main/java/com/shuttersky/liarsdice/RoundState.java:61-73 | List.indexOf: -1 exactly when absent, otherwise the first position holding the element |
| Cups.CountFaceIsMultiplicity | src/main/java/com/shuttersky/liarsdice/Cup.java:218-230 | the count of a face is its multiplicity among the faces showing |
| Cups.CountFace | src/main/java/com/shuttersky/liarsdice/Cup.java:218-230 | the count of a face never exceeds the number of dice; CountFaceIsMultiplicity states it is the face's multiplicity |
| Cups.CountsAddUp | src/main/java/com/shuttersky/liarsdice/Cup.java:218-230 | when every face lies in 1..sides, the counts of faces 1..sides add up to getNumDice() |
| Cups.TrueBids | src/main/java/com/shuttersky/liarsdice/Cup.java:141-208 | the scan emits at most one bid per die |
| Cups.TrueBidsAreTruthful | src/main/java/com/shuttersky/liarsdice/Cup.java:141-208 | every emitted bid is a well-formed claim whose quantity is at most the number of dice showing its face |
| Cups.OneBidPerDie | src/main/java/com/shuttersky/liarsdice/Cup.java:141-208 | with every face in 1..6 the scan emits exactly one bid per die |
| Cups.RunEndIsCount | src/main/java/com/shuttersky/liarsdice/Cup.java:141-208 | in sorted dice the run ending the list holds every die with that face |
| Cups.TrueBidsExhaustive | src/main/java/com/shuttersky/liarsdice/Cup.java:141-208 | for sorted dice a claim (q, d) is emitted exactly when 1 <= q <= the count of d: every prefix of every run |
| Cups.ExampleScan | src/main/java/com/shuttersky/liarsdice/Cup.java:129-139 | the scan over 1, 3, 3, 6 emits (1,1), (1,3), (2,3), (1,6) |
| Cups.SortedTrueBidsExample | src/main/java/com/shuttersky/liarsdice/Cup.java:129-139 | any sorted permutation of those bids is (1,1), (1,3), (1,6), (2,3), the documented result |
| Cups.Cup.Create | src/main/java/com/shuttersky/liarsdice/Cup.java:40-54 | Cup(n, s) fails as Die(s) does once a die is made; otherwise a fresh valid (sorted) cup of max(n, 0) dice with s sides |
| Cups.Cup.Copy | src/main/java/com/shuttersky/liarsdice/Cup.java:62-73 | the copy is sorted and holds the same dice; a valid cup copies to exactly its own dice |
| Cups.Cup.Shake | src/main/java/com/shuttersky/liarsdice/Cup.java:90-98 | the cup stays valid (sorted) with the same number of dice, each keeping its sides |
| Cups.Cup.RemoveDie | src/main/java/com/shuttersky/liarsdice/Cup.java:118-126 | fails on an empty cup; otherwise drops the die at index 0, which is the lowest, and keeps the rest in order |
| Cups.Cup.CountDots | src/main/java/com/shuttersky/liarsdice/Cup.java:218-230 | getNumDice(dots) is the number of dice showing dots |
| Cups.Cup.NumDice | src/main/java/com/shuttersky/liarsdice/Cup.java:81-84 | getNumDice(): the size of the cup, kept by Shake and lowered by one by RemoveDie |
| Cups.Cup.GetSortedTrueBids | src/main/java/com/shuttersky/liarsdice/Cup.java:141-208 | a sorted permutation of the scan's bids, each truthful for the cup |
| Cups.Cup.ToString | src/main/java/com/shuttersky/liarsdice/Cup.java:233-254 | "empty" exactly for no dice, otherwise the faces joined by ", " |
| Cups.JoinFacesNotEmptyWord | src/main/java/com/shuttersky/liarsdice/Cup.java:233-254 | a list of faces never prints as "empty" |
| Rounds.RoundState.constructor | src/main/java/com/shuttersky/liarsdice/RoundState.java:34-41 | no seats, no bids, the showdown not over |
| Rounds.RoundState.NumPlayers | src/main/java/com/shuttersky/liarsdice/RoundState.java:49-52 | getNumPlayers(): the roster size that Seat divides by |
| Rounds.RoundState.NumBids | src/main/java/com/shuttersky/liarsdice/RoundState.java:118-121 | getNumBids(): the bid count that GetBid and HighestIsLastBid bound indices by |
| Rounds.RoundState.Seat | src/main/java/com/shuttersky/liarsdice/RoundState.java:89-94 | index %= size: fails on an empty roster and on a negative index whose remainder is not 0; otherwise the seat is exactly Java's remainder of index by the roster size |
| Rounds.RoundState.PlayerIndex | src/main/java/com/shuttersky/liarsdice/RoundState.java:61-73 | fails exactly when the name is absent; otherwise its first seat |
| Rounds.RoundState.PlayerSimpleClassName | src/main/java/com/shuttersky/liarsdice/RoundState.java:89-94 | the name at seat index mod the roster size |
| Rounds.RoundState.GetBid | src/main/java/com/shuttersky/liarsdice/RoundState.java:132-141 | fails unless 0 <= index < getNumBids(); otherwise that bid |
| Rounds.RoundState.HighestBid | src/main/java/com/shuttersky/liarsdice/RoundState.java:162-184 | null exactly when there are no bids, otherwise the last bid |
| Rounds.RoundState.NumDiceAt | src/main/java/com/shuttersky/liarsdice/RoundState.java:195-201 | the dice count at seat index mod the roster size |
| Rounds.RoundState.NumDiceOf | src/main/java/com/shuttersky/liarsdice/RoundState.java:222-235 | fails exactly when the name is absent; otherwise the dice count of its first seat |
| Rounds.RoundState.NumDiceTotal | src/main/java/com/shuttersky/liarsdice/RoundState.java:243-253 | the sum of the dice counts |
| Rounds.RoundState.CupAt | src/main/java/com/shuttersky/liarsdice/RoundState.java:265-276 | fails until the showdown is over; then the cup at seat index mod the roster size |
| Rounds.RoundState.Cups | src/main/java/com/shuttersky/liarsdice/RoundState.java:284-292 | fails exactly until the showdown is over; then every cup |
| Rounds.RoundState.CupOf | src/main/java/com/shuttersky/liarsdice/RoundState.java:303-320 | fails until the showdown is over and when the name is absent; otherwise the cup of its first seat |
| Rounds.RoundState.CupOfProtected | src/main/java/com/shuttersky/liarsdice/RoundState.java:422-434 | the referee's lookup ignores the gate: fails only when the name is absent |
| Rounds.RoundState.AddPlayerState | src/main/java/com/shuttersky/liarsdice/RoundState.java:388-394 | names, counts and cups each grow by one entry and stay parallel; earlier entries and the bids are unchanged; the cup is stored as a sorted copy |
| Rounds.RoundState.AddNextBid | src/main/java/com/shuttersky/liarsdice/RoundState.java:401-404 | the bid history grows by exactly that bid; nothing else changes |
| Rounds.RoundState.SetShowdownOver | src/main/java/com/shuttersky/liarsdice/RoundState.java:409-412 | opens the gate and changes nothing else; no method closes it |
| Rounds.SeatInRange | src/main/java/com/shuttersky/liarsdice/RoundState.java:89-94 | an index within the roster names that very seat |
| Rounds.SeatWrapsAround | src/main/java/com/shuttersky/liarsdice/RoundState.java:89-94 | index and index + size name the same seat |
| Rounds.SeatNegativeMultiple | src/main/java/com/shuttersky/liarsdice/RoundState.java:89-94 | a negative multiple of the roster size leaves remainder 0 and names seat 0 |
| Rounds.HighestIsLastBid | src/main/java/com/shuttersky/liarsdice/RoundState.java:162-184 | the highest bid is getBid(getNumBids() - 1) |
| Games.RankingMembers | src/main/java/com/shuttersky/liarsdice/GameState.java:55-102 | the ranking holds exactly the names that sat in some round |
| Games.RankingDistinct | src/main/java/com/shuttersky/liarsdice/GameState.java:55-102 | every name appears in the ranking once |
| Games.RankingByLatestRound | src/main/java/com/shuttersky/liarsdice/GameState.java:55-102 | a name seen in a later round ranks before a name whose rounds all came earlier |
| Games.RankingStartsWithLastRound | src/main/java/com/shuttersky/liarsdice/GameState.java:55-102 | the last round's roster opens the ranking in seat order, each name at its first seat, repeated names included |
| Games.RankingStartsWithDistinctLastRound | src/main/java/com/shuttersky/liarsdice/GameState.java:55-102 | without repeated names the last round's roster itself is the ranking's prefix |
| Games.RankingCanLeadWithLoser | src/main/java/com/shuttersky/liarsdice/GameState.java:55-102 | the list logged as winner to loser can open with the final round's loser: B, C, A when B loses the last round to C |
| Games.WinnerFirstRanking | src/main/java/com/shuttersky/liarsdice/GameState.java:55-102 | the corrected order: the winner first, every name once, exactly the winner and the names of all rounds |
| Games.WinnerFirstByLatestRound | src/main/java/com/shuttersky/liarsdice/GameState.java:55-102 | behind the winner, a name seen in a later round precedes one whose rounds all came earlier |
| Games.WinnerFirstExample | src/main/java/com/shuttersky/liarsdice/GameState.java:55-102 | the corrected order of the example is C, B, A |
| Games.Ranking | src/main/java/com/shuttersky/liarsdice/GameState.java:55-102 | the order logResults builds: its meaning is carried by RankingMembers, RankingDistinct, RankingByLatestRound and RankingStartsWithLastRound |
| Games.GameState.constructor | src/main/java/com/shuttersky/liarsdice/GameState.java:23-30 | no rounds, creation date set |
| Games.GameState.Add | src/main/java/com/shuttersky/liarsdice/GameServer.java:287 | the archive grows by a reference to the round, not a copy |
| Games.GameState.PlayerIndex | src/main/java/com/shuttersky/liarsdice/GameState.java:39-42 | answers from round 0 only; fails with no rounds or an absent name |
| Games.GameState.NumPlayers | src/main/java/com/shuttersky/liarsdice/GameState.java:49-52 | the roster size of round 0; fails with no rounds |
| Games.GameState.LogResults | src/main/java/com/shuttersky/liarsdice/GameState.java:55-102 | the nested loops compute the ranking; logging after clear() fails |
| Games.GameState.Clear | src/main/java/com/shuttersky/liarsdice/GameState.java:107-111 | no rounds and no creation date |
| Server.Behind | src/main/java/com/shuttersky/liarsdice/GameServer.java:345-346 | (c + n - d) % n is the seat d places before c |
| Server.Verdict | src/main/java/com/shuttersky/liarsdice/GameServer.java:325-363 | resolveShowdown's verdict: the challenger sits just before the player on turn and the defender just before the challenger; the challenger loses exactly when the defended quantity is at most the live count of its face |
| Server.CountAllIsTally | src/main/java/com/shuttersky/liarsdice/GameServer.java:612-621 | counting cup by cup is the multiplicity of the face among all live dice |
| Server.CountAllRotate | src/main/java/com/shuttersky/liarsdice/GameServer.java:612-621 | seating the cups in another order does not change a face's count |
| Server.Advance | src/main/java/com/shuttersky/liarsdice/GameServer.java:391 | (i + d) % n for a seat i and 0 <= d <= n wraps around at most once |
| Server.SeatOfIsMod | src/main/java/com/shuttersky/liarsdice/GameServer.java:310 | the seat of turn k is k mod n |
| Server.SeatOfNext | src/main/java/com/shuttersky/liarsdice/GameServer.java:310 | the turn after k is at the next seat, wrapping to seat 0 |
| Server.BidderBehind | src/main/java/com/shuttersky/liarsdice/GameServer.java:345-346 | the bid made d turns back was tagged with the player d places before the current one |
| Server.ShowdownReady | src/main/java/com/shuttersky/liarsdice/GameServer.java:325-363 | after a b.s. call, the challenger and the defender sit one and two places back, and the round's cups show the same count as the live cups |
| Server.RoundReady | src/main/java/com/shuttersky/liarsdice/GameServer.java:211-319 | whichever way the bidding ends, the seat that failed or the authors of the last bids are the players the referee punishes or judges |
| Server.RaisesIncreasing | src/main/java/com/shuttersky/liarsdice/GameServer.java:279-291 | the bids of an accepted history strictly increase: each outbids every earlier one |
| Server.Stamp | src/main/java/com/shuttersky/liarsdice/GameServer.java:262-266 | tagging sets the bidder's dice count and name and changes neither the claim nor any comparison |
| Server.AnsweredTagged | src/main/java/com/shuttersky/liarsdice/GameServer.java:262-266 | every recorded bid carries the name and dice count of the seat whose turn it was |
| Server.PenaltyKeepsTable | src/main/java/com/shuttersky/liarsdice/GameServer.java:373-406 | a penalty takes exactly one die off the table, keeps the lists parallel, removes a player exactly when the last die goes, and leaves the turn with a seated player |
| Server.Penalty | src/main/java/com/shuttersky/liarsdice/GameServer.java:373-406 | the table after punishLoser; PenaltyKeepsTable and SettledShrinks state what it keeps and removes |
| Server.SettledShrinks | src/main/java/com/shuttersky/liarsdice/GameServer.java:183-196 | every finished round costs one die and at most one player, and leaves someone seated |
| Server.PunishedCount | src/main/java/com/shuttersky/liarsdice/GameServer.java:383-405 | taking the loser's die, and the cup if emptied, lowers the live dice by exactly one |
| Server.RemoveCup | src/main/java/com/shuttersky/liarsdice/GameServer.java:396-397 | removing an emptied cup keeps the other cups distinct and valid, in order |
| Server.GameServer.constructor | src/main/java/com/shuttersky/liarsdice/GameServer.java:74-78 | no players, no cups, the first player to start |
| Server.GameServer.LoadPlayers | src/main/java/com/shuttersky/liarsdice/GameServer.java:418-480 | the configured players replace the list, in order; fails exactly with fewer than two |
| Server.GameServer.MakeCups | src/main/java/com/shuttersky/liarsdice/GameServer.java:486-519 | a fresh, distinct, valid cup of five six-sided dice per player: 5n dice on the table |
| Server.GameServer.ShakeCups | src/main/java/com/shuttersky/liarsdice/GameServer.java:525-537 | every cup stays valid and keeps its number of dice |
| Server.GameServer.NumDiceShowing | src/main/java/com/shuttersky/liarsdice/GameServer.java:612-621 | getNumDice(dots) is the number of live dice showing dots across all cups |
| Server.GameServer.PrepareNewRound | src/main/java/com/shuttersky/liarsdice/GameServer.java:630-655 | cups shaken with sizes kept; a fresh round whose names, counts and cups are the live ones rotated to start at the given player |
| Server.GameServer.SeatRound | src/main/java/com/shuttersky/liarsdice/GameServer.java:640-654 | the seating loop records the rotation of players, counts and dice starting at the given player |
| Server.GameServer.AddSeat | src/main/java/com/shuttersky/liarsdice/GameServer.java:649-653 | one seat: the player's name, live dice count and a copy of the cup's dice |
| Server.GameServer.CollectBids | src/main/java/com/shuttersky/liarsdice/GameServer.java:226-313 | every recorded bid is the tagged answer of the seat whose turn it was; the loop exits through a null bid, a bid too low, an opening b.s., or a b.s. after a strictly increasing run of claims; the current player is left at the offending bidder or after the caller |
| Server.GameServer.Turn | src/main/java/com/shuttersky/liarsdice/GameServer.java:228-310 | one pass: ask, tag, record, validate against the previous highest bid, then advance the turn |
| Server.GameServer.PlayGame | src/main/java/com/shuttersky/liarsdice/GameServer.java:150-197 | fails exactly with fewer than two players, or when the carried-over current player is off the new table; a winner is the only player left and one of the configured ones |
| Server.GameServer.Deal | src/main/java/com/shuttersky/liarsdice/GameServer.java:167-196 | after the cups are made the game fails exactly when the current player is off the table; otherwise the rounds are played |
| Server.GameServer.PlayRounds | src/main/java/com/shuttersky/liarsdice/GameServer.java:182-196 | rounds are played while more than one player is left; the survivor is the winner and was one of the players |
| Server.GameServer.Step | src/main/java/com/shuttersky/liarsdice/GameServer.java:183-194 | a finished round takes exactly one die off the table and keeps the table valid |
| Server.GameServer.PlayRound | src/main/java/com/shuttersky/liarsdice/GameServer.java:211-319 | the round is seated from the current player, the bids are the tagged answers, and the round is settled by forfeit or showdown with the table penalised and the archive updated as the source does |
| Server.GameServer.OpenRound | src/main/java/com/shuttersky/liarsdice/GameServer.java:219-313 | the seating and bidding of playRound: table and live cup sizes unchanged, the record seated by rotation, and what the settling needs |
| Server.GameServer.Settle | src/main/java/com/shuttersky/liarsdice/GameServer.java:253-318 | the end of playRound: each way out of the bidding leads to the matching forfeit or to the showdown |
| Server.GameServer.Forfeit | src/main/java/com/shuttersky/liarsdice/GameServer.java:253-307 | the current player loses a die to the player before; a null bid archives nothing, a bid too low or an opening b.s. archives the round twice |
| Server.GameServer.ArchiveForfeit | src/main/java/com/shuttersky/liarsdice/GameServer.java:283-306 | the same record is archived twice except after a null bid |
| Server.GameServer.Challenge | src/main/java/com/shuttersky/liarsdice/GameServer.java:316-318 | a b.s. call archives the round once, then the showdown settles it |
| Server.GameServer.ResolveShowdown | src/main/java/com/shuttersky/liarsdice/GameServer.java:325-363 | the verdict: the defender (two back) wins exactly when its claimed quantity is at most the count across all live cups; the loser is penalised |
| Server.GameServer.Judge | src/main/java/com/shuttersky/liarsdice/GameServer.java:325-361 | the second-to-last bid is judged against the live dice, defender and challenger two and one places back |
| Server.GameServer.PunishLoser | src/main/java/com/shuttersky/liarsdice/GameServer.java:373-406 | gate opened, exactly one die taken from the loser, turn passed to the player after the loser, an emptied player removed with the cup and the turn adjusted |
| Server.GameServer.LoseDie | src/main/java/com/shuttersky/liarsdice/GameServer.java:383-405 | the loser's dice lose their lowest die and an emptied cup leaves: one die fewer on the table |
| Server.GameServer.TakeDie | src/main/java/com/shuttersky/liarsdice/GameServer.java:383-390 | only the loser's cup changes, losing its first die |
| Server.GameServer.Unseat | src/main/java/com/shuttersky/liarsdice/GameServer.java:393-405 | player and cup removed at the same index; the current index moves down when above the loser |
| Truthful.FirstAbove | src/main/java/com/shuttersky/liarsdice/players/PlayerTruthful.java:45-55 | the walk stops at the first bid that outbids the highest, every bid before it does not |
| Truthful.ChoiceMeetsPromise | src/main/java/com/shuttersky/liarsdice/players/PlayerTruthful.java:15-63 | the lowest true bid when nobody has bid; otherwise the lowest true bid above the highest, else "Show me the money"; the result outbids a plain highest bid and is truthful; the failures of an empty cup |
| Truthful.Choice | src/main/java/com/shuttersky/liarsdice/players/PlayerTruthful.java:15-63 | the bid getBid picks from the sorted true bids; ChoiceMeetsPromise states that it is truthful and outbids the highest bid |
| Truthful.GetBid | src/main/java/com/shuttersky/liarsdice/players/PlayerTruthful.java:15-63 | the same promises for the cup's own sorted true bids |
| Truthful.Walk | src/main/java/com/shuttersky/liarsdice/players/PlayerTruthful.java:28-62 | the iterator loop returns exactly the choice above, and spins when the highest bid is a b.s. |
| LogFiles.LastIndexOf | src/main/java/com/shuttersky/liarsdice/LogFileFilter.java:50 | -1 exactly when the character is absent, otherwise its last position |
| LogFiles.DescriptionNamesExtension | src/main/java/com/shuttersky/liarsdice/LogFileFilter.java:39-42 | getDescription's label "Log Files" opens with the extension it filters |
| LogFiles.GetExtension | src/main/java/com/shuttersky/liarsdice/LogFileFilter.java:45-58 | the extension after the last dot; ExtensionSplits, ExtensionOfSplit and NoExtension state it |
| LogFiles.Accept | src/main/java/com/shuttersky/liarsdice/LogFileFilter.java:21-36 | accept; AcceptsLogFiles and AcceptDirectoriesNotNull state when it holds |
| LogFiles.ExtensionSplits | src/main/java/com/shuttersky/liarsdice/LogFileFilter.java:45-58 | an extension is found only when the last dot is neither first nor last; it is the lower-cased dot-free text after it |
| LogFiles.ExtensionOfSplit | src/main/java/com/shuttersky/liarsdice/LogFileFilter.java:45-58 | a non-empty stem, a dot and a non-empty dot-free suffix give back the suffix lower-cased |
| LogFiles.NoExtension | src/main/java/com/shuttersky/liarsdice/LogFileFilter.java:45-58 | no dot, a lone leading dot or a trailing dot give no extension |
| LogFiles.AcceptsLogFiles | src/main/java/com/shuttersky/liarsdice/LogFileFilter.java:21-36 | a file that is not a directory is accepted exactly when its extension lower-cases to "log" |
| LogFiles.AcceptDirectoriesNotNull | src/main/java/com/shuttersky/liarsdice/LogFileFilter.java:21-36 | every directory is accepted and the null file is not |
| LogFiles.AcceptExamples | src/main/java/com/shuttersky/liarsdice/LogFileFilter.java:21-58 | "game001.LOG" is accepted |
| LogFiles.AcceptLastDotExample | src/main/java/com/shuttersky/liarsdice/LogFileFilter.java:21-58 | "a.b.Log" is accepted: only the last dot counts |
| LogFiles.RejectExamples | src/main/java/com/shuttersky/liarsdice/LogFileFilter.java:21-58 | ".log", "game.log." and "game.txt" are refused |

## Findings

| source | as written | input that shows it | evidently intended | confidence | as-written member | corrected member |
|---|---|---|---|---|---|---|
| src/main/java/com/shuttersky/liarsdice/GameState.java:55-102 | the list logged as "Winner to loser order" opens with the final round's roster in seat order, so the last round's loser leads whenever that player sat first | rounds seating A, B, C and then B, C, with B losing the last round to C: the log reads B, C, A | the survivor first, then the others by their latest round: C, B, A | likely; not executed | Games.RankingCanLeadWithLoser | Games.WinnerFirstRanking |

`Games.GameState.LogResults` keeps computing `Ranking`, the order the code
logs; `WinnerFirstRanking` takes the survivor, the one name left in the
referee's player list after `PlayRounds`, and `WinnerFirstByLatestRound`
shows that the rest of the order is unchanged.

## Left out

- Logging, `setupLogger`, `loadOptions`, `saveGameState`, `main` and the game counter: I/O and configuration.
- `Class.forName` in `loadPlayers`: the players are given as a sequence of class names; two players of the same class share a name, as `getSimpleName` does.
- `TimeoutSafePlayer` and the threads behind it: a player's answer is the `Strategy` parameter, and no answer covers a timeout, a null bid and an exception.
- `tellBid` and `tellOutcome` of the referee and of `PlayerTruthful`: broadcasts to players whose memory is not modelled; the truthful player's are empty.
- `Math.random()`: the draw of `Die.roll` is any real in [0, 1); floating-point rounding of the product is not modelled.
- Bid and Die are values: the copy constructors of `Bid` and `Die`, `getSides`, `getDice` and the copy `getHighestBid` returns are the value itself, so aliasing of dice or bids is not modelled.
- `RoundState` stores each cup copy as its list of dice rather than as a `Cup` object.
- `getPlayerSimpleClassNames`, `getBids`, `getNumDice()` (the list), `RoundState.toString` and `GameState.removeAllElements` (the same as `clear`): plain reads or logging.
- Server.GameServer.CollectBids: the bidding loop takes a `fuel` bound on the number of bids and reports `Exhausted` when it is reached; a game whose bidding never ends is not modelled beyond that bound (`OutOfFuel`, `GameOutOfFuel`).
- Server.GameServer.PlayGame: does not state that the cups stay valid (sorted, non-empty, one per player) after the game; `PlayRounds` and `Step` keep that invariant.
- Server.GameServer.Deal: does not state that the cups stay valid after the game, for the same reason.
- Server.GameServer.PunishLoser: sets the current player before taking the die, where the code takes the die first; `removeDie` does not read the current player, so the final state is the same.
- Server.GameServer.Forfeit: archives both copies of the record before the penalty, where the code archives one before and one after; the archive holds references, so the final state is the same.
- Truthful.Walk: the endless loop is returned as `NeverReturns` instead of spinning.
- Integer overflow: dice counts, bid quantities and indices are unbounded integers; the code's `int` arithmetic never comes near its limits for five dice per player.
- `String.toLowerCase` beyond ASCII letters.
