/**
 * GameState.java: the rounds of one game in the order the referee archived
 * them, plus the moment the game was created. logResults ranks the players
 * from winner to loser: the later the last round a player sat in, the better.
 */
module Games {
  import opened Wrappers
  import opened JavaText
  import opened Rounds

  datatype GameError =
    | NoRounds                   // this.get(0) on an empty list
    | InRound(error: RoundError) // the failure of the round-0 lookup
    | NoBornOnDate               // the date was nulled by clear()

  /**
   * The order logResults visits names in: the last round first, each round
   * in seat order.
   */
  function Visit(rosters: seq<seq<string>>): seq<string> {
    if |rosters| == 0 then [] else Visit(rosters[1..]) + rosters[0]
  }

  /** Keeps the first occurrence of every name, in order. */
  function Dedup(s: seq<string>): seq<string> {
    if |s| == 0 then []
    else
      var d := Dedup(s[..|s| - 1]);
      if s[|s| - 1] in s[..|s| - 1] then d else d + [s[|s| - 1]]
  }

  /** The winner-to-loser order logResults computes. */
  function Ranking(rosters: seq<seq<string>>): seq<string> {
    Dedup(Visit(rosters))
  }

  predicate Distinct(s: seq<string>) {
    forall i, j :: 0 <= i < j < |s| ==> s[i] != s[j]
  }

  lemma DedupAppend(s: seq<string>, x: string)
    ensures Dedup(s + [x]) == if x in s then Dedup(s) else Dedup(s) + [x]
  {
    assert (s + [x])[..|s|] == s;
  }

  lemma {:induction false} DedupMembers(s: seq<string>)
    ensures forall x :: x in Dedup(s) <==> x in s
  {
    if |s| > 0 {
      var init := s[..|s| - 1];
      DedupMembers(init);
      assert s == init + [s[|s| - 1]];
    }
  }

  lemma {:induction false} DedupDistinct(s: seq<string>)
    ensures Distinct(Dedup(s))
  {
    if |s| > 0 {
      var init := s[..|s| - 1];
      DedupDistinct(init);
      DedupMembers(init);
    }
  }

  /** Without repeated names there is nothing to drop. */
  lemma {:induction false} DedupOfDistinct(s: seq<string>)
    requires Distinct(s)
    ensures Dedup(s) == s
  {
    if |s| > 0 {
      var init := s[..|s| - 1];
      DedupOfDistinct(init);
      assert s == init + [s[|s| - 1]];
    }
  }

  /** Names seen first keep their places when more names follow. */
  lemma {:induction false} DedupPrefix(p: seq<string>, q: seq<string>)
    ensures |Dedup(p)| <= |Dedup(p + q)| && Dedup(p + q)[..|Dedup(p)|] == Dedup(p)
  {
    if |q| == 0 {
      assert p + q == p;
    } else {
      var q' := q[..|q| - 1];
      DedupPrefix(p, q');
      assert p + q == (p + q') + [q[|q| - 1]];
      DedupAppend(p + q', q[|q| - 1]);
    }
  }

  lemma {:induction false} VisitMembers(rosters: seq<seq<string>>, x: string)
    ensures x in Visit(rosters) <==> exists j :: 0 <= j < |rosters| && x in rosters[j]
  {
    if |rosters| > 0 {
      VisitMembers(rosters[1..], x);
      if x in Visit(rosters[1..]) {
        var j :| 0 <= j < |rosters[1..]| && x in rosters[1..][j];
        assert x in rosters[j + 1];
      }
      if j :| 0 <= j < |rosters| && x in rosters[j] {
        if j > 0 {
          assert x in rosters[1..][j - 1];
        }
      }
    }
  }

  /** The visit splits at any round: rounds i.. are visited before rounds ..i. */
  lemma {:induction false} VisitSplit(rosters: seq<seq<string>>, i: nat)
    requires i <= |rosters|
    ensures Visit(rosters) == Visit(rosters[i..]) + Visit(rosters[..i])
  {
    if i == 0 {
      assert rosters[..0] == [];
      assert rosters[0..] == rosters;
    } else {
      var tail := rosters[1..];
      VisitSplit(tail, i - 1);
      assert tail[i - 1..] == rosters[i..];
      assert tail[..i - 1] == rosters[1..i];
      assert rosters[..i][1..] == rosters[1..i];
    }
  }

  /** The ranking holds every name of every round. */
  lemma RankingMembers(rosters: seq<seq<string>>, x: string)
    ensures x in Ranking(rosters) <==> exists j :: 0 <= j < |rosters| && x in rosters[j]
  {
    DedupMembers(Visit(rosters));
    VisitMembers(rosters, x);
  }

  /** The ranking holds every name exactly once. */
  lemma RankingDistinct(rosters: seq<seq<string>>)
    ensures Distinct(Ranking(rosters))
  {
    DedupDistinct(Visit(rosters));
  }

  /**
   * A name that sat in round i precedes a name whose rounds all come before i:
   * a later elimination ranks higher.
   */
  lemma RankingByLatestRound(rosters: seq<seq<string>>, a: string, b: string, i: nat, k: nat)
    requires k < i < |rosters|
    requires a in rosters[i] && b in rosters[k]
    requires forall j :: i <= j < |rosters| ==> b !in rosters[j]
    ensures a in Ranking(rosters) && b in Ranking(rosters)
    ensures IndexOf(Ranking(rosters), a) < IndexOf(Ranking(rosters), b)
  {
    var p, q := Visit(rosters[i..]), Visit(rosters[..i]);
    VisitSplit(rosters, i);
    DedupPrefix(p, q);
    VisitMembers(rosters[i..], a);
    assert a in rosters[i..][0];
    VisitMembers(rosters[i..], b);
    VisitMembers(rosters[..i], b);
    assert b in rosters[..i][k];
    DedupMembers(p);
    DedupMembers(p + q);
    var r := Ranking(rosters);
    var d := Dedup(p);
    assert a in r[..|d|];
    assert b !in r[..|d|];
    IndexOfWithin(r, a, |d|);
    IndexOfWithin(r, b, |d|);
  }

  /**
   * The final round's roster opens the ranking, in seat order, each name at
   * its first seat.
   */
  lemma RankingStartsWithLastRound(rosters: seq<seq<string>>)
    requires |rosters| > 0
    ensures var last := Dedup(rosters[|rosters| - 1]);
            |last| <= |Ranking(rosters)| && Ranking(rosters)[..|last|] == last
  {
    var n := |rosters|;
    VisitSplit(rosters, n - 1);
    assert rosters[n - 1..] == [rosters[n - 1]];
    assert [rosters[n - 1]][1..] == [];
    assert Visit([rosters[n - 1]]) == rosters[n - 1];
    DedupPrefix(rosters[n - 1], Visit(rosters[..n - 1]));
  }

  /** Without repeated names, the final roster itself opens the ranking. */
  lemma RankingStartsWithDistinctLastRound(rosters: seq<seq<string>>)
    requires |rosters| > 0 && Distinct(rosters[|rosters| - 1])
    ensures var last := rosters[|rosters| - 1];
            |last| <= |Ranking(rosters)| && Ranking(rosters)[..|last|] == last
  {
    RankingStartsWithLastRound(rosters);
    DedupOfDistinct(rosters[|rosters| - 1]);
  }

  /** Three distinct names keep their order. */
  lemma DedupDistinctExample(x: string, y: string, z: string)
    requires x != y && y != z && x != z
    ensures Dedup([y, z, x]) == [y, z, x] && Dedup([y, z]) == [y, z]
  {
    DedupOfDistinct([y, z, x]);
    DedupOfDistinct([y, z]);
  }

  /** Two rounds are visited last round first. */
  lemma VisitTwoRounds(first: seq<string>, second: seq<string>)
    ensures Visit([first, second]) == second + first
  {
    assert [first, second][1..] == [second];
    assert [second][1..] == [];
    assert Visit([second]) == [] + second == second;
  }

  /**
   * The list logResults reports as winner to loser opens with whoever sat
   * first in the final round: when b loses the last round to c, b leads.
   */
  lemma RankingCanLeadWithLoser(a: string, b: string, c: string)
    requires a != b && b != c && a != c
    ensures Ranking([[a, b, c], [b, c]]) == [b, c, a]
  {
    VisitTwoRounds([a, b, c], [b, c]);
    assert [b, c] + [a, b, c] == [b, c, a] + [b] + [c];
    DedupAppend([b, c, a] + [b], c);
    assert c in [b, c, a] + [b];
    DedupAppend([b, c, a], b);
    assert b in [b, c, a];
    DedupDistinctExample(a, b, c);
  }

  /**
   * Winner to loser as intended: the sole survivor first, then everyone else
   * by the latest round they sat in.
   */
  function WinnerFirstRanking(rosters: seq<seq<string>>, winner: string): (r: seq<string>)
    ensures |r| > 0 && r[0] == winner
    ensures Distinct(r)
    ensures forall x :: x in r <==> x == winner || x in Visit(rosters)
  {
    DedupPrefix([winner], Visit(rosters));
    DedupMembers([winner] + Visit(rosters));
    DedupDistinct([winner] + Visit(rosters));
    assert Dedup([winner]) == [winner] by {
      assert [winner][..0] == [];
    }
    Dedup([winner] + Visit(rosters))
  }

  /**
   * Behind the winner the corrected order still ranks a later elimination
   * higher, and with the winner left out it is the order logResults computes.
   */
  lemma WinnerFirstByLatestRound(rosters: seq<seq<string>>, winner: string, a: string, b: string, i: nat, k: nat)
    requires k < i < |rosters|
    requires a in rosters[i] && b in rosters[k] && b != winner
    requires forall j :: i <= j < |rosters| ==> b !in rosters[j]
    ensures a in WinnerFirstRanking(rosters, winner) && b in WinnerFirstRanking(rosters, winner)
    ensures IndexOf(WinnerFirstRanking(rosters, winner), a) < IndexOf(WinnerFirstRanking(rosters, winner), b)
  {
    var p, q := [winner] + Visit(rosters[i..]), Visit(rosters[..i]);
    VisitSplit(rosters, i);
    assert [winner] + Visit(rosters) == p + q;
    DedupPrefix(p, q);
    VisitMembers(rosters[i..], a);
    assert a in rosters[i..][0];
    VisitMembers(rosters[i..], b);
    VisitMembers(rosters[..i], b);
    assert b in rosters[..i][k];
    DedupMembers(p);
    DedupMembers(p + q);
    var r := WinnerFirstRanking(rosters, winner);
    var d := Dedup(p);
    assert a in r[..|d|];
    assert b !in r[..|d|];
    IndexOfWithin(r, a, |d|);
    IndexOfWithin(r, b, |d|);
  }

  /** The corrected order names the winner c of the same game first. */
  lemma WinnerFirstExample(a: string, b: string, c: string)
    requires a != b && b != c && a != c
    ensures WinnerFirstRanking([[a, b, c], [b, c]], c) == [c, b, a]
  {
    VisitTwoRounds([a, b, c], [b, c]);
    var p2, p3 := [c, b], [c, b, c];
    var p4 := p3 + [a];
    var p5 := p4 + [b];
    assert [c] + ([b, c] + [a, b, c]) == p5 + [c];
    DedupAppend(p5, c);
    assert c in p5 && b in p4 && a !in p3 && c in p2;
    DedupAppend(p4, b);
    DedupAppend(p3, a);
    assert p3 == p2 + [c];
    DedupAppend(p2, c);
    DedupOfDistinct(p2);
    assert p2 + [a] == [c, b, a];
  }

  class GameState {
    var rounds: seq<RoundState>
    var bornOn: Option<int>

    /** GameState(): no rounds yet, created at `now`. */
    constructor(now: int)
      ensures rounds == [] && bornOn == Some(now)
    {
      rounds := [];
      bornOn := Some(now);
    }

    /** ArrayList.add: archives a reference to the round, not a copy. */
    method Add(rs: RoundState)
      modifies this
      ensures rounds == old(rounds) + [rs] && bornOn == old(bornOn)
    {
      rounds := rounds + [rs];
    }

    /** The seat-ordered names of each archived round. */
    function Rosters(): (rs: seq<seq<string>>)
      reads this, rounds
      ensures |rs| == |rounds| && forall i :: 0 <= i < |rounds| ==> rs[i] == rounds[i].names
    {
      seq(|rounds|, i reads this, rounds requires 0 <= i < |rounds| => rounds[i].names)
    }

    /** getPlayerIndex: the answer of round 0, whatever happened later. */
    function PlayerIndex(name: string): (r: Result<nat, GameError>)
      reads this, rounds
      ensures |rounds| == 0 ==> r == Failure(NoRounds)
      ensures |rounds| > 0 ==> (r.Success? <==> name in rounds[0].names)
      ensures r.Success? ==> r.value < |rounds[0].names| && rounds[0].names[r.value] == name
                             && name !in rounds[0].names[..r.value]
    {
      if |rounds| == 0 then Failure(NoRounds)
      else
        var i := rounds[0].PlayerIndex(name);
        if i.Failure? then Failure(InRound(i.error)) else Success(i.value)
    }

    /** getNumPlayers: the roster size of round 0. */
    function NumPlayers(): (r: Result<nat, GameError>)
      reads this, rounds
      ensures r.Success? <==> |rounds| > 0
      ensures r.Success? ==> r.value == |rounds[0].names|
    {
      if |rounds| == 0 then Failure(NoRounds) else Success(rounds[0].NumPlayers())
    }

    /**
     * logResults: walks the rounds from last to first and each roster in
     * seat order, noting every name the first time it is met. Logging the
     * creation date after a clear() dereferences null.
     */
    method LogResults() returns (r: Result<seq<string>, GameError>)
      ensures r.Failure? <==> bornOn.None?
      ensures r.Success? ==> r.value == Ranking(Rosters())
    {
      var seen: map<string, int> := map[];
      var ordering: seq<string> := [];
      ghost var rosters := Rosters();
      var round := |rounds| - 1;
      while round >= 0
        invariant -1 <= round < |rounds|
        invariant ordering == Dedup(Visit(rosters[round + 1..]))
        invariant forall x :: x in seen <==> x in Visit(rosters[round + 1..])
      {
        var rs := rounds[round];
        var count := rs.NumPlayers();
        ghost var before := Visit(rosters[round + 1..]);
        assert before + rs.names[..0] == before;
        for player := 0 to count
          invariant ordering == Dedup(before + rs.names[..player])
          invariant forall x :: x in seen <==> x in before + rs.names[..player]
        {
          SeatInRange(rs, player);
          var name := rs.PlayerSimpleClassName(player).value;
          assert before + rs.names[..player + 1] == (before + rs.names[..player]) + [name];
          DedupAppend(before + rs.names[..player], name);
          var isNew := name !in seen;
          seen := seen[name := round];
          if isNew {
            ordering := ordering + [name];
          }
        }
        assert rosters[round..][1..] == rosters[round + 1..];
        assert rs.names[..count] == rs.names;
        round := round - 1;
      }
      assert rosters[0..] == rosters;
      if bornOn.None? {
        return Failure(NoBornOnDate);
      }
      r := Success(ordering);
    }

    /** clear: no rounds and no creation date. removeAllElements does the same. */
    method Clear()
      modifies this
      ensures rounds == [] && bornOn == None
    {
      bornOn := None;
      rounds := [];
    }
  }
}
