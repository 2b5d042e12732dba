/** The C# tournament service: bracket generation and match play over the relational store. */
module TournamentService {
  import opened Common
  import opened Bits
  import opened Rounds
  import opened EfStore

  /** The C# order of checks on a result: a decided match first, then a winner who is not a player. */
  function PlayCheck(x: Match, w: int): (e: Option<Error>)
    ensures e.None? <==> x.winner.None? && IsPlayer(x, w)
    ensures x.winner.Some? ==> e == Some(AlreadyHasWinner)
    ensures x.winner.None? && !IsPlayer(x, w) ==> e == Some(NotAPlayer)
  {
    if x.winner.Some? then Some(AlreadyHasWinner)
    else if !IsPlayer(x, w) then Some(NotAPlayer)
    else None
  }

  /** What GenerateBracketAsync does to the store: reject a missing tournament, then a tournament
      that already has a bracket, then a participant count that fails `n >= 2 && n & (n - 1) == 0`,
      leaving the store as it was; otherwise add one bracket and its round-1 pairings. */
  twostate predicate BracketGenerated(db: Db, tournamentId: int, new r: Result<nat>)
    reads db
  {
    var ts, bs, ms := old(db.tournaments), old(db.brackets), old(db.matches);
    db.users == old(db.users) && db.tournaments == ts &&
    if !(0 <= tournamentId < |ts|) then
      r == Failure(TournamentNotFound) && db.brackets == bs && db.matches == ms
    else if HasBracket(bs, tournamentId) then
      r == Failure(BracketAlreadyExists) && db.brackets == bs && db.matches == ms
    else if !ValidCount(|ts[tournamentId].participants|) then
      r == Failure(InvalidParticipantCount) && db.brackets == bs && db.matches == ms
    else
      r == Success(|bs|) && db.brackets == bs + [tournamentId] &&
      db.matches == ms + Pairings(ts[tournamentId].participants, |bs|, 1)
  }

  /** What PlayMatchAsync does to the store: reject a missing match, then a decided match, then a
      winner who is not a player, leaving the store as it was; otherwise record the winner and append
      the next round when the played round is complete. The result is the updated match. */
  twostate predicate MatchPlayed(db: Db, matchId: int, winnerId: int, new r: Result<Match>)
    reads db
  {
    var ms := old(db.matches);
    db.users == old(db.users) && db.tournaments == old(db.tournaments) && db.brackets == old(db.brackets) &&
    if !(0 <= matchId < |ms|) then
      r == Failure(MatchNotFound) && db.matches == ms
    else if PlayCheck(ms[matchId], winnerId).Some? then
      r == Failure(PlayCheck(ms[matchId], winnerId).value) && db.matches == ms
    else
      var ms1 := Played(ms, matchId, winnerId);
      db.matches == ms1 + NextRound(ms1, ms[matchId].bracket, ms[matchId].round) &&
      r == Success(ms1[matchId])
  }

  /** The C# pairing loop `for (i = 0; i < n; i += 2)` over players[i] and players[i + 1], used for
      round 1 and for every later round. It needs an even count: players[i + 1] must exist. */
  method PairUp(players: seq<int>, bracketId: nat, round: nat) returns (matches: seq<Match>)
    requires |players| % 2 == 0
    ensures matches == Pairings(players, bracketId, round)
    ensures |matches| == |players| / 2
  {
    matches := [];
    var i := 0;
    while i < |players|
      invariant 0 <= i <= |players| && i % 2 == 0
      invariant |matches| == i / 2
      invariant forall k :: 0 <= k < |matches| ==>
        matches[k] == Match(bracketId, round, players[2 * k], players[2 * k + 1], None)
    {
      matches := matches + [Match(bracketId, round, players[i], players[i + 1], None)];
      i := i + 2;
    }
  }

  class Service {
    const context: Db

    constructor (context: Db)
      ensures this.context == context
    {
      this.context := context;
    }

    method GenerateBracket(tournamentId: int) returns (r: Result<nat>)
      requires context.Valid()
      modifies context
      ensures context.Valid()
      ensures BracketGenerated(context, tournamentId, r)
    {
      if !(0 <= tournamentId < |context.tournaments|) {
        return Failure(TournamentNotFound);
      }
      if exists j :: 0 <= j < |context.brackets| && context.brackets[j] == tournamentId {
        return Failure(BracketAlreadyExists);
      }
      var participants := context.tournaments[tournamentId].participants;
      var participantCount := |participants|;
      if participantCount < 2 || And(participantCount, participantCount - 1) != 0 {
        return Failure(InvalidParticipantCount);
      }
      r := CreateBracket(tournamentId);
    }

    /** The success path of GenerateBracketAsync: save the bracket, then its round-1 matches. */
    method CreateBracket(tournamentId: nat) returns (r: Result<nat>)
      requires context.Valid()
      requires tournamentId < |context.tournaments| && !HasBracket(context.brackets, tournamentId)
      requires ValidCount(|context.tournaments[tournamentId].participants|)
      modifies context
      ensures context.Valid()
      ensures var ps := old(context.tournaments)[tournamentId].participants;
        r == Success(|old(context.brackets)|) &&
        context.users == old(context.users) && context.tournaments == old(context.tournaments) &&
        context.brackets == old(context.brackets) + [tournamentId] &&
        context.matches == old(context.matches) + Pairings(ps, |old(context.brackets)|, 1)
    {
      var participants := context.tournaments[tournamentId].participants;
      var participantCount := |participants|;
      ConsistentAfterGenerate(context.tournaments, context.brackets, context.matches, context.exponent, context.current, tournamentId);
      ValidCountExponent(participantCount);
      var bracketId := |context.brackets|;
      context.brackets := context.brackets + [tournamentId];

      var matches := PairUp(participants, bracketId, 1);
      context.matches := context.matches + matches;
      context.exponent := context.exponent + [Log2(participantCount)];
      context.current := context.current + [1];
      r := Success(bracketId);
    }

    /** The advancement step of PlayMatchAsync: when every match of the round has a winner and
        there is more than one, the winners in round order are paired into the next round. */
    method AdvanceRound(bracketId: nat, round: nat)
      requires var rm := RoundOf(context.matches, bracketId, round); AllDecided(rm) && |rm| > 1 ==> |rm| % 2 == 0
      modifies context
      ensures context.matches == old(context.matches) + NextRound(old(context.matches), bracketId, round)
      ensures context.users == old(context.users) && context.tournaments == old(context.tournaments)
      ensures context.brackets == old(context.brackets)
      ensures context.exponent == old(context.exponent) && context.current == old(context.current)
    {
      var currentRoundMatches := RoundOf(context.matches, bracketId, round);
      if AllDecided(currentRoundMatches) {
        var winners := Winners(currentRoundMatches);
        if |winners| > 1 {
          var nextRoundMatches := PairUp(winners, bracketId, round + 1);
          context.matches := context.matches + nextRoundMatches;
        }
      }
    }

    method PlayMatch(matchId: int, winnerId: int) returns (r: Result<Match>)
      requires context.Valid()
      modifies context
      ensures context.Valid()
      ensures MatchPlayed(context, matchId, winnerId, r)
    {
      if !(0 <= matchId < |context.matches|) {
        return Failure(MatchNotFound);
      }
      var m := context.matches[matchId];
      if m.winner.Some? {
        return Failure(AlreadyHasWinner);
      }
      if winnerId != m.player1 && winnerId != m.player2 {
        return Failure(NotAPlayer);
      }
      r := RecordResult(matchId, winnerId);
    }

    /** The success path of PlayMatchAsync: save the winner, then advance the round. */
    /** Sets the winner of one match and saves the change; nothing else in the store changes. */
    method SaveWinner(matchId: nat, winnerId: int)
      requires matchId < |context.matches|
      modifies context
      ensures context.matches == Played(old(context.matches), matchId, winnerId)
      ensures context.users == old(context.users) && context.tournaments == old(context.tournaments)
      ensures context.brackets == old(context.brackets)
      ensures context.exponent == old(context.exponent) && context.current == old(context.current)
    {
      var m := context.matches[matchId];
      context.matches := context.matches[matchId := m.(winner := Some(winnerId))];
    }

    method RecordResult(matchId: nat, winnerId: int) returns (r: Result<Match>)
      requires context.Valid()
      requires matchId < |context.matches| && IsPlayer(context.matches[matchId], winnerId)
      requires context.matches[matchId].winner.None?
      modifies context
      ensures context.Valid()
      ensures var ms := old(context.matches);
        var ms1 := Played(ms, matchId, winnerId);
        context.users == old(context.users) && context.tournaments == old(context.tournaments) &&
        context.brackets == old(context.brackets) &&
        context.matches == ms1 + NextRound(ms1, ms[matchId].bracket, ms[matchId].round) &&
        r == Success(ms1[matchId])
    {
      ghost var ts, bs, ms, exps, cur := context.tournaments, context.brackets, context.matches, context.exponent, context.current;
      CompletedRoundEven(ts, bs, ms, exps, cur, matchId, winnerId);
      ghost var b := ms[matchId].bracket;
      ghost var nx := NextRound(Played(ms, matchId, winnerId), b, ms[matchId].round);
      var m := context.matches[matchId];
      SaveWinner(matchId, winnerId);
      AdvanceRound(m.bracket, m.round);
      context.current := cur[b := if nx == [] then cur[b] else cur[b] + 1];
      ValidAfterPlay(context, ts, bs, ms, exps, cur, matchId, winnerId);
      r := Success(context.matches[matchId]);
    }
  }
}
