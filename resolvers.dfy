/** The JS GraphQL mutation resolvers: the guarded tournament lifecycle, bracket generation and
    match play over the document store. */
module Resolvers {
  import opened Common
  import opened Bits
  import opened Rounds
  import opened MongoStore

  /** The resolver's `isPowerOf2` test `n > 0 && (n & (n - 1)) === 0`. */
  function IsPowerOf2(n: int): (b: bool)
    ensures b <==> n > 0 && IsPowerOfTwo(n)
  {
    if n > 0 then PowerOfTwoTest(n); And(n, n - 1) == 0 else false
  }

  /** The JS order of checks on a result: a winner who is not a player first, then a decided match. */
  function PlayCheck(x: Match, w: int): (e: Option<Error>)
    ensures e.None? <==> x.winner.None? && IsPlayer(x, w)
    ensures !IsPlayer(x, w) ==> e == Some(NotAPlayer)
    ensures IsPlayer(x, w) && x.winner.Some? ==> e == Some(AlreadyHasWinner)
  {
    if !IsPlayer(x, w) then Some(NotAPlayer)
    else if x.winner.Some? then Some(AlreadyHasWinner)
    else None
  }

  /** One JS lifecycle mutation on an existing tournament, with its guards: users join only an
      upcoming tournament and only once, start only from upcoming, finish from anything but completed. */
  function Apply(t: Tournament, op: LifecycleOp, users: set<int>): (r: Result<Tournament>)
    ensures r.Success? ==> r.value.name == t.name
    ensures r.Success? && op.Join? ==>
      t.status == Upcoming && op.user in users && op.user !in t.participants &&
      r.value == t.(participants := t.participants + [op.user])
    ensures r.Success? && !op.Join? ==> Rank(r.value.status) > Rank(t.status) && r.value.participants == t.participants
    ensures r.Success? && NoDuplicates(t.participants) ==> NoDuplicates(r.value.participants)
    ensures op.Join? ==> (r.Success? <==> t.status == Upcoming && op.user in users && op.user !in t.participants)
    ensures op.Join? && t.status != Upcoming ==> r == Failure(NotUpcoming)
    ensures op.Join? && t.status == Upcoming && op.user !in users ==> r == Failure(UserNotFound)
    ensures op.Join? && t.status == Upcoming && op.user in users && op.user in t.participants ==>
      r == Failure(AlreadyParticipant)
    ensures op.Start? ==> (r.Success? <==> t.status == Upcoming)
    ensures op.Finish? ==> (r.Success? <==> t.status != Completed)
    ensures op.Start? && r.Failure? ==> r.error == AlreadyStarted
    ensures op.Finish? && r.Failure? ==> r.error == AlreadyFinished
    ensures t.status == Completed ==> r.Failure?
  {
    match op
    case Join(u) =>
      if t.status != Upcoming then Failure(NotUpcoming)
      else if u !in users then Failure(UserNotFound)
      else if u in t.participants then Failure(AlreadyParticipant)
      else Success(t.(participants := t.participants + [u]))
    case Start =>
      if t.status != Upcoming then Failure(AlreadyStarted) else Success(t.(status := Ongoing))
    case Finish =>
      if t.status == Completed then Failure(AlreadyFinished) else Success(t.(status := Completed))
  }

  /** A run of JS lifecycle mutations on one tournament; a rejected call leaves it unchanged. */
  function Run(t: Tournament, ops: seq<LifecycleOp>, users: set<int>): Tournament
    decreases |ops|
  {
    if ops == [] then t
    else
      var r := Apply(t, ops[0], users);
      Run(if r.Success? then r.value else t, ops[1..], users)
  }

  /** Whatever mutations are run, the status only moves forward, a completed tournament never
      changes again, the participant list is frozen once the tournament has started, and it stays
      duplicate-free. */
  lemma {:induction false} RunForward(t: Tournament, ops: seq<LifecycleOp>, users: set<int>)
    requires NoDuplicates(t.participants)
    ensures Rank(Run(t, ops, users).status) >= Rank(t.status)
    ensures t.status == Completed ==> Run(t, ops, users) == t
    ensures t.status != Upcoming ==> Run(t, ops, users).participants == t.participants
    ensures NoDuplicates(Run(t, ops, users).participants)
    decreases |ops|
  {
    if ops != [] {
      var r := Apply(t, ops[0], users);
      RunForward(if r.Success? then r.value else t, ops[1..], users);
    }
  }

  /** What generateBracket does to the store: reject a missing tournament, then an existing bracket,
      then fewer than two participants, then a count that is not a power of two, leaving the store
      as it was; otherwise add one bracket listing the ids of its round-1 pairings. */
  twostate predicate BracketGenerated(db: Db, tournamentId: int, new r: Result<nat>)
    reads db
  {
    var ts, bs, ms := old(db.tournaments), old(db.brackets), old(db.matches);
    db.users == old(db.users) && db.tournaments == ts &&
    if !(0 <= tournamentId < |ts|) then
      r == Failure(TournamentNotFound) && db.brackets == bs && db.matches == ms
    else if HasBracket(bs, tournamentId) then
      r == Failure(BracketAlreadyExists) && db.brackets == bs && db.matches == ms
    else if |ts[tournamentId].participants| < 2 then
      r == Failure(TooFewParticipants) && db.brackets == bs && db.matches == ms
    else if !IsPowerOf2(|ts[tournamentId].participants|) then
      r == Failure(NotPowerOfTwo) && db.brackets == bs && db.matches == ms
    else
      var ps := ts[tournamentId].participants;
      r == Success(|bs|) &&
      db.matches == ms + Pairings(ps, |bs|, 1) &&
      db.brackets == bs + [Bracket(tournamentId, IdRange(|ms|, |ps| / 2))]
  }

  /** What playMatch does to the store: reject a missing match, then a winner who is not a player,
      then a decided match, leaving the store as it was; otherwise record the winner, append the next
      round when the played round is complete, and extend the bracket's list by the new ids. */
  twostate predicate MatchPlayed(db: Db, matchId: int, winnerId: int, new r: Result<Match>)
    reads db
  {
    var bs, ms := old(db.brackets), old(db.matches);
    db.users == old(db.users) && db.tournaments == old(db.tournaments) &&
    if !(0 <= matchId < |ms|) then
      r == Failure(MatchNotFound) && db.brackets == bs && db.matches == ms
    else if PlayCheck(ms[matchId], winnerId).Some? then
      r == Failure(PlayCheck(ms[matchId], winnerId).value) && db.brackets == bs && db.matches == ms
    else
      var b := ms[matchId].bracket;
      var ms1 := Played(ms, matchId, winnerId);
      var nx := NextRound(ms1, b, ms[matchId].round);
      db.matches == ms1 + nx &&
      b < |bs| && db.brackets == bs[b := bs[b].(matches := bs[b].matches + IdRange(|ms|, |nx|))] &&
      r == Success(ms1[matchId])
  }

  method CreateTournament(name: string, db: Db) returns (id: nat)
    requires db.Valid()
    modifies db
    ensures db.Valid()
    ensures id == |old(db.tournaments)|
    ensures db.tournaments == old(db.tournaments) + [NewTournament(name)]
    ensures db.users == old(db.users) && db.brackets == old(db.brackets) && db.matches == old(db.matches)
  {
    id := |db.tournaments|;
    db.tournaments := db.tournaments + [NewTournament(name)];
  }

  method AddParticipant(tournamentId: int, userId: int, db: Db) returns (r: Result<Tournament>)
    requires db.Valid()
    modifies db
    ensures db.Valid()
    ensures db.users == old(db.users) && db.brackets == old(db.brackets) && db.matches == old(db.matches)
    ensures !(0 <= tournamentId < |old(db.tournaments)|) ==>
      r == Failure(TournamentNotFound) && db.tournaments == old(db.tournaments)
    ensures 0 <= tournamentId < |old(db.tournaments)| ==>
      r == Apply(old(db.tournaments)[tournamentId], Join(userId), old(db.users)) &&
      db.tournaments == if r.Failure? then old(db.tournaments) else old(db.tournaments)[tournamentId := r.value]
  {
    if !(0 <= tournamentId < |db.tournaments|) {
      return Failure(TournamentNotFound);
    }
    var tournament := db.tournaments[tournamentId];
    if tournament.status != Upcoming {
      return Failure(NotUpcoming);
    }
    if userId !in db.users {
      return Failure(UserNotFound);
    }
    if userId in tournament.participants {
      return Failure(AlreadyParticipant);
    }
    tournament := tournament.(participants := tournament.participants + [userId]);
    db.tournaments := db.tournaments[tournamentId := tournament];
    r := Success(tournament);
  }

  method StartTournament(tournamentId: int, db: Db) returns (r: Result<Tournament>)
    requires db.Valid()
    modifies db
    ensures db.Valid()
    ensures db.users == old(db.users) && db.brackets == old(db.brackets) && db.matches == old(db.matches)
    ensures !(0 <= tournamentId < |old(db.tournaments)|) ==>
      r == Failure(TournamentNotFound) && db.tournaments == old(db.tournaments)
    ensures 0 <= tournamentId < |old(db.tournaments)| ==>
      r == Apply(old(db.tournaments)[tournamentId], Start, old(db.users)) &&
      db.tournaments == if r.Failure? then old(db.tournaments) else old(db.tournaments)[tournamentId := r.value]
  {
    if !(0 <= tournamentId < |db.tournaments|) {
      return Failure(TournamentNotFound);
    }
    var tournament := db.tournaments[tournamentId];
    if tournament.status != Upcoming {
      return Failure(AlreadyStarted);
    }
    tournament := tournament.(status := Ongoing);
    db.tournaments := db.tournaments[tournamentId := tournament];
    r := Success(tournament);
  }

  method FinishTournament(tournamentId: int, db: Db) returns (r: Result<Tournament>)
    requires db.Valid()
    modifies db
    ensures db.Valid()
    ensures db.users == old(db.users) && db.brackets == old(db.brackets) && db.matches == old(db.matches)
    ensures !(0 <= tournamentId < |old(db.tournaments)|) ==>
      r == Failure(TournamentNotFound) && db.tournaments == old(db.tournaments)
    ensures 0 <= tournamentId < |old(db.tournaments)| ==>
      r == Apply(old(db.tournaments)[tournamentId], Finish, old(db.users)) &&
      db.tournaments == if r.Failure? then old(db.tournaments) else old(db.tournaments)[tournamentId := r.value]
  {
    if !(0 <= tournamentId < |db.tournaments|) {
      return Failure(TournamentNotFound);
    }
    var tournament := db.tournaments[tournamentId];
    if tournament.status == Completed {
      return Failure(AlreadyFinished);
    }
    tournament := tournament.(status := Completed);
    db.tournaments := db.tournaments[tournamentId := tournament];
    r := Success(tournament);
  }

  /** The round-1 loop of generateBracket: each match is saved as it is made and its id pushed. */
  method SaveRoundOne(db: Db, participants: seq<int>, bracketId: nat) returns (ids: seq<nat>)
    requires |participants| % 2 == 0
    modifies db
    ensures db.matches == old(db.matches) + Pairings(participants, bracketId, 1)
    ensures ids == IdRange(|old(db.matches)|, |participants| / 2)
    ensures db.users == old(db.users) && db.tournaments == old(db.tournaments) && db.brackets == old(db.brackets)
    ensures db.exponent == old(db.exponent) && db.current == old(db.current)
  {
    ghost var base := db.matches;
    ids := [];
    var i := 0;
    while i < |participants|
      invariant 0 <= i <= |participants| && i % 2 == 0
      invariant |ids| == i / 2 && ids == IdRange(|base|, |ids|)
      invariant |db.matches| == |base| + |ids| && db.matches[..|base|] == base
      invariant forall k :: 0 <= k < |ids| ==>
        db.matches[|base| + k] == Match(bracketId, 1, participants[2 * k], participants[2 * k + 1], None)
      invariant db.users == old(db.users) && db.tournaments == old(db.tournaments) && db.brackets == old(db.brackets)
      invariant db.exponent == old(db.exponent) && db.current == old(db.current)
    {
      var newMatch := Match(bracketId, 1, participants[i], participants[i + 1], None);
      ids := ids + [|db.matches|];
      db.matches := db.matches + [newMatch];
      i := i + 2;
    }
    assert db.matches == base + Pairings(participants, bracketId, 1);
  }

  method GenerateBracket(tournamentId: int, db: Db) returns (r: Result<nat>)
    requires db.Valid()
    modifies db
    ensures db.Valid()
    ensures BracketGenerated(db, tournamentId, r)
  {
    if !(0 <= tournamentId < |db.tournaments|) {
      return Failure(TournamentNotFound);
    }
    if exists j :: 0 <= j < |db.brackets| && db.brackets[j].tournament == tournamentId {
      return Failure(BracketAlreadyExists);
    }
    var participants := db.tournaments[tournamentId].participants;
    if |participants| < 2 {
      return Failure(TooFewParticipants);
    }
    if !IsPowerOf2(|participants|) {
      return Failure(NotPowerOfTwo);
    }
    r := CreateBracket(tournamentId, db);
  }

  /** The success path of generateBracket: save the bracket, then its round-1 matches one by one,
      then the bracket again with their ids. */
  method CreateBracket(tournamentId: nat, db: Db) returns (r: Result<nat>)
    requires db.Valid()
    requires tournamentId < |db.tournaments| && !HasBracket(db.brackets, tournamentId)
    requires |db.tournaments[tournamentId].participants| >= 2
    requires IsPowerOf2(|db.tournaments[tournamentId].participants|)
    modifies db
    ensures db.Valid()
    ensures var ps := old(db.tournaments)[tournamentId].participants;
      r == Success(|old(db.brackets)|) &&
      db.users == old(db.users) && db.tournaments == old(db.tournaments) &&
      db.matches == old(db.matches) + Pairings(ps, |old(db.brackets)|, 1) &&
      db.brackets == old(db.brackets) + [Bracket(tournamentId, IdRange(|old(db.matches)|, |ps| / 2))]
  {
    var participants := db.tournaments[tournamentId].participants;
    ConsistentAfterGenerate(db.tournaments, db.brackets, db.matches, db.exponent, db.current, tournamentId);
    var bracketId := |db.brackets|;
    db.brackets := db.brackets + [Bracket(tournamentId, [])];
    var matches := SaveRoundOne(db, participants, bracketId);
    db.brackets := db.brackets[bracketId := Bracket(tournamentId, matches)];
    db.exponent := db.exponent + [Log2(|participants|)];
    db.current := db.current + [1];
    r := Success(bracketId);
  }

  /** The next-round loop of playMatch: winners i and i + 1 are paired and saved while i + 1 is
      within the list, and the new ids are collected in order. A last unpaired winner is skipped. */
  method SaveNextRound(db: Db, winners: seq<int>, bracketId: nat, nextRound: nat) returns (newMatches: seq<nat>)
    modifies db
    ensures db.matches == old(db.matches) + Pairings(winners, bracketId, nextRound)
    ensures newMatches == IdRange(|old(db.matches)|, |winners| / 2)
    ensures db.users == old(db.users) && db.tournaments == old(db.tournaments) && db.brackets == old(db.brackets)
    ensures db.exponent == old(db.exponent) && db.current == old(db.current)
  {
    ghost var base := db.matches;
    newMatches := [];
    var i := 0;
    while i < |winners|
      invariant 0 <= i <= |winners| + 1 && i % 2 == 0
      invariant |newMatches| == (if i <= |winners| then i else |winners|) / 2
      invariant newMatches == IdRange(|base|, |newMatches|)
      invariant |db.matches| == |base| + |newMatches| && db.matches[..|base|] == base
      invariant forall k :: 0 <= k < |newMatches| ==>
        db.matches[|base| + k] == Match(bracketId, nextRound, winners[2 * k], winners[2 * k + 1], None)
      invariant db.users == old(db.users) && db.tournaments == old(db.tournaments) && db.brackets == old(db.brackets)
      invariant db.exponent == old(db.exponent) && db.current == old(db.current)
    {
      if i + 1 < |winners| {
        var nextMatch := Match(bracketId, nextRound, winners[i], winners[i + 1], None);
        newMatches := newMatches + [|db.matches|];
        db.matches := db.matches + [nextMatch];
      }
      i := i + 2;
    }
    assert db.matches == base + Pairings(winners, bracketId, nextRound);
  }

  /** The advancement step of playMatch: when every match of the round has a winner and there is
      more than one, save the pairings of the winners as the next round and append their ids to the
      bracket's list. */
  method AdvanceRound(db: Db, bracketId: nat, round: nat)
    requires bracketId < |db.brackets|
    modifies db
    ensures db.matches == old(db.matches) + NextRound(old(db.matches), bracketId, round)
    ensures var bs := old(db.brackets);
      db.brackets == bs[bracketId := bs[bracketId].(matches := bs[bracketId].matches +
        IdRange(|old(db.matches)|, |NextRound(old(db.matches), bracketId, round)|))]
    ensures db.users == old(db.users) && db.tournaments == old(db.tournaments)
    ensures db.exponent == old(db.exponent) && db.current == old(db.current)
  {
    var currentRoundMatches := RoundOf(db.matches, bracketId, round);
    var allCompleted := AllDecided(currentRoundMatches);
    if allCompleted && |currentRoundMatches| > 1 {
      var winners := Winners(currentRoundMatches);
      var newMatches := SaveNextRound(db, winners, bracketId, round + 1);
      var bracket := db.brackets[bracketId];
      db.brackets := db.brackets[bracketId := bracket.(matches := bracket.matches + newMatches)];
    } else {
      var bracket := db.brackets[bracketId];
      assert IdRange(|db.matches|, 0) == [];
      assert bracket.(matches := bracket.matches + []) == bracket;
      assert db.brackets == db.brackets[bracketId := bracket];
    }
  }

  method PlayMatch(matchId: int, winnerId: int, db: Db) returns (r: Result<Match>)
    requires db.Valid()
    modifies db
    ensures db.Valid()
    ensures MatchPlayed(db, matchId, winnerId, r)
  {
    if !(0 <= matchId < |db.matches|) {
      return Failure(MatchNotFound);
    }
    var m := db.matches[matchId];
    if winnerId != m.player1 && winnerId != m.player2 {
      return Failure(NotAPlayer);
    }
    if m.winner.Some? {
      return Failure(AlreadyHasWinner);
    }
    r := RecordResult(matchId, winnerId, db);
  }

  /** Stores the winner of one match; nothing else in the store changes. */
  method SaveWinner(db: Db, matchId: nat, winnerId: int)
    requires matchId < |db.matches|
    modifies db
    ensures db.matches == Played(old(db.matches), matchId, winnerId)
    ensures db.users == old(db.users) && db.tournaments == old(db.tournaments) && db.brackets == old(db.brackets)
    ensures db.exponent == old(db.exponent) && db.current == old(db.current)
  {
    var m := db.matches[matchId];
    db.matches := db.matches[matchId := m.(winner := Some(winnerId))];
  }

  /** The success path of playMatch: save the winner, then advance the round. */
  method RecordResult(matchId: nat, winnerId: int, db: Db) returns (r: Result<Match>)
    requires db.Valid()
    requires matchId < |db.matches| && IsPlayer(db.matches[matchId], winnerId) && db.matches[matchId].winner.None?
    modifies db
    ensures db.Valid()
    ensures var ms, bs := old(db.matches), old(db.brackets);
      var b := ms[matchId].bracket;
      var ms1 := Played(ms, matchId, winnerId);
      var nx := NextRound(ms1, b, ms[matchId].round);
      db.users == old(db.users) && db.tournaments == old(db.tournaments) &&
      db.matches == ms1 + nx &&
      b < |bs| && db.brackets == bs[b := bs[b].(matches := bs[b].matches + IdRange(|ms|, |nx|))] &&
      r == Success(ms1[matchId])
  {
    ghost var ts, bs, ms, exps, cur := db.tournaments, db.brackets, db.matches, db.exponent, db.current;
    ghost var b := ms[matchId].bracket;
    ghost var nx := NextRound(Played(ms, matchId, winnerId), b, ms[matchId].round);
    var m := db.matches[matchId];
    SaveWinner(db, matchId, winnerId);
    AdvanceRound(db, m.bracket, m.round);
    db.current := cur[b := if nx == [] then cur[b] else cur[b] + 1];
    ValidAfterPlay(db, ts, bs, ms, exps, cur, matchId, winnerId);
    r := Success(db.matches[matchId]);
  }
}
