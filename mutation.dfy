/** The C# GraphQL mutations for the tournament lifecycle. None of them checks the status:
    start and finish overwrite it, and participants are added in any status. */
module Mutation {
  import opened Common
  import opened Rounds
  import opened EfStore
  import opened TournamentService

  /** One C# lifecycle mutation on an existing tournament; None is the null returned for a missing user.
      No status is checked: start and finish overwrite it, and users join in any status. */
  function Apply(t: Tournament, op: LifecycleOp, users: set<int>): (r: Option<Tournament>)
    ensures r.None? <==> op.Join? && op.user !in users
    ensures r.Some? ==> r.value.name == t.name
    ensures r.Some? && op.Join? ==>
      r.value.status == t.status && op.user in r.value.participants &&
      (forall x :: x in r.value.participants <==> x in t.participants || x == op.user)
    ensures r.Some? && NoDuplicates(t.participants) ==> NoDuplicates(r.value.participants)
    ensures r.Some? && !op.Join? ==> r.value.participants == t.participants
    ensures op.Start? ==> r == Some(t.(status := Ongoing))
    ensures op.Finish? ==> r == Some(t.(status := Completed))
  {
    match op
    case Join(u) => if u in users then Some(t.(participants := Enrol(t.participants, u))) else None
    case Start => Some(t.(status := Ongoing))
    case Finish => Some(t.(status := Completed))
  }

  /** A run of C# lifecycle mutations on one tournament; a null result leaves it unchanged. */
  function Run(t: Tournament, ops: seq<LifecycleOp>, users: set<int>): Tournament
    decreases |ops|
  {
    if ops == [] then t
    else
      var r := Apply(t, ops[0], users);
      Run(if r.Some? then r.value else t, ops[1..], users)
  }

  /** Whatever mutations are run, the participant list stays duplicate-free and only grows. */
  lemma {:induction false} RunKeepsParticipants(t: Tournament, ops: seq<LifecycleOp>, users: set<int>)
    requires NoDuplicates(t.participants)
    ensures NoDuplicates(Run(t, ops, users).participants)
    ensures forall x :: x in t.participants ==> x in Run(t, ops, users).participants
    decreases |ops|
  {
    if ops != [] {
      var r := Apply(t, ops[0], users);
      RunKeepsParticipants(if r.Some? then r.value else t, ops[1..], users);
    }
  }

  /** Without guards the lifecycle is not monotone: from any status, finishing and then starting
      a tournament leaves it ongoing, so every completed tournament can be reopened. */
  lemma {:induction false} FinishThenStart(t: Tournament, users: set<int>)
    ensures Run(t, [Finish, Start], users) == t.(status := Ongoing)
    ensures t.status == Completed ==> Rank(Run(t, [Finish, Start], users).status) < Rank(t.status)
  {
    var t1 := t.(status := Completed);
    assert Apply(t, Finish, users) == Some(t1);
    assert [Finish, Start][1..] == [Start];
    assert Apply(t1, Start, users) == Some(t.(status := Ongoing));
    assert [Start][1..] == [];
  }

  method CreateTournament(name: string, context: Db) returns (id: nat)
    requires context.Valid()
    modifies context
    ensures context.Valid()
    ensures id == |old(context.tournaments)|
    ensures context.tournaments == old(context.tournaments) + [NewTournament(name)]
    ensures context.users == old(context.users) && context.brackets == old(context.brackets)
    ensures context.matches == old(context.matches)
  {
    id := |context.tournaments|;
    context.tournaments := context.tournaments + [NewTournament(name)];
  }

  /** Returns None and changes nothing for a missing tournament; otherwise applies the enrolment. */
  method AddParticipant(tournamentId: int, userId: int, context: Db) returns (r: Option<Tournament>)
    requires context.Valid()
    modifies context
    ensures context.Valid()
    ensures context.users == old(context.users) && context.brackets == old(context.brackets)
    ensures context.matches == old(context.matches)
    ensures !(0 <= tournamentId < |old(context.tournaments)|) ==>
      r == None && context.tournaments == old(context.tournaments)
    ensures 0 <= tournamentId < |old(context.tournaments)| ==>
      r == Apply(old(context.tournaments)[tournamentId], Join(userId), old(context.users)) &&
      context.tournaments == if r.None? then old(context.tournaments) else old(context.tournaments)[tournamentId := r.value]
  {
    if !(0 <= tournamentId < |context.tournaments|) {
      return None;
    }
    if userId !in context.users {
      return None;
    }
    var tournament := context.tournaments[tournamentId];
    if userId !in tournament.participants {
      tournament := tournament.(participants := tournament.participants + [userId]);
      context.tournaments := context.tournaments[tournamentId := tournament];
    }
    r := Some(tournament);
  }

  method StartTournament(tournamentId: int, context: Db) returns (r: Option<Tournament>)
    requires context.Valid()
    modifies context
    ensures context.Valid()
    ensures context.users == old(context.users) && context.brackets == old(context.brackets)
    ensures context.matches == old(context.matches)
    ensures !(0 <= tournamentId < |old(context.tournaments)|) ==>
      r == None && context.tournaments == old(context.tournaments)
    ensures 0 <= tournamentId < |old(context.tournaments)| ==>
      r == Apply(old(context.tournaments)[tournamentId], Start, old(context.users)) &&
      context.tournaments == old(context.tournaments)[tournamentId := r.value]
  {
    if !(0 <= tournamentId < |context.tournaments|) {
      return None;
    }
    var tournament := context.tournaments[tournamentId].(status := Ongoing);
    context.tournaments := context.tournaments[tournamentId := tournament];
    r := Some(tournament);
  }

  method FinishTournament(tournamentId: int, context: Db) returns (r: Option<Tournament>)
    requires context.Valid()
    modifies context
    ensures context.Valid()
    ensures context.users == old(context.users) && context.brackets == old(context.brackets)
    ensures context.matches == old(context.matches)
    ensures !(0 <= tournamentId < |old(context.tournaments)|) ==>
      r == None && context.tournaments == old(context.tournaments)
    ensures 0 <= tournamentId < |old(context.tournaments)| ==>
      r == Apply(old(context.tournaments)[tournamentId], Finish, old(context.users)) &&
      context.tournaments == old(context.tournaments)[tournamentId := r.value]
  {
    if !(0 <= tournamentId < |context.tournaments|) {
      return None;
    }
    var tournament := context.tournaments[tournamentId].(status := Completed);
    context.tournaments := context.tournaments[tournamentId := tournament];
    r := Some(tournament);
  }

  /** Bracket generation is the service's, unchanged. */
  method GenerateBracket(tournamentId: int, tournamentService: Service) returns (r: Result<nat>)
    requires tournamentService.context.Valid()
    modifies tournamentService.context
    ensures tournamentService.context.Valid()
    ensures BracketGenerated(tournamentService.context, tournamentId, r)
  {
    r := tournamentService.GenerateBracket(tournamentId);
  }

  /** Match play is the service's, unchanged. */
  method PlayMatch(matchId: int, winnerId: int, tournamentService: Service) returns (r: Result<Match>)
    requires tournamentService.context.Valid()
    modifies tournamentService.context
    ensures tournamentService.context.Valid()
    ensures MatchPlayed(tournamentService.context, matchId, winnerId, r)
  {
    r := tournamentService.PlayMatch(matchId, winnerId);
  }
}
