/** The two implementations side by side: where they agree and where they differ. */
module Comparison {
  import opened Common
  import opened Bits
  import opened Rounds
  import Mutation
  import TournamentService
  import Resolvers

  /** Both generators accept exactly the same participant counts: the C# test
      `count < 2 || (count & (count - 1)) != 0` rejects what the JS tests `length < 2` and
      `isPowerOf2` reject together, and the C# error is the only one for both JS cases. */
  lemma GenerateGuardsAgree(n: nat)
    ensures ValidCount(n) <==> n >= 2 && Resolvers.IsPowerOf2(n)
    ensures ValidCount(n) <==> exists m: nat :: m >= 1 && Pow2(m) == n
  {
    ValidCountIsPow2(n);
  }

  /** Both play checks reject the same inputs; they report a different error exactly when the
      match already has a winner and the named winner is not one of its players. */
  lemma PlayChecksAgree(x: Match, w: int)
    ensures TournamentService.PlayCheck(x, w).Some? <==> Resolvers.PlayCheck(x, w).Some?
    ensures TournamentService.PlayCheck(x, w) != Resolvers.PlayCheck(x, w) <==>
      x.winner.Some? && !IsPlayer(x, w)
  {
  }

  /** Every lifecycle call the JS resolvers accept the C# mutations accept too, with the same
      result; the C# side also accepts calls the JS rejects (a second start, restarting a
      completed tournament, joining twice, joining a tournament that has begun). */
  lemma JsAcceptedIsCsAccepted(t: Tournament, op: LifecycleOp, users: set<int>)
    ensures Resolvers.Apply(t, op, users).Success? ==>
      Mutation.Apply(t, op, users) == Some(Resolvers.Apply(t, op, users).value)
    ensures t.status == Completed && op.Start? ==>
      Resolvers.Apply(t, op, users).Failure? && Mutation.Apply(t, op, users) == Some(t.(status := Ongoing))
  {
  }

  /** Player k of an even list plays in match k / 2 of its pairings. */
  lemma PairingHas(ws: seq<int>, b: nat, r: nat, k: nat)
    requires |ws| % 2 == 0 && k < |ws|
    ensures k / 2 < |Pairings(ws, b, r)| && IsPlayer(Pairings(ws, b, r)[k / 2], ws[k])
  {
    var j := k / 2;
    assert k == 2 * j || k == 2 * j + 1;
  }

  /** Pairing an even list of players puts every one of them into some match. */
  lemma PairingsCover(ws: seq<int>, b: nat, r: nat)
    requires |ws| % 2 == 0
    ensures 2 * |Pairings(ws, b, r)| == |ws|
    ensures forall k :: 0 <= k < |ws| ==>
      exists j :: 0 <= j < |Pairings(ws, b, r)| && IsPlayer(Pairings(ws, b, r)[j], ws[k])
  {
    forall k | 0 <= k < |ws|
      ensures exists j :: 0 <= j < |Pairings(ws, b, r)| && IsPlayer(Pairings(ws, b, r)[j], ws[k])
    {
      PairingHas(ws, b, r, k);
    }
  }

  /** In a bracket of the expected shape, a complete round of more than one match always has an
      even number of matches, so the JS guard `i + 1 < winners.length` never skips a winner and the
      C# access `winners[i + 1]` never leaves the list: the next round holds exactly half as many
      matches and every winner plays in one of them. */
  lemma NoWinnerDropped(ms: seq<Match>, b: nat, m: nat, c: nat, r: nat)
    requires Layered(ms, b, m, c)
    requires AllDecided(RoundOf(ms, b, r)) && |RoundOf(ms, b, r)| > 1
    ensures |RoundOf(ms, b, r)| % 2 == 0
    ensures 2 * |NextRound(ms, b, r)| == |RoundOf(ms, b, r)|
    ensures var ws := Winners(RoundOf(ms, b, r)); var nx := NextRound(ms, b, r);
      forall k :: 0 <= k < |ws| ==> exists j :: 0 <= j < |nx| && IsPlayer(nx[j], ws[k])
  {
    var rm := RoundOf(ms, b, r);
    NextRoundFacts(ms, b, m, c, r);
    PairingsCover(Winners(rm), b, r + 1);
  }
}
