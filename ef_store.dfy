/** The relational store behind the C# implementation, held in memory.
    Tournament, bracket and match ids are positions in their sequences. */
module EfStore {
  import opened Common
  import opened Bits
  import opened Rounds

  /** The tournament t owns a bracket (its `Bracket` navigation is set). */
  predicate HasBracket(brackets: seq<nat>, t: int)
  {
    exists j :: 0 <= j < |brackets| && brackets[j] == t
  }

  /** The store invariant over the store's contents: each bracket belongs to an existing
      tournament, a tournament has at most one bracket (the one-to-one key), participant lists are
      duplicate-free, and every bracket has its shape. */
  ghost predicate Consistent(ts: seq<Tournament>, bs: seq<nat>, ms: seq<Match>, exps: seq<nat>, cur: seq<nat>)
  {
    |bs| == |exps| &&
    (forall j :: 0 <= j < |bs| ==> bs[j] < |ts|) &&
    (forall j, k :: 0 <= j < k < |bs| ==> bs[j] != bs[k]) &&
    (forall t :: 0 <= t < |ts| ==> NoDuplicates(ts[t].participants)) &&
    Sound(ms, exps, cur)
  }

  class Db {
    var users: set<int>
    var tournaments: seq<Tournament>
    /** brackets[id] is the TournamentId of bracket id. */
    var brackets: seq<nat>
    var matches: seq<Match>
    /** Per bracket: its 2^exponent players and its latest round. */
    ghost var exponent: seq<nat>
    ghost var current: seq<nat>

    ghost predicate Valid()
      reads this
    {
      Consistent(tournaments, brackets, matches, exponent, current)
    }

    /** An empty store over a given set of registered users. */
    constructor (users: set<int>)
      ensures Valid()
      ensures this.users == users && tournaments == [] && brackets == [] && matches == []
    {
      this.users := users;
      tournaments, brackets, matches := [], [], [];
      exponent, current := [], [];
    }
  }

  /** Adding a bracket for a tournament that has none, with a valid participant count, and its
      round-1 pairings keeps the store invariant. */
  lemma ConsistentAfterGenerate(ts: seq<Tournament>, bs: seq<nat>, ms: seq<Match>, exps: seq<nat>, cur: seq<nat>, t: nat)
    requires Consistent(ts, bs, ms, exps, cur)
    requires t < |ts| && !HasBracket(bs, t) && ValidCount(|ts[t].participants|)
    ensures var ps := ts[t].participants;
      Consistent(ts, bs + [t], ms + Pairings(ps, |bs|, 1), exps + [Log2(|ps|)], cur + [1])
  {
    var ps := ts[t].participants;
    ValidCountExponent(|ps|);
    SoundAfterGenerate(ms, exps, cur, ps, Log2(|ps|));
    var bs' := bs + [t];
    forall j, k | 0 <= j < k < |bs'|
      ensures bs'[j] != bs'[k]
    {
      if k == |bs| {
        assert bs'[j] == bs[j];
      } else {
        assert bs'[j] == bs[j] && bs'[k] == bs[k];
      }
    }
    forall j | 0 <= j < |bs'|
      ensures bs'[j] < |ts|
    {
      if j < |bs| {
        assert bs'[j] == bs[j];
      }
    }
  }

  /** Recording a result for an undecided match and advancing its bracket when the round completes
      keeps the store invariant. */
  lemma ConsistentAfterPlay(ts: seq<Tournament>, bs: seq<nat>, ms: seq<Match>, exps: seq<nat>, cur: seq<nat>, i: nat, w: int)
    requires Consistent(ts, bs, ms, exps, cur)
    requires i < |ms| && ms[i].winner.None? && IsPlayer(ms[i], w)
    ensures var b := ms[i].bracket; var ms1 := Played(ms, i, w); var nx := NextRound(ms1, b, ms[i].round);
      ms[i].round == cur[b] &&
      (var rm := RoundOf(ms1, b, ms[i].round); AllDecided(rm) && |rm| > 1 ==> |rm| % 2 == 0) &&
      Consistent(ts, bs, ms1 + nx, exps, cur[b := if nx == [] then cur[b] else cur[b] + 1])
  {
    SoundAfterPlay(ms, exps, cur, i, w);
  }

  /** The round the advancer pairs after a result is recorded is even whenever it is complete and
      is not the final, so the pairing loop never reads past the winners. */
  lemma CompletedRoundEven(ts: seq<Tournament>, bs: seq<nat>, ms: seq<Match>, exps: seq<nat>, cur: seq<nat>, i: nat, w: int)
    requires Consistent(ts, bs, ms, exps, cur)
    requires i < |ms| && ms[i].winner.None? && IsPlayer(ms[i], w)
    ensures var rm := RoundOf(Played(ms, i, w), ms[i].bracket, ms[i].round);
      AllDecided(rm) && |rm| > 1 ==> |rm| % 2 == 0
  {
    SoundAfterPlay(ms, exps, cur, i, w);
  }

  /** The store is valid again once a result has been recorded and the round advanced. */
  lemma ValidAfterPlay(db: Db, ts: seq<Tournament>, bs: seq<nat>, ms: seq<Match>, exps: seq<nat>, cur: seq<nat>, i: nat, w: int)
    requires Consistent(ts, bs, ms, exps, cur)
    requires i < |ms| && ms[i].winner.None? && IsPlayer(ms[i], w)
    requires var b := ms[i].bracket; var ms1 := Played(ms, i, w); var nx := NextRound(ms1, b, ms[i].round);
      b < |cur| && db.tournaments == ts && db.brackets == bs && db.exponent == exps &&
      db.matches == ms1 + nx && db.current == cur[b := if nx == [] then cur[b] else cur[b] + 1]
    ensures db.Valid()
  {
    ConsistentAfterPlay(ts, bs, ms, exps, cur, i, w);
  }
}
