/** The document store behind the JS implementation, held in memory. A bracket document carries
    the ordered list of its match ids. Ids are positions in their sequences. */
module MongoStore {
  import opened Common
  import opened Bits
  import opened Rounds

  datatype Bracket = Bracket(tournament: nat, matches: seq<nat>)

  /** A bracket document with `tournament: t` exists. */
  predicate HasBracket(brackets: seq<Bracket>, t: int)
  {
    exists j :: 0 <= j < |brackets| && brackets[j].tournament == t
  }

  /** Every bracket's match list is the ids of its matches in creation order. */
  ghost predicate ListsMatch(brackets: seq<Bracket>, ms: seq<Match>)
  {
    forall b :: 0 <= b < |brackets| ==> brackets[b].matches == MatchIds(ms, b)
  }

  /** The store invariant over the store's contents. */
  ghost predicate Consistent(ts: seq<Tournament>, bs: seq<Bracket>, ms: seq<Match>, exps: seq<nat>, cur: seq<nat>)
  {
    |bs| == |exps| &&
    (forall j :: 0 <= j < |bs| ==> bs[j].tournament < |ts|) &&
    (forall j, k :: 0 <= j < k < |bs| ==> bs[j].tournament != bs[k].tournament) &&
    (forall t :: 0 <= t < |ts| ==> NoDuplicates(ts[t].participants)) &&
    ListsMatch(bs, ms) &&
    Sound(ms, exps, cur)
  }

  class Db {
    var users: set<int>
    var tournaments: seq<Tournament>
    var brackets: seq<Bracket>
    var matches: seq<Match>
    /** Per bracket: its 2^exponent players and its latest round. */
    ghost var exponent: seq<nat>
    ghost var current: seq<nat>

    /** Each bracket belongs to an existing tournament, a tournament has at most one bracket
        (`unique: true` on the bracket's tournament), participant lists are duplicate-free,
        bracket match lists agree with the matches, and every bracket has its shape. */
    ghost predicate Valid()
      reads this
    {
      Consistent(tournaments, brackets, matches, exponent, current)
    }

    /** An empty store over a given set of registered users. */
    constructor (users: set<int>)
      ensures Valid()
      ensures this.users == users && tournaments == [] && brackets == [] && matches == []
    {
      this.users := users;
      tournaments, brackets, matches := [], [], [];
      exponent, current := [], [];
    }
  }

  /** A new bracket whose list holds the ids of its round-1 matches keeps the lists in agreement. */
  lemma ListsAfterGenerate(bs: seq<Bracket>, ms: seq<Match>, P: seq<Match>, t: nat)
    requires ListsMatch(bs, ms)
    requires forall k :: 0 <= k < |ms| ==> ms[k].bracket < |bs|
    requires forall k :: 0 <= k < |P| ==> P[k].bracket == |bs|
    ensures ListsMatch(bs + [Bracket(t, IdRange(|ms|, |P|))], ms + P)
  {
    var bs' := bs + [Bracket(t, IdRange(|ms|, |P|))];
    forall b | 0 <= b < |bs'|
      ensures bs'[b].matches == MatchIds(ms + P, b)
    {
      MatchIdsAppend(ms, P, |bs|, b);
      if b == |bs| {
        MatchIdsNone(ms, b);
        assert MatchIds(ms + P, b) == [] + IdRange(|ms|, |P|);
      } else {
        assert bs'[b] == bs[b];
      }
    }
  }

  /** A result and the advancement it causes extend the played bracket's list by the new ids. */
  lemma ListsAfterPlay(bs: seq<Bracket>, ms: seq<Match>, i: nat, w: int)
    requires ListsMatch(bs, ms)
    requires i < |ms| && ms[i].bracket < |bs|
    ensures var b := ms[i].bracket; var ms1 := Played(ms, i, w); var nx := NextRound(ms1, b, ms[i].round);
      ListsMatch(bs[b := bs[b].(matches := bs[b].matches + IdRange(|ms|, |nx|))], ms1 + nx)
  {
    var b := ms[i].bracket;
    var x := ms[i].(winner := Some(w));
    var ms1 := Played(ms, i, w);
    assert ms1 == ms[i := x];
    var nx := NextRound(ms1, b, ms[i].round);
    var bs' := bs[b := bs[b].(matches := bs[b].matches + IdRange(|ms|, |nx|))];
    forall b' | 0 <= b' < |bs'|
      ensures bs'[b'].matches == MatchIds(ms1 + nx, b')
    {
      MatchIdsUpdate(ms, i, x, b');
      MatchIdsAppend(ms1, nx, b, b');
    }
  }

  /** Recording a result for an undecided match, advancing its bracket when the round completes and
      extending the bracket's list keeps the store invariant. */
  lemma ConsistentAfterPlay(ts: seq<Tournament>, bs: seq<Bracket>, ms: seq<Match>, exps: seq<nat>, cur: seq<nat>, i: nat, w: int)
    requires Consistent(ts, bs, ms, exps, cur)
    requires i < |ms| && ms[i].winner.None? && IsPlayer(ms[i], w)
    ensures ms[i].bracket < |bs|
    ensures var b := ms[i].bracket; var ms1 := Played(ms, i, w); var nx := NextRound(ms1, b, ms[i].round);
      Consistent(ts, bs[b := bs[b].(matches := bs[b].matches + IdRange(|ms|, |nx|))], ms1 + nx,
                 exps, cur[b := if nx == [] then cur[b] else cur[b] + 1])
  {
    SoundAfterPlay(ms, exps, cur, i, w);
    ListsAfterPlay(bs, ms, i, w);
    var b := ms[i].bracket;
    var nx := NextRound(Played(ms, i, w), b, ms[i].round);
    var bs' := bs[b := bs[b].(matches := bs[b].matches + IdRange(|ms|, |nx|))];
    assert forall j :: 0 <= j < |bs'| ==> bs'[j].tournament == bs[j].tournament;
  }

  /** The store is valid again once a result has been recorded and the round advanced. */
  lemma ValidAfterPlay(db: Db, ts: seq<Tournament>, bs: seq<Bracket>, ms: seq<Match>, exps: seq<nat>, cur: seq<nat>, i: nat, w: int)
    requires Consistent(ts, bs, ms, exps, cur)
    requires i < |ms| && ms[i].winner.None? && IsPlayer(ms[i], w)
    requires var b := ms[i].bracket; var ms1 := Played(ms, i, w); var nx := NextRound(ms1, b, ms[i].round);
      b < |bs| && b < |cur| &&
      db.tournaments == ts && db.exponent == exps && db.matches == ms1 + nx &&
      db.brackets == bs[b := bs[b].(matches := bs[b].matches + IdRange(|ms|, |nx|))] &&
      db.current == cur[b := if nx == [] then cur[b] else cur[b] + 1]
    ensures db.Valid()
  {
    ConsistentAfterPlay(ts, bs, ms, exps, cur, i, w);
  }

  /** Adding a bracket for a tournament that has none, with a valid participant count, listing
      the ids of its round-1 pairings, keeps the store invariant. */
  lemma ConsistentAfterGenerate(ts: seq<Tournament>, bs: seq<Bracket>, ms: seq<Match>, exps: seq<nat>, cur: seq<nat>, t: nat)
    requires Consistent(ts, bs, ms, exps, cur)
    requires t < |ts| && !HasBracket(bs, t) && ValidCount(|ts[t].participants|)
    ensures var ps := ts[t].participants;
      Consistent(ts, bs + [Bracket(t, IdRange(|ms|, |ps| / 2))], ms + Pairings(ps, |bs|, 1),
                 exps + [Log2(|ps|)], cur + [1])
  {
    var ps := ts[t].participants;
    ValidCountExponent(|ps|);
    SoundAfterGenerate(ms, exps, cur, ps, Log2(|ps|));
    ListsAfterGenerate(bs, ms, Pairings(ps, |bs|, 1), t);
    var bs' := bs + [Bracket(t, IdRange(|ms|, |ps| / 2))];
    forall j, k | 0 <= j < k < |bs'|
      ensures bs'[j].tournament != bs'[k].tournament
    {
      if k == |bs| {
        assert bs'[j] == bs[j];
      } else {
        assert bs'[j] == bs[j] && bs'[k] == bs[k];
      }
    }
    forall j | 0 <= j < |bs'|
      ensures bs'[j].tournament < |ts|
    {
      if j < |bs| {
        assert bs'[j] == bs[j];
      }
    }
  }
}
