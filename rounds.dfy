/** The single-elimination bracket logic common to both implementations: how matches are paired,
    how a round is read back from the store, and the shape every bracket keeps under play.
    A match's id is its position in the store's sequence of matches (ids come from a fresh counter). */
module Rounds {
  import opened Common
  import opened Bits

  /** A match record: owning bracket, round (1 = first round), the two players and the optional winner. */
  datatype Match = Match(bracket: nat, round: nat, player1: int, player2: int, winner: Option<int>)

  predicate IsPlayer(x: Match, w: int)
  {
    w == x.player1 || w == x.player2
  }

  /** Undecided matches of bracket b, round r, pairing ps[0] with ps[1], ps[2] with ps[3], ...
      A last unpaired element is dropped. */
  function Pairings(ps: seq<int>, b: nat, r: nat): (ms: seq<Match>)
    ensures |ms| == |ps| / 2
    ensures forall k :: 0 <= k < |ms| ==> ms[k] == Match(b, r, ps[2 * k], ps[2 * k + 1], None)
    decreases |ps|
  {
    if |ps| < 2 then [] else [Match(b, r, ps[0], ps[1], None)] + Pairings(ps[2..], b, r)
  }

  /** The matches of bracket b in round r, in creation order. */
  function RoundOf(ms: seq<Match>, b: nat, r: nat): (rm: seq<Match>)
    ensures |rm| <= |ms|
  {
    if ms == [] then []
    else
      var x := ms[|ms| - 1];
      RoundOf(ms[..|ms| - 1], b, r) + (if x.bracket == b && x.round == r then [x] else [])
  }

  predicate AllDecided(rm: seq<Match>)
  {
    forall k :: 0 <= k < |rm| ==> rm[k].winner.Some?
  }

  /** The winners of a decided round, in round order. */
  function Winners(rm: seq<Match>): (ws: seq<int>)
    requires AllDecided(rm)
    ensures |ws| == |rm|
    ensures forall k :: 0 <= k < |rm| ==> rm[k].winner == Some(ws[k])
  {
    seq(|rm|, k requires 0 <= k < |rm| => rm[k].winner.value)
  }

  /** The store after the winner of match i is recorded as w. */
  function Played(ms: seq<Match>, i: nat, w: int): seq<Match>
    requires i < |ms|
  {
    ms[i := ms[i].(winner := Some(w))]
  }

  /** Recording a result sets the winner of that one match and changes nothing else. */
  lemma PlayedOnlySetsWinner(ms: seq<Match>, i: nat, w: int)
    requires i < |ms|
    ensures var ms1 := Played(ms, i, w);
      |ms1| == |ms| && ms1[i].winner == Some(w) &&
      ms1[i].bracket == ms[i].bracket && ms1[i].round == ms[i].round &&
      ms1[i].player1 == ms[i].player1 && ms1[i].player2 == ms[i].player2 &&
      forall j :: 0 <= j < |ms| && j != i ==> ms1[j] == ms[j]
  {
  }

  /** The matches the round advancer appends after a result in round r of bracket b:
      when every match of the round has a winner and there is more than one match,
      the winners paired in round order at round r + 1; otherwise nothing. */
  function NextRound(ms: seq<Match>, b: nat, r: nat): seq<Match>
  {
    var rm := RoundOf(ms, b, r);
    if AllDecided(rm) && |rm| > 1 then Pairings(Winners(rm), b, r + 1) else []
  }

  /** A next round exists exactly when round r is decided and is not the final; it then pairs
      the winners of consecutive matches of round r, in order. */
  lemma NextRoundPairsWinners(ms: seq<Match>, b: nat, r: nat)
    ensures var rm, nx := RoundOf(ms, b, r), NextRound(ms, b, r);
      (nx != [] <==> AllDecided(rm) && |rm| > 1) &&
      (AllDecided(rm) && |rm| > 1 ==>
        |nx| == |rm| / 2 &&
        forall k :: 0 <= k < |nx| ==>
          nx[k] == Match(b, r + 1, rm[2 * k].winner.value, rm[2 * k + 1].winner.value, None))
  {
  }

  /** Number of matches the store holds for bracket b. */
  function Count(ms: seq<Match>, b: nat): nat
  {
    if ms == [] then 0
    else Count(ms[..|ms| - 1], b) + (if ms[|ms| - 1].bracket == b then 1 else 0)
  }

  /** Ids of the matches of bracket b, in creation order. */
  function MatchIds(ms: seq<Match>, b: nat): (ids: seq<nat>)
    ensures |ids| == Count(ms, b)
  {
    if ms == [] then []
    else
      var p := ms[..|ms| - 1];
      MatchIds(p, b) + (if ms[|ms| - 1].bracket == b then [|ms| - 1] else [])
  }

  predicate WinnersArePlayers(ms: seq<Match>)
  {
    forall k :: 0 <= k < |ms| && ms[k].winner.Some? ==> IsPlayer(ms[k], ms[k].winner.value)
  }

  /** Bracket b of 2^m players is laid out up to round c: rounds 1..c exist with 2^(m-r) matches
      in round r, no other round has a match, and every round before c is fully decided. */
  ghost predicate Layered(ms: seq<Match>, b: nat, m: nat, c: nat)
  {
    1 <= c <= m &&
    (forall r: nat :: |RoundOf(ms, b, r)| == if 1 <= r <= c then Pow2(m - r) else 0) &&
    (forall r: nat :: 1 <= r < c ==> AllDecided(RoundOf(ms, b, r)))
  }

  /** The shape of bracket b of 2^m players whose latest round is c: laid out up to round c,
      and round c is fully decided only if it is the final. */
  ghost predicate Shape(ms: seq<Match>, b: nat, m: nat, c: nat)
  {
    Layered(ms, b, m, c) && (AllDecided(RoundOf(ms, b, c)) ==> c == m)
  }

  /** The whole store: every match belongs to one of the |exps| brackets, recorded winners are
      players of their match, and bracket b has the shape of exponent exps[b] and latest round cur[b]. */
  ghost predicate Sound(ms: seq<Match>, exps: seq<nat>, cur: seq<nat>)
  {
    |exps| == |cur| &&
    (forall k :: 0 <= k < |ms| ==> ms[k].bracket < |exps|) &&
    WinnersArePlayers(ms) &&
    (forall b :: 0 <= b < |exps| ==> Shape(ms, b, exps[b], cur[b]))
  }

  // ---------------------------------------------------------------- filter lemmas

  lemma {:induction false} RoundOfAppend(ms: seq<Match>, ns: seq<Match>, b: nat, r: nat)
    ensures RoundOf(ms + ns, b, r) == RoundOf(ms, b, r) + RoundOf(ns, b, r)
    decreases |ns|
  {
    if ns == [] {
      assert ms + ns == ms;
    } else {
      var p := ns[..|ns| - 1];
      assert (ms + ns)[..|ms + ns| - 1] == ms + p;
      RoundOfAppend(ms, p, b, r);
    }
  }

  lemma {:induction false} RoundOfNone(ns: seq<Match>, b: nat, r: nat)
    requires forall k :: 0 <= k < |ns| ==> ns[k].bracket != b || ns[k].round != r
    ensures RoundOf(ns, b, r) == []
  {
    if ns != [] {
      RoundOfNone(ns[..|ns| - 1], b, r);
    }
  }

  lemma {:induction false} RoundOfAll(ns: seq<Match>, b: nat, r: nat)
    requires forall k :: 0 <= k < |ns| ==> ns[k].bracket == b && ns[k].round == r
    ensures RoundOf(ns, b, r) == ns
  {
    if ns != [] {
      var p := ns[..|ns| - 1];
      RoundOfAll(p, b, r);
      assert ns == p + [ns[|ns| - 1]];
    }
  }

  /** Changing one match without moving it to another bracket or round keeps every round's size,
      and keeps every round it does not belong to. */
  lemma {:induction false} RoundOfUpdate(ms: seq<Match>, i: nat, x: Match, b: nat, r: nat)
    requires i < |ms| && x.bracket == ms[i].bracket && x.round == ms[i].round
    ensures |RoundOf(ms[i := x], b, r)| == |RoundOf(ms, b, r)|
    ensures ms[i].bracket != b || ms[i].round != r ==> RoundOf(ms[i := x], b, r) == RoundOf(ms, b, r)
  {
    var ms' := ms[i := x];
    var p, p' := ms[..|ms| - 1], ms'[..|ms| - 1];
    assert ms'[|ms| - 1] == (if i == |ms| - 1 then x else ms[|ms| - 1]);
    if i < |ms| - 1 {
      assert p' == p[i := x];
      RoundOfUpdate(p, i, x, b, r);
    } else {
      assert p' == p;
    }
    assert RoundOf(ms', b, r) == RoundOf(p', b, r) + (if ms'[|ms| - 1].bracket == b && ms'[|ms| - 1].round == r then [ms'[|ms| - 1]] else []);
  }

  lemma {:induction false} MatchIdsUpdate(ms: seq<Match>, i: nat, x: Match, b: nat)
    requires i < |ms| && x.bracket == ms[i].bracket
    ensures MatchIds(ms[i := x], b) == MatchIds(ms, b)
  {
    var ms' := ms[i := x];
    var p, p' := ms[..|ms| - 1], ms'[..|ms| - 1];
    if i < |ms| - 1 {
      assert p' == p[i := x];
      MatchIdsUpdate(p, i, x, b);
    } else {
      assert p' == p;
    }
  }

  lemma MatchIdsSnoc(ms: seq<Match>, x: Match, b: nat)
    ensures MatchIds(ms + [x], b) == MatchIds(ms, b) + (if x.bracket == b then [|ms|] else [])
  {
    assert (ms + [x])[..|ms|] == ms;
  }

  /** MatchIds lists exactly the ids of bracket b's matches, each once, in increasing order. */
  lemma {:induction false} MatchIdsSpec(ms: seq<Match>, b: nat)
    ensures var ids := MatchIds(ms, b);
      (forall k :: 0 <= k < |ids| ==> ids[k] < |ms| && ms[ids[k]].bracket == b) &&
      (forall k, l :: 0 <= k < l < |ids| ==> ids[k] < ids[l]) &&
      (forall j :: 0 <= j < |ms| && ms[j].bracket == b ==> j in ids)
  {
    if ms != [] {
      var p := ms[..|ms| - 1];
      MatchIdsSpec(p, b);
    }
  }

  /** The ids lo, lo + 1, ..., lo + n - 1. */
  function IdRange(lo: nat, n: nat): (ids: seq<nat>)
    ensures |ids| == n
    ensures forall k :: 0 <= k < n ==> ids[k] == lo + k
  {
    if n == 0 then [] else IdRange(lo, n - 1) + [lo + n - 1]
  }

  /** Appending matches of bracket b appends their fresh ids to b's id list, and leaves the
      other brackets' lists alone. */
  lemma {:induction false} MatchIdsAppend(ms: seq<Match>, ns: seq<Match>, b: nat, b': nat)
    requires forall k :: 0 <= k < |ns| ==> ns[k].bracket == b
    ensures MatchIds(ms + ns, b) == MatchIds(ms, b) + IdRange(|ms|, |ns|)
    ensures b' != b ==> MatchIds(ms + ns, b') == MatchIds(ms, b')
    decreases |ns|
  {
    if ns == [] {
      assert ms + ns == ms;
    } else {
      var p, x := ns[..|ns| - 1], ns[|ns| - 1];
      assert ms + ns == (ms + p) + [x];
      MatchIdsAppend(ms, p, b, b');
      MatchIdsSnoc(ms + p, x, b);
      MatchIdsSnoc(ms + p, x, b');
      assert IdRange(|ms|, |ns|) == IdRange(|ms|, |p|) + [|ms + p|];
    }
  }

  lemma {:induction false} MatchIdsNone(ms: seq<Match>, b: nat)
    requires forall k :: 0 <= k < |ms| ==> ms[k].bracket != b
    ensures MatchIds(ms, b) == []
  {
    if ms != [] {
      MatchIdsNone(ms[..|ms| - 1], b);
    }
  }

  lemma {:induction false} RoundOfHas(ms: seq<Match>, i: nat)
    requires i < |ms|
    ensures ms[i] in RoundOf(ms, ms[i].bracket, ms[i].round)
  {
    var p := ms[..|ms| - 1];
    if i < |ms| - 1 {
      RoundOfHas(p, i);
      assert p[i] == ms[i];
    }
  }

  lemma {:induction false} RoundOfElems(ms: seq<Match>, b: nat, r: nat)
    ensures forall k :: 0 <= k < |RoundOf(ms, b, r)| ==>
      RoundOf(ms, b, r)[k] in ms && RoundOf(ms, b, r)[k].bracket == b && RoundOf(ms, b, r)[k].round == r
  {
    if ms != [] {
      var p := ms[..|ms| - 1];
      RoundOfElems(p, b, r);
      assert forall x :: x in p ==> x in ms;
    }
  }

  lemma Pow2One(k: nat)
    requires Pow2(k) == 1
    ensures k == 0
  {
  }

  // ---------------------------------------------------------------- generation

  /** Matches all of bracket b and round 1, appended where bracket b has no match, form its
      round 1 and its only round. */
  lemma RoundAfterGenerate(ms: seq<Match>, P: seq<Match>, b: nat, r: nat)
    requires forall k :: 0 <= k < |ms| ==> ms[k].bracket != b
    requires forall k :: 0 <= k < |P| ==> P[k].bracket == b && P[k].round == 1
    ensures RoundOf(ms + P, b, r) == if r == 1 then P else []
  {
    RoundOfAppend(ms, P, b, r);
    RoundOfNone(ms, b, r);
    if r == 1 {
      RoundOfAll(P, b, 1);
    } else {
      RoundOfNone(P, b, r);
    }
  }

  /** Round-1 matches of bracket b appended where bracket b has no match: round 1 is exactly them
      and every other round of b is empty. */
  lemma FreshSizes(ms: seq<Match>, P: seq<Match>, b: nat, m: nat)
    requires forall k :: 0 <= k < |ms| ==> ms[k].bracket != b
    requires forall k :: 0 <= k < |P| ==> P[k].bracket == b && P[k].round == 1
    requires m >= 1 && |P| == Pow2(m - 1)
    ensures forall r: nat :: |RoundOf(ms + P, b, r)| == if 1 <= r <= 1 then Pow2(m - r) else 0
  {
    forall r: nat
      ensures |RoundOf(ms + P, b, r)| == if 1 <= r <= 1 then Pow2(m - r) else 0
    {
      RoundAfterGenerate(ms, P, b, r);
    }
  }

  /** 2^(m-1) undecided matches of bracket b and round 1, appended where bracket b has no match,
      lay out a fresh bracket of 2^m players whose latest round is round 1. */
  lemma FreshShape(ms: seq<Match>, P: seq<Match>, b: nat, m: nat)
    requires forall k :: 0 <= k < |ms| ==> ms[k].bracket != b
    requires forall k :: 0 <= k < |P| ==> P[k].bracket == b && P[k].round == 1 && P[k].winner.None?
    requires m >= 1 && |P| == Pow2(m - 1)
    ensures Shape(ms + P, b, m, 1)
  {
    FreshSizes(ms, P, b, m);
    RoundAfterGenerate(ms, P, b, 1);
    assert !AllDecided(RoundOf(ms + P, b, 1)) by {
      assert RoundOf(ms + P, b, 1)[0] == P[0];
    }
  }

  /** A bracket of 2^m players (m >= 1) whose id no stored match uses, after its round-1
      pairings are appended, has the shape of a fresh bracket: exactly round 1, with 2^(m-1) matches. */
  lemma GenerateShape(ms: seq<Match>, ps: seq<int>, b: nat, m: nat)
    requires forall k :: 0 <= k < |ms| ==> ms[k].bracket != b
    requires m >= 1 && |ps| == Pow2(m)
    ensures Shape(ms + Pairings(ps, b, 1), b, m, 1)
  {
    var P := Pairings(ps, b, 1);
    assert |P| == Pow2(m - 1) by {
      assert Pow2(m) == 2 * Pow2(m - 1);
    }
    FreshShape(ms, P, b, m);
  }

  lemma GenerateOther(ms: seq<Match>, ps: seq<int>, b: nat, b': nat)
    requires b' != b
    ensures forall r: nat :: RoundOf(ms + Pairings(ps, b, 1), b', r) == RoundOf(ms, b', r)
  {
    var P := Pairings(ps, b, 1);
    forall r: nat
      ensures RoundOf(ms + P, b', r) == RoundOf(ms, b', r)
    {
      RoundOfAppend(ms, P, b', r);
      RoundOfNone(P, b', r);
    }
  }

  lemma ShapeFrame(ms: seq<Match>, ms': seq<Match>, b: nat, m: nat, c: nat)
    requires Shape(ms, b, m, c)
    requires forall r: nat :: RoundOf(ms', b, r) == RoundOf(ms, b, r)
    ensures Shape(ms', b, m, c)
  {
  }

  /** Appending the round-1 pairings of a new bracket with id |exps| and 2^m players keeps the store sound. */
  lemma SoundAfterGenerate(ms: seq<Match>, exps: seq<nat>, cur: seq<nat>, ps: seq<int>, m: nat)
    requires Sound(ms, exps, cur)
    requires m >= 1 && |ps| == Pow2(m)
    ensures Sound(ms + Pairings(ps, |exps|, 1), exps + [m], cur + [1])
  {
    var b := |exps|;
    var P := Pairings(ps, b, 1);
    var ms', exps', cur' := ms + P, exps + [m], cur + [1];
    forall k | 0 <= k < |ms'|
      ensures ms'[k].bracket < |exps'| && (ms'[k].winner.Some? ==> IsPlayer(ms'[k], ms'[k].winner.value))
    {
      if k < |ms| {
        assert ms'[k] == ms[k];
      } else {
        assert ms'[k] == P[k - |ms|];
      }
    }
    forall b' | 0 <= b' < |exps'|
      ensures Shape(ms', b', exps'[b'], cur'[b'])
    {
      if b' == b {
        GenerateShape(ms, ps, b, m);
      } else {
        assert exps'[b'] == exps[b'] && cur'[b'] == cur[b'];
        GenerateOther(ms, ps, b, b');
        ShapeFrame(ms, ms', b', exps[b'], cur[b']);
      }
    }
  }

  // ---------------------------------------------------------------- play and advancement

  /** In a bracket of this shape an undecided match belongs to the latest round. */
  lemma UndecidedIsCurrent(ms: seq<Match>, i: nat, m: nat, c: nat)
    requires i < |ms| && ms[i].winner.None? && Shape(ms, ms[i].bracket, m, c)
    ensures ms[i].round == c
  {
    var b, r0 := ms[i].bracket, ms[i].round;
    RoundOfHas(ms, i);
    var rm0 := RoundOf(ms, b, r0);
    assert |rm0| > 0;
  }

  /** A complete round r of more than one match in a bracket laid out up to round c is one of
      its rounds 1..c and not the final, has 2^(m-r) matches, an even number, and its winners'
      pairings are 2^(m-r-1) undecided matches of round r + 1. */
  lemma NextRoundFacts(ms: seq<Match>, b: nat, m: nat, c: nat, r: nat)
    requires Layered(ms, b, m, c)
    requires AllDecided(RoundOf(ms, b, r)) && |RoundOf(ms, b, r)| > 1
    ensures 1 <= r <= c && r < m && |RoundOf(ms, b, r)| % 2 == 0
    ensures |NextRound(ms, b, r)| == Pow2(m - (r + 1)) && NextRound(ms, b, r) != []
    ensures forall k :: 0 <= k < |NextRound(ms, b, r)| ==>
      NextRound(ms, b, r)[k].bracket == b && NextRound(ms, b, r)[k].round == r + 1 &&
      NextRound(ms, b, r)[k].winner.None?
  {
    var rm := RoundOf(ms, b, r);
    assert 1 <= r <= c && |rm| == Pow2(m - r);
    if m == r {
      assert false;
    }
    assert Pow2(m - r) == 2 * Pow2(m - r - 1);
  }

  /** Appending matches that all belong to the empty round c + 1 of bracket b makes them that
      round and changes no other round of b. */
  lemma RoundAfterAppend(ms: seq<Match>, nx: seq<Match>, b: nat, c: nat, r: nat)
    requires forall k :: 0 <= k < |nx| ==> nx[k].bracket == b && nx[k].round == c + 1
    requires RoundOf(ms, b, c + 1) == []
    ensures RoundOf(ms + nx, b, r) == if r == c + 1 then nx else RoundOf(ms, b, r)
  {
    RoundOfAppend(ms, nx, b, r);
    if r == c + 1 {
      RoundOfAll(nx, b, r);
    } else {
      RoundOfNone(nx, b, r);
    }
  }

  /** Appending a round c + 1 of 2^(m-c-1) matches to a bracket laid out up to round c < m gives
      every round 1..c + 1 its size 2^(m-r) and leaves the other rounds empty. */
  lemma SizesAfterAppend(ms: seq<Match>, nx: seq<Match>, b: nat, m: nat, c: nat)
    requires Layered(ms, b, m, c) && c < m
    requires |nx| == Pow2(m - (c + 1))
    requires forall k :: 0 <= k < |nx| ==> nx[k].bracket == b && nx[k].round == c + 1
    ensures forall r: nat :: |RoundOf(ms + nx, b, r)| == if 1 <= r <= c + 1 then Pow2(m - r) else 0
  {
    assert RoundOf(ms, b, c + 1) == [];
    forall r: nat
      ensures |RoundOf(ms + nx, b, r)| == if 1 <= r <= c + 1 then Pow2(m - r) else 0
    {
      RoundAfterAppend(ms, nx, b, c, r);
    }
  }

  /** Appending a round c + 1 to a bracket whose rounds 1..c are complete leaves them complete. */
  lemma DecidedAfterAppend(ms: seq<Match>, nx: seq<Match>, b: nat, c: nat)
    requires forall r: nat :: 1 <= r <= c ==> AllDecided(RoundOf(ms, b, r))
    requires RoundOf(ms, b, c + 1) == []
    requires forall k :: 0 <= k < |nx| ==> nx[k].bracket == b && nx[k].round == c + 1
    ensures forall r: nat :: 1 <= r < c + 1 ==> AllDecided(RoundOf(ms + nx, b, r))
  {
    forall r: nat | 1 <= r < c + 1
      ensures AllDecided(RoundOf(ms + nx, b, r))
    {
      RoundAfterAppend(ms, nx, b, c, r);
      assert RoundOf(ms + nx, b, r) == RoundOf(ms, b, r);
    }
  }

  /** Appending an undecided round c + 1 of 2^(m-c-1) matches to a bracket laid out up to a
      complete round c < m lays it out up to round c + 1, whose round is not yet decided. */
  lemma ShapeAfterAppend(ms: seq<Match>, nx: seq<Match>, b: nat, m: nat, c: nat)
    requires Layered(ms, b, m, c) && c < m && AllDecided(RoundOf(ms, b, c))
    requires |nx| == Pow2(m - (c + 1)) && nx != []
    requires forall k :: 0 <= k < |nx| ==> nx[k].bracket == b && nx[k].round == c + 1 && nx[k].winner.None?
    ensures Shape(ms + nx, b, m, c + 1)
  {
    SizesAfterAppend(ms, nx, b, m, c);
    assert RoundOf(ms, b, c + 1) == [];
    assert forall r: nat :: 1 <= r <= c ==> AllDecided(RoundOf(ms, b, r));
    DecidedAfterAppend(ms, nx, b, c);
    assert !AllDecided(RoundOf(ms + nx, b, c + 1)) by {
      RoundAfterAppend(ms, nx, b, c, c + 1);
      assert RoundOf(ms + nx, b, c + 1)[0] == nx[0];
    }
  }

  /** A complete round c that is not the final: it is even, its winners' pairings form round c + 1,
      and the bracket is then laid out up to round c + 1, whose round is not yet decided. */
  lemma AdvanceComplete(ms: seq<Match>, b: nat, m: nat, c: nat)
    requires Layered(ms, b, m, c)
    requires AllDecided(RoundOf(ms, b, c)) && |RoundOf(ms, b, c)| > 1
    ensures c < m && |RoundOf(ms, b, c)| % 2 == 0
    ensures NextRound(ms, b, c) != []
    ensures Shape(ms + NextRound(ms, b, c), b, m, c + 1)
  {
    NextRoundFacts(ms, b, m, c, c);
    ShapeAfterAppend(ms, NextRound(ms, b, c), b, m, c);
  }

  /** The advancer run on round c of a bracket laid out up to round c. When round c is complete
      and is not the final, it has an even number of matches and the winners' pairings become round
      c + 1; otherwise nothing is added. Either way the bracket has its shape afterwards. */
  lemma AdvanceShape(ms: seq<Match>, b: nat, m: nat, c: nat)
    requires Layered(ms, b, m, c)
    ensures var nx := NextRound(ms, b, c);
      Shape(ms + nx, b, m, if nx == [] then c else c + 1) &&
      (nx != [] <==> c < m && AllDecided(RoundOf(ms, b, c)))
    ensures var rm := RoundOf(ms, b, c); AllDecided(rm) && |rm| > 1 ==> |rm| % 2 == 0
  {
    var rm := RoundOf(ms, b, c);
    if AllDecided(rm) && |rm| > 1 {
      AdvanceComplete(ms, b, m, c);
    } else {
      assert ms + NextRound(ms, b, c) == ms;
      if AllDecided(rm) {
        assert |rm| == Pow2(m - c);
        Pow2One(m - c);
      }
    }
  }

  /** Recording a winner of an undecided match in round c, then running the advancer on that round,
      keeps the bracket's shape: the latest round moves to c + 1 exactly when round c is complete
      and is not the final. A completed round that is not the final has an even number of matches. */
  lemma PlayShape(ms: seq<Match>, i: nat, w: int, m: nat, c: nat)
    requires i < |ms| && ms[i].winner.None? && Shape(ms, ms[i].bracket, m, c)
    ensures ms[i].round == c
    ensures var b := ms[i].bracket; var ms1 := Played(ms, i, w); var nx := NextRound(ms1, b, c);
      Shape(ms1 + nx, b, m, if nx == [] then c else c + 1) &&
      (nx != [] <==> c < m && AllDecided(RoundOf(ms1, b, c)))
    ensures var rm := RoundOf(Played(ms, i, w), ms[i].bracket, c);
      AllDecided(rm) && |rm| > 1 ==> |rm| % 2 == 0
  {
    UndecidedIsCurrent(ms, i, m, c);
    var b := ms[i].bracket;
    var x := ms[i].(winner := Some(w));
    var ms1 := Played(ms, i, w);
    assert ms1 == ms[i := x];
    forall r: nat
      ensures |RoundOf(ms1, b, r)| == |RoundOf(ms, b, r)|
      ensures r != c ==> RoundOf(ms1, b, r) == RoundOf(ms, b, r)
    {
      RoundOfUpdate(ms, i, x, b, r);
    }
    assert Layered(ms1, b, m, c);
    AdvanceShape(ms1, b, m, c);
  }

  /** The other brackets' rounds are untouched by a result and the advancement it causes. */
  lemma PlayOther(ms: seq<Match>, i: nat, w: int, b': nat)
    requires i < |ms| && b' != ms[i].bracket
    ensures var ms1 := Played(ms, i, w);
      forall r: nat :: RoundOf(ms1 + NextRound(ms1, ms[i].bracket, ms[i].round), b', r) == RoundOf(ms, b', r)
  {
    var b := ms[i].bracket;
    var x := ms[i].(winner := Some(w));
    var ms1 := Played(ms, i, w);
    assert ms1 == ms[i := x];
    var nx := NextRound(ms1, b, ms[i].round);
    forall r: nat
      ensures RoundOf(ms1 + nx, b', r) == RoundOf(ms, b', r)
    {
      RoundOfUpdate(ms, i, x, b', r);
      RoundOfAppend(ms1, nx, b', r);
      RoundOfNone(nx, b', r);
    }
  }

  /** A result for an undecided match, with a winner who is one of its players, followed by
      the advancer keeps the whole store sound; only the played bracket's latest round can move. */
  lemma SoundAfterPlay(ms: seq<Match>, exps: seq<nat>, cur: seq<nat>, i: nat, w: int)
    requires Sound(ms, exps, cur)
    requires i < |ms| && ms[i].winner.None? && IsPlayer(ms[i], w)
    ensures ms[i].round == cur[ms[i].bracket]
    ensures var b := ms[i].bracket; var ms1 := Played(ms, i, w); var nx := NextRound(ms1, b, ms[i].round);
      Sound(ms1 + nx, exps, cur[b := if nx == [] then cur[b] else cur[b] + 1])
    ensures var rm := RoundOf(Played(ms, i, w), ms[i].bracket, ms[i].round);
      AllDecided(rm) && |rm| > 1 ==> |rm| % 2 == 0
  {
    var b := ms[i].bracket;
    PlayShape(ms, i, w, exps[b], cur[b]);
    var ms1 := Played(ms, i, w);
    var nx := NextRound(ms1, b, ms[i].round);
    var cur' := cur[b := if nx == [] then cur[b] else cur[b] + 1];
    forall b' | 0 <= b' < |exps|
      ensures Shape(ms1 + nx, b', exps[b'], cur'[b'])
    {
      if b' != b {
        PlayOther(ms, i, w, b');
        ShapeFrame(ms, ms1 + nx, b', exps[b'], cur[b']);
      }
    }
    assert WinnersArePlayers(ms1 + nx);
  }

  // ---------------------------------------------------------------- the finished bracket

  /** Total number of matches of bracket b in rounds 1..c. */
  function SumRounds(ms: seq<Match>, b: nat, c: nat): nat
  {
    if c == 0 then 0 else SumRounds(ms, b, c - 1) + |RoundOf(ms, b, c)|
  }

  lemma {:induction false} SumRoundsSnoc(p: seq<Match>, x: Match, b: nat, c: nat)
    ensures SumRounds(p + [x], b, c) == SumRounds(p, b, c) + (if x.bracket == b && 1 <= x.round <= c then 1 else 0)
  {
    assert (p + [x])[..|p|] == p;
    if c > 0 {
      SumRoundsSnoc(p, x, b, c - 1);
    }
  }

  lemma {:induction false} SumRoundsEmpty(b: nat, c: nat)
    ensures SumRounds([], b, c) == 0
  {
    if c > 0 {
      SumRoundsEmpty(b, c - 1);
    }
  }

  /** When every match of bracket b is in one of the rounds 1..c, the rounds partition the bracket. */
  lemma {:induction false} Partition(ms: seq<Match>, b: nat, c: nat)
    requires forall k :: 0 <= k < |ms| && ms[k].bracket == b ==> 1 <= ms[k].round <= c
    ensures Count(ms, b) == SumRounds(ms, b, c)
  {
    if ms == [] {
      SumRoundsEmpty(b, c);
    } else {
      var p, x := ms[..|ms| - 1], ms[|ms| - 1];
      assert ms == p + [x];
      Partition(p, b, c);
      SumRoundsSnoc(p, x, b, c);
      assert x.bracket == b ==> 1 <= x.round <= c;
      assert Count(ms, b) == Count(p, b) + (if x.bracket == b then 1 else 0);
    }
  }

  lemma {:induction false} SumLayered(ms: seq<Match>, b: nat, m: nat, c: nat, d: nat)
    requires Layered(ms, b, m, c) && d <= c
    ensures SumRounds(ms, b, d) == Pow2(m) - Pow2(m - d)
  {
    if d > 0 {
      SumLayered(ms, b, m, c, d - 1);
      assert Pow2(m - (d - 1)) == 2 * Pow2(m - d);
    }
  }

  /** Every match of a laid-out bracket is in one of its rounds 1..c. */
  lemma RoundsInRange(ms: seq<Match>, b: nat, m: nat, c: nat)
    requires Layered(ms, b, m, c)
    ensures forall k :: 0 <= k < |ms| && ms[k].bracket == b ==> 1 <= ms[k].round <= c
  {
    forall k | 0 <= k < |ms| && ms[k].bracket == b
      ensures 1 <= ms[k].round <= c
    {
      RoundOfHas(ms, k);
    }
  }

  /** Once every match of a bracket of n = 2^m players has a winner, the bracket holds n - 1 matches,
      its latest round is round m, and that round is one decided match: the champion's. */
  lemma Champion(ms: seq<Match>, b: nat, m: nat, c: nat)
    requires Shape(ms, b, m, c)
    requires forall k :: 0 <= k < |ms| && ms[k].bracket == b ==> ms[k].winner.Some?
    ensures c == m
    ensures Count(ms, b) == Pow2(m) - 1
    ensures |RoundOf(ms, b, m)| == 1 && RoundOf(ms, b, m)[0].winner.Some?
  {
    RoundOfElems(ms, b, c);
    assert AllDecided(RoundOf(ms, b, c));
    RoundsInRange(ms, b, m, c);
    Partition(ms, b, c);
    SumLayered(ms, b, m, c, c);
  }

  /** A bracket that is not finished has an undecided match in its latest round, so play can go on;
      a finished one is a single decided final. */
  lemma Progress(ms: seq<Match>, b: nat, m: nat, c: nat)
    requires Shape(ms, b, m, c)
    ensures (exists k :: 0 <= k < |ms| && ms[k].bracket == b && ms[k].round == c && ms[k].winner.None?) ||
            (c == m && |RoundOf(ms, b, m)| == 1 && AllDecided(RoundOf(ms, b, m)))
  {
    var rm := RoundOf(ms, b, c);
    if !AllDecided(rm) {
      RoundOfElems(ms, b, c);
      var j :| 0 <= j < |rm| && rm[j].winner.None?;
      assert rm[j] in ms;
      var k :| 0 <= k < |ms| && ms[k] == rm[j];
    }
  }
}
