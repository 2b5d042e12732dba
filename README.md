# Single-elimination tournament brackets, modelled in Dafny

The repository runs a tournament API twice, as a C# GraphQL server (Entity Framework) and as a
JavaScript GraphQL server (Mongoose). Both do the same things:

- create tournaments;
- enrol registered users as participants;
- move a tournament through `upcoming`, `ongoing` and `completed`;
- generate a single-elimination bracket, which needs a power-of-two number of participants (at least two);
- record match results. When every match of a round has a winner, the server pairs the winners in
  order into the next round, and keeps doing so until one match, the final, remains.

This project models the bracket engine and the tournament lifecycle of both implementations.

Each store is a class whose fields the operations update in place:

- the C# `DbContext`, in `EfStore.Db`. The bracket service `TournamentService.Service` works on it,
  and the GraphQL mutations in `Mutation` run against it.
- the MongoDB collections, in `MongoStore.Db`. The resolvers in `Resolvers` work on it. Here a
  bracket document also lists the ids of its matches.

An entity's id is its position in its collection: the k-th match created has id k. Bracket and
tournament ids work the same way.

Each store's invariant `Valid()` includes `Rounds.Sound`. For every bracket of 2^m players whose
latest round is c, it requires:

- round r holds 2^(m-r) matches for every r in 1..c, and no other round holds any;
- every round before c is decided;
- if round c is decided too, it is the final;
- every recorded winner is one of its match's players.

Every generating and playing operation is proved to keep this invariant. From it, the model proves
(in `Rounds`) that:

- a finished bracket has n - 1 matches and a single champion;
- an unfinished bracket always has an undecided match in its latest round.

It also proves (in `Comparison`) that:

- every complete round of more than one match has an even number of matches, so the C# access `winners[i + 1]` never
  leaves the list and the JS guard `i + 1 < winners.length` never drops a winner;
- the C# and JS guards accept exactly the same participant counts;
- the two play checks reject the same inputs;
- every lifecycle call the JS accepts, the C# accepts with the same result.

The C# and JS versions differ in how they guard the lifecycle, and the model follows each one's
code. The C# mutations `StartTournamentAsync` and `FinishTournamentAsync` set the status without checking the
current one. `AddParticipantAsync` neither checks the status nor reports a duplicate: it ignores it.
So in the C# model finishing and then starting any tournament leaves it ongoing, which reopens a
completed one (`Mutation.FinishThenStart`). Only the
JS resolvers guard these transitions.

## Model

| member | source | states |
|---|---|---|
| Common.NewTournament | Models/Tournament.cs:3-13 | a new tournament keeps its name, is `upcoming` and has no participants |
| Common.Enrol | GraphQL/Mutations/Mutation.cs:101-105 | adding a user adds exactly that user, leaves a list that already holds it unchanged, appends it otherwise, and keeps the list duplicate-free |
| Bits.Pow2 | Services/TournamentService.cs:36 | powers of two are at least one |
| Bits.AndPow2 | Services/TournamentService.cs:36 | `2^m & (2^m - 1)` is 0 |
| Bits.AndZeroIsPow2 | Services/TournamentService.cs:36 | a positive n with `n & (n - 1) == 0` is 2 to the power `Log2(n)` |
| Bits.PowerOfTwoTest | Services/TournamentService.cs:36 | for n >= 1, `(n & (n - 1)) == 0` holds exactly when n is a power of two |
| Bits.ValidCount | Services/TournamentService.cs:36 | the C# guard holds exactly when the count is at least two and a power of two |
| Bits.ValidCountIsPow2 | Services/TournamentService.cs:36-39 | a count passes the C# guard exactly when it is 2^m with m >= 1 |
| Bits.ValidCountExponent | Services/TournamentService.cs:36-39 | a count that passes the guard is even and equals 2^Log2(count) with Log2(count) >= 1 |
| Rounds.Pairings | Services/TournamentService.cs:54-64 | pairing n players yields n / 2 undecided matches, match k pairing players 2k and 2k + 1 |
| Rounds.RoundOf | Services/TournamentService.cs:99-101 | the filtered round is no longer than the match list |
| Rounds.RoundOfElems | Services/TournamentService.cs:99-101 | every match in the filtered round is a match of that bracket and round |
| Rounds.RoundOfHas | Services/TournamentService.cs:99-101 | every match is in the filtered round of its own bracket and round |
| Rounds.RoundOfUpdate | Services/TournamentService.cs:95-101 | recording a winner keeps every round's size and changes no other round |
| Rounds.MatchIds | src/resolvers/index.js:318 | a bracket's id list has one entry per match of the bracket |
| Rounds.MatchIdsSpec | src/resolvers/index.js:318 | the id list holds exactly the ids of the bracket's matches, in increasing order |
| Rounds.MatchIdsAppend | src/resolvers/index.js:393 | appending matches of one bracket appends their fresh ids to its list and leaves every other list unchanged |
| Rounds.IdRange | src/resolvers/index.js:307-318 | the next n ids, in order |
| Rounds.Winners | Services/TournamentService.cs:106-108 | the winners list has one entry per match of the round, entry k being the winner of match k (the JS `map` at index.js:375 builds the same list) |
| Rounds.PlayedOnlySetsWinner | Services/TournamentService.cs:95 | recording a result sets that match's winner, keeps its bracket, round and players, and leaves every other match unchanged (likewise `match.winner = winnerId` at index.js:360) |
| Rounds.NextRoundPairsWinners | Services/TournamentService.cs:99-127 | the next round is non-empty exactly when the played round is fully decided and has more than one match, and then match k of it is the undecided pairing, in the next round, of the winners of matches 2k and 2k + 1; the JS advancer at index.js:365-390 builds the same round |
| Rounds.GenerateShape | Services/TournamentService.cs:54-67 | the round-1 matches of 2^m players lay out a bracket of 2^m players whose latest round is round 1 |
| Rounds.FreshShape | Services/TournamentService.cs:54-67 | 2^(m-1) undecided round-1 matches added for a bracket that has none lay out a bracket of 2^m players whose latest round is round 1 |
| Rounds.SoundAfterGenerate | Services/TournamentService.cs:42-67 | adding a new bracket with its round-1 matches keeps every bracket's shape |
| Rounds.UndecidedIsCurrent | Services/TournamentService.cs:84-95 | in a shaped bracket an undecided match belongs to the latest round |
| Rounds.NextRoundFacts | Services/TournamentService.cs:103-123 | a complete round of more than one match is one of rounds 1..c and not the final, has an even number of matches, and its winners' pairings are half as many undecided matches of the next round |
| Rounds.ShapeAfterAppend | Services/TournamentService.cs:110-126 | adding an undecided next round of the right size after a complete round lays the bracket out one round further, with that round undecided |
| Rounds.AdvanceComplete | Services/TournamentService.cs:103-127 | a complete round before the final is even, and its winners' pairings form the next round with half as many undecided matches |
| Rounds.AdvanceShape | Services/TournamentService.cs:103-127 | the next round exists exactly when the latest round is complete and is not the final, and appending it keeps the shape |
| Rounds.PlayShape | Services/TournamentService.cs:95-127 | recording a result and advancing keeps the played bracket's shape |
| Rounds.SoundAfterPlay | Services/TournamentService.cs:72-127 | playing an undecided match with one of its players keeps every bracket's shape, advances the latest round exactly when new matches appear, and the completed round is even |
| Rounds.Partition | Services/TournamentService.cs:99-101 | when all of a bracket's matches lie in rounds 1..c, the bracket's match count is the sum of those rounds' sizes |
| Rounds.SumLayered | Services/TournamentService.cs:110-123 | rounds 1..d of a bracket of 2^m players hold 2^m - 2^(m-d) matches |
| Rounds.RoundsInRange | Services/TournamentService.cs:113-121 | every match of a shaped bracket lies in its rounds 1..c |
| Rounds.Champion | Services/TournamentService.cs:103-127 | once all of a bracket's matches are decided, it has reached the final round m, holds 2^m - 1 matches, and that round is one decided match |
| Rounds.Progress | Services/TournamentService.cs:84-92 | a shaped bracket has an undecided match in its latest round unless it is a decided single final |
| EfStore.Db.constructor | Data/TournamentDbContext.cs:17-81 | an empty store over the given users satisfies the store invariant |
| EfStore.ConsistentAfterGenerate | Services/TournamentService.cs:42-67 | adding a bracket and its round-1 pairings for a tournament without one, with a valid count, keeps the store invariant |
| EfStore.ConsistentAfterPlay | Services/TournamentService.cs:95-127 | playing an undecided match with one of its players keeps the store invariant, and a complete round of more than one match is even |
| EfStore.CompletedRoundEven | Services/TournamentService.cs:103-121 | after an undecided match is played, its round, once decided and of more than one match, is even, so `winners[i + 1]` stays in range |
| EfStore.ValidAfterPlay | Services/TournamentService.cs:95-127 | a store holding the played match list, the appended next round and the advanced latest round satisfies the store invariant |
| TournamentService.PlayCheck | Services/TournamentService.cs:84-92 | a play is accepted exactly when the match is undecided and the winner is one of its players; a decided match is reported before a non-player |
| TournamentService.PairUp | Services/TournamentService.cs:112-123 | the pairing loop over an even list produces exactly the pairings of the list |
| TournamentService.Service.constructor | Services/TournamentService.cs:11-14 | the service works on the store it is given |
| TournamentService.Service.GenerateBracket | Services/TournamentService.cs:16-70 | rejects a missing tournament, then an existing bracket, then a count below 2 or not a power of two, leaving the store unchanged; otherwise adds the bracket and exactly its round-1 pairings, and keeps the invariant |
| TournamentService.Service.CreateBracket | Services/TournamentService.cs:41-69 | once the checks have passed, adds the bracket and exactly its round-1 pairings and keeps the invariant |
| TournamentService.Service.AdvanceRound | Services/TournamentService.cs:98-128 | appends exactly the next round of the played round and changes nothing else |
| TournamentService.Service.PlayMatch | Services/TournamentService.cs:72-131 | rejects a missing match, then a decided match, then a winner who is not a player; otherwise records the winner and appends the next round when the round is complete, keeping the invariant |
| TournamentService.Service.SaveWinner | Services/TournamentService.cs:95-96 | sets the winner of the one match and changes nothing else in the store |
| TournamentService.Service.RecordResult | Services/TournamentService.cs:94-130 | for an undecided match and one of its players, records the winner, appends exactly the next round, and keeps the invariant |
| Mutation.Apply | GraphQL/Mutations/Mutation.cs:81-140 | only a join by a missing user fails; a join adds the user once; start and finish set the status whatever it was; the name is kept and the participant list stays duplicate-free |
| Mutation.RunKeepsParticipants | GraphQL/Mutations/Mutation.cs:81-140 | over any sequence of C# lifecycle calls no participant is ever removed and the list stays duplicate-free |
| Mutation.FinishThenStart | GraphQL/Mutations/Mutation.cs:110-140 | for every tournament, finishing and then starting it leaves it ongoing with its name and participants, so a completed tournament moves back to ongoing |
| Mutation.CreateTournament | GraphQL/Mutations/Mutation.cs:63-79 | appends a new upcoming tournament with no participants and returns its id |
| Mutation.AddParticipant | GraphQL/Mutations/Mutation.cs:81-108 | yields null for a missing tournament; otherwise yields and stores the result of the C# join |
| Mutation.StartTournament | GraphQL/Mutations/Mutation.cs:110-124 | yields null for a missing tournament; otherwise stores the tournament as ongoing |
| Mutation.FinishTournament | GraphQL/Mutations/Mutation.cs:126-140 | yields null for a missing tournament; otherwise stores the tournament as completed |
| Mutation.GenerateBracket | GraphQL/Mutations/Mutation.cs:142-148 | delegates to the service and has the same effect |
| Mutation.PlayMatch | GraphQL/Mutations/Mutation.cs:150-157 | delegates to the service and has the same effect |
| MongoStore.Db.constructor | src/models/Bracket.js:3-18 | an empty store over the given users satisfies the store invariant |
| MongoStore.ListsAfterGenerate | src/resolvers/index.js:298-318 | a new bracket whose list holds the ids of its round-1 matches keeps every bracket's list equal to the ids of its matches |
| MongoStore.ListsAfterPlay | src/resolvers/index.js:359-394 | recording a result and appending the next round's ids to the played bracket keeps every list in agreement |
| MongoStore.ConsistentAfterPlay | src/resolvers/index.js:359-394 | playing an undecided match with one of its players keeps the store invariant |
| MongoStore.ValidAfterPlay | src/resolvers/index.js:360-394 | a store holding the played match list, the appended next round, the extended bracket list and the advanced latest round satisfies the store invariant |
| MongoStore.ConsistentAfterGenerate | src/resolvers/index.js:298-320 | adding a bracket that lists the ids of its round-1 pairings, for a tournament without one and with a valid count, keeps the store invariant |
| Resolvers.IsPowerOf2 | src/resolvers/index.js:291 | the test holds exactly when n is a positive power of two |
| Resolvers.PlayCheck | src/resolvers/index.js:346-358 | a play is accepted exactly when the winner is one of the match's players and the match is undecided; a non-player is reported before a decided match |
| Resolvers.Apply | src/resolvers/index.js:187-263 | a join succeeds exactly for an upcoming tournament, a registered user and a new participant, and appends the user; otherwise it reports not upcoming, then a missing user, then an existing participant; start succeeds exactly from upcoming and finish exactly from anything but completed, each raising the status and otherwise reporting already started or already finished; nothing succeeds on a completed tournament |
| Resolvers.RunForward | src/resolvers/index.js:187-263 | over any sequence of JS lifecycle calls the status never moves back, a completed tournament never changes, participants are frozen once the tournament has started, and the list stays duplicate-free |
| Resolvers.CreateTournament | src/resolvers/index.js:175-184 | appends a new upcoming tournament with no participants and returns its id |
| Resolvers.AddParticipant | src/resolvers/index.js:187-221 | reports a missing tournament, otherwise the JS join's error or the stored result |
| Resolvers.StartTournament | src/resolvers/index.js:224-242 | reports a missing tournament, otherwise the JS start's error or the stored result |
| Resolvers.FinishTournament | src/resolvers/index.js:245-263 | reports a missing tournament, otherwise the JS finish's error or the stored result |
| Resolvers.SaveRoundOne | src/resolvers/index.js:305-316 | the save loop stores exactly the round-1 pairings and collects their fresh ids in order |
| Resolvers.GenerateBracket | src/resolvers/index.js:266-331 | rejects a missing tournament, then an existing bracket, then fewer than two participants, then a count that is not a power of two, leaving the store unchanged; otherwise stores one bracket listing exactly the ids of its round-1 pairings, and keeps the invariant |
| Resolvers.CreateBracket | src/resolvers/index.js:298-320 | once the checks have passed, stores one bracket listing exactly the ids of its round-1 pairings, and keeps the invariant |
| Resolvers.AdvanceRound | src/resolvers/index.js:364-395 | when the round is complete and has more than one match, appends exactly the next round and extends the bracket's list by exactly its ids; otherwise changes nothing |
| Resolvers.SaveNextRound | src/resolvers/index.js:377-390 | the guarded loop stores exactly the pairings of the winners, skipping a last unpaired one, and collects their fresh ids in order |
| Resolvers.PlayMatch | src/resolvers/index.js:334-402 | rejects a missing match, then a winner who is not a player, then a decided match; otherwise records the winner, advances a complete round, extends the bracket's list, and keeps the invariant |
| Resolvers.SaveWinner | src/resolvers/index.js:360-361 | sets the winner of the one match and changes nothing else in the store |
| Resolvers.RecordResult | src/resolvers/index.js:361-395 | for an undecided match and one of its players, records the winner, appends exactly the next round, extends the bracket's list by its ids, and keeps the invariant |
| Comparison.GenerateGuardsAgree | src/resolvers/index.js:283-296 | the C# guard and the JS pair of guards accept the same counts, namely 2^m for m >= 1 |
| Comparison.PlayChecksAgree | src/resolvers/index.js:346-358 | the C# and JS play checks reject the same inputs and differ in the error exactly for a decided match named with a non-player |
| Comparison.JsAcceptedIsCsAccepted | src/resolvers/index.js:187-263 | every lifecycle call the JS accepts the C# accepts with the same result, and a completed tournament can be restarted only in C# |
| Comparison.PairingsCover | src/resolvers/index.js:379-390 | pairing an even list places every player in a match and yields half as many matches |
| Comparison.NoWinnerDropped | src/resolvers/index.js:373-390 | in a shaped bracket a complete round of several matches is even, the next round has half as many matches, and every winner plays in it |

## Left out

- Authentication, registration, login and password hashing are not part of this model, nor are the queries, the server wiring or the GraphQL schema.
- Dates (`startDate`, `createdAt`) and the tournament name's trimming and length limit are left out: no operation here depends on them.
- Database identity is abstracted to positions in sequences. ObjectIds, integer keys and the parsing of id strings are left out.
- Concurrency is left out. Each resolver and service call is modelled as one atomic step, although the source saves in several steps without a transaction (a crash between saves, or two results recorded at once, could duplicate or lose a round).
- Both stores are taken to return a bracket's matches in creation order (`Include(b => b.Matches)` and `Match.find`). The pairing of winners follows that order.
- A tournament's participants are taken in the order they joined (`Include(t => t.Participants)` and the stored array). Round-1 pairing follows that order.
- Match and participant counts are unbounded integers. The 32-bit `int` of the C# counts and the JS bitwise operators on 32-bit values are not modelled, so counts are taken to stay below 2^31.
- Mongoose's `populate` of a deleted user (a `null` player) and the C# `Contains` on a tracked entity are left out. Users are never deleted here, and joining is decided by user id.
- The documents returned with populated references are modelled by the stored record or id alone.
- TournamentService.Service.PlayMatch: the C# fault on an odd complete round (`winners[i + 1]` out of range) is not modelled as an error path. The store invariant proves every complete round of more than one match is even, so the fault cannot occur.
- TournamentService.Service.AdvanceRound: requires that a complete round of more than one match is even. Without that, the source's `winners[i + 1]` would throw. `RecordResult` discharges the requirement from the store invariant.
