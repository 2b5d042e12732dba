/** Values shared by both implementations of the tournament API. */
module Common {

  datatype Option<T> = None | Some(value: T)

  /** The outcome of an operation that either succeeds or raises one of the source's errors. */
  datatype Result<T> = Success(value: T) | Failure(error: Error)

  /** The conditions the two implementations report, one constructor per distinct message. */
  datatype Error =
    | TournamentNotFound
    | BracketAlreadyExists
    | InvalidParticipantCount   // the C# service's single "must be a power of 2" message
    | TooFewParticipants        // the JS resolver's "at least 2 participants"
    | NotPowerOfTwo             // the JS resolver's "must be a power of 2"
    | MatchNotFound
    | AlreadyHasWinner
    | NotAPlayer
    | UserNotFound
    | NotUpcoming               // adding a participant after the tournament started
    | AlreadyParticipant
    | AlreadyStarted
    | AlreadyFinished

  /** Lifecycle of a tournament: upcoming, ongoing, completed. */
  datatype Status = Upcoming | Ongoing | Completed

  /** The lifecycle mutations: enrol a user, start, finish. */
  datatype LifecycleOp = Join(user: int) | Start | Finish

  /** A tournament as the core sees it: start date and creation time are left out. */
  datatype Tournament = Tournament(name: string, status: Status, participants: seq<int>)

  /** Position of a status in the lifecycle order. */
  function Rank(s: Status): nat
  {
    match s
    case Upcoming => 0
    case Ongoing => 1
    case Completed => 2
  }

  predicate NoDuplicates(s: seq<int>)
  {
    forall i, j :: 0 <= i < j < |s| ==> s[i] != s[j]
  }

  /** A freshly created tournament: status upcoming and no participants. */
  function NewTournament(name: string): (t: Tournament)
    ensures t.status == Upcoming && t.participants == [] && t.name == name
    ensures NoDuplicates(t.participants)
  {
    Tournament(name, Upcoming, [])
  }

  /** Adds user u to a participant list unless it is already there. */
  function Enrol(ps: seq<int>, u: int): (r: seq<int>)
    ensures u in r
    ensures forall x :: x in r <==> x in ps || x == u
    ensures u in ps ==> r == ps
    ensures u !in ps ==> |r| == |ps| + 1 && r[..|ps|] == ps
    ensures NoDuplicates(ps) ==> NoDuplicates(r)
  {
    if u in ps then ps else ps + [u]
  }
}
