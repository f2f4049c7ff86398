/** The rows of the two tables of the voting store, the proposal status and
    ballot choice enumerations, the outcomes the routes return, and lazy
    expiry of a single proposal record. */
module Records {

  /** Lifecycle state of a proposal. */
  datatype Status = Active | Closed | Expired

  /** The ballot values the votes table admits. */
  datatype Choice = Yes | No | Abstain

  /** Instants are whole seconds on the clock the caller reads; a proposal
      stays open for a whole number of days. */
  const SecondsPerDay := 86400

  /** A row of the proposals table (its id is the map key). */
  datatype Proposal = Proposal(
    title: string,
    description: string,
    createdAt: int,
    deadline: int,
    status: Status)

  /** A row of the votes table (its id is the map key). */
  datatype Vote = Vote(proposalId: int, voterName: string, choice: Choice, votedAt: int)

  /** Counts of yes, no and abstain votes on one proposal. */
  datatype Tally = Tally(yes: nat, no: nat, abstain: nat)

  /** What the proposal routes report: the stored record with its id and tally. */
  datatype Report = Report(id: int, proposal: Proposal, tally: Tally)

  /** What the vote routes report: a stored vote with its id. */
  datatype VoteRow = VoteRow(id: int, vote: Vote)

  /** One variant per distinct failure the routes raise; the two "not
      active" refusals and the two "not found" refusals carry different
      messages in the service and are kept apart here. */
  datatype Error =
    | ProposalNotFound
    | VoteNotFound
    | VotingNotAllowed   // submitting a vote to a proposal that is not active
    | AlreadyVoted       // the voter already has a vote on this proposal
    | RevokeNotAllowed   // revoking a vote whose proposal is not active
    | Forbidden          // missing or wrong admin token

  datatype Result<T> = Ok(value: T) | Err(error: Error)

  datatype Option<T> = None | Some(value: T)

  /** The record a proposal has once lazy expiry has been applied at
      instant `now`: an active proposal whose deadline lies strictly in the
      past becomes expired; every other record is returned as it is. */
  function Expire(p: Proposal, now: int): (q: Proposal)
    ensures q.status == Active <==> p.status == Active && now <= p.deadline
    ensures q.status != p.status ==> p.status == Active && q.status == Expired
    ensures p.status != Active ==> q == p
    ensures q == p.(status := q.status)
  {
    if p.status == Active && now > p.deadline then p.(status := Expired) else p
  }

  /** Applying expiry again at the same or a later instant is the same as
      applying it once at the later instant; in particular a second
      resolution at the same instant changes nothing. */
  lemma ExpireComposes(p: Proposal, earlier: int, later: int)
    requires earlier <= later
    ensures Expire(Expire(p, earlier), later) == Expire(p, later)
    ensures Expire(Expire(p, later), later) == Expire(p, later)
  {
  }
}
