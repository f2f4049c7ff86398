/** The voting store and its routes: the proposals and votes tables, the
    id counters of the two tables, lazy expiry on every read of a proposal,
    vote submission and revocation, the admin close, and the listings. */
module Ledger {
  import opened Records
  import opened Tallying
  import opened Listing

  /** The validation the service applies to a new proposal. */
  predicate WellFormed(p: Proposal)
  {
    |p.title| > 0 && |p.description| > 0
  }

  /** Whether `voter` already has a stored vote on proposal `pid`. */
  predicate HasVoted(votes: map<int, Vote>, pid: int, voter: string)
  {
    exists id | id in votes :: votes[id].proposalId == pid && votes[id].voterName == voter
  }

  /** The uniqueness constraint on (proposal, voter) of the votes table. */
  ghost predicate OneVotePerVoter(votes: map<int, Vote>)
  {
    forall a, b ::
      (a in votes && b in votes
       && votes[a].proposalId == votes[b].proposalId
       && votes[a].voterName == votes[b].voterName) ==> a == b
  }

  /** How the proposals table may evolve between two states: no proposal
      disappears, only its status changes, and no proposal goes back to
      active once it has left that state. */
  ghost predicate NeverReactivates(before: map<int, Proposal>, after: map<int, Proposal>)
  {
    forall id :: id in before ==>
      && id in after
      && after[id] == before[id].(status := after[id].status)
      && (after[id].status == Active ==> before[id].status == Active)
  }

  /** The ids of a proposal listing. */
  function ReportIds(rs: seq<Report>): set<int>
  {
    set i | 0 <= i < |rs| :: rs[i].id
  }

  lemma ReportIdsAre(rs: seq<Report>, ids: seq<int>)
    requires |rs| == |ids|
    requires forall i :: 0 <= i < |rs| ==> rs[i].id == ids[i]
    ensures ReportIds(rs) == KeySet(ids)
  {
  }

  /** The ids of a vote listing. */
  function RowIds(rows: seq<VoteRow>): set<int>
  {
    set i | 0 <= i < |rows| :: rows[i].id
  }

  /** The rows of the votes with ids `ids`, in that order. */
  function RowsOf(votes: map<int, Vote>, ids: seq<int>): (rows: seq<VoteRow>)
    requires forall i :: 0 <= i < |ids| ==> ids[i] in votes
    ensures |rows| == |ids|
    ensures forall i :: 0 <= i < |ids| ==> rows[i] == VoteRow(ids[i], votes[ids[i]])
  {
    if ids == [] then [] else [VoteRow(ids[0], votes[ids[0]])] + RowsOf(votes, ids[1..])
  }

  /** Listing the ids [1, hi) of a table whose ids all lie there lists
      each stored vote exactly once. */
  lemma ListingComplete(votes: map<int, Vote>, hi: int)
    requires forall id :: id in votes ==> 1 <= id < hi
    ensures |RowsOf(votes, AscendingKeys(votes, 1, hi))| == |votes|
    ensures RowIds(RowsOf(votes, AscendingKeys(votes, 1, hi))) == votes.Keys
  {
    AscendingKeysCount(votes, 1, hi);
    ListingCovers(votes, AscendingKeys(votes, 1, hi));
  }

  lemma ListingCovers(votes: map<int, Vote>, ids: seq<int>)
    requires forall i :: 0 <= i < |ids| ==> ids[i] in votes
    ensures RowIds(RowsOf(votes, ids)) == KeySet(ids)
  {
    var rows := RowsOf(votes, ids);
    assert forall i :: 0 <= i < |ids| ==> rows[i].id == ids[i];
  }

  /** A vote that is not a duplicate keeps the uniqueness constraint. */
  lemma CastKeepsOneVotePerVoter(votes: map<int, Vote>, id: int, v: Vote)
    requires OneVotePerVoter(votes) && id !in votes
    requires !HasVoted(votes, v.proposalId, v.voterName)
    ensures OneVotePerVoter(votes[id := v])
  {
  }

  /** Resolving a stored proposal a second time at the same instant
      leaves the table as the first resolution left it. */
  lemma ResolveIdempotent(m: map<int, Proposal>, pid: int, now: int)
    requires pid in m
    ensures var once := m[pid := Expire(m[pid], now)];
      once[pid := Expire(once[pid], now)] == once
  {
    ExpireComposes(m[pid], now, now);
  }

  /** The status discipline survives any sequence of operations. */
  lemma NeverReactivatesTransitive(a: map<int, Proposal>, b: map<int, Proposal>, c: map<int, Proposal>)
    requires NeverReactivates(a, b) && NeverReactivates(b, c)
    ensures NeverReactivates(a, c)
  {
  }

  class VotingLedger {
    /** The admin token close requests must present (a configured value). */
    const adminToken: string
    var proposals: map<int, Proposal>
    var votes: map<int, Vote>
    /** The id the next inserted proposal (vote) gets; ids are never reused. */
    var nextProposalId: int
    var nextVoteId: int

    ghost predicate Valid()
      reads this
    {
      && 1 <= nextProposalId && 1 <= nextVoteId
      && (forall id :: id in proposals ==> 1 <= id < nextProposalId && WellFormed(proposals[id]))
      && (forall id :: id in votes ==>
            && 1 <= id < nextVoteId
            && votes[id].proposalId in proposals
            && |votes[id].voterName| > 0)
      && OneVotePerVoter(votes)
    }

    constructor (adminToken: string)
      ensures Valid() && this.adminToken == adminToken
      ensures proposals == map[] && votes == map[]
      ensures nextProposalId == 1 && nextVoteId == 1
    {
      this.adminToken := adminToken;
      proposals, votes := map[], map[];
      nextProposalId, nextVoteId := 1, 1;
    }

    /** Load proposal `pid`, applying lazy expiry at `now`: an active
        proposal past its deadline is stored as expired and returned so. */
    method Resolve(pid: int, now: int) returns (r: Result<Proposal>)
      requires Valid()
      modifies this
      ensures Valid()
      ensures votes == old(votes)
      ensures nextProposalId == old(nextProposalId) && nextVoteId == old(nextVoteId)
      ensures pid !in old(proposals) ==> r == Err(ProposalNotFound) && proposals == old(proposals)
      ensures pid in old(proposals) ==>
        && r == Ok(Expire(old(proposals)[pid], now))
        && proposals == old(proposals)[pid := r.value]
      ensures NeverReactivates(old(proposals), proposals)
    {
      if pid !in proposals {
        return Err(ProposalNotFound);
      }
      var p := proposals[pid];
      if p.status == Active && now > p.deadline {
        proposals := proposals[pid := p.(status := Expired)];
        p := proposals[pid];
      }
      r := Ok(p);
    }

    /** Insert a new active proposal, open for `daysOpen` days from
        `createdAt`, and report it as read back at instant `readAt`. */
    method CreateProposal(title: string, description: string, daysOpen: int, createdAt: int, readAt: int)
      returns (r: Report)
      requires Valid()
      requires |title| > 0 && |description| > 0
      modifies this
      ensures Valid()
      ensures r.id == old(nextProposalId) && r.id !in old(proposals)
      ensures nextProposalId == old(nextProposalId) + 1
      ensures r.proposal == Expire(Proposal(title, description, createdAt, createdAt + daysOpen * SecondsPerDay, Active), readAt)
      ensures proposals == old(proposals)[r.id := r.proposal]
      ensures votes == old(votes) && nextVoteId == old(nextVoteId)
      ensures r.tally == Tally(0, 0, 0)
      ensures NeverReactivates(old(proposals), proposals)
    {
      var pid := nextProposalId;
      var deadline := createdAt + daysOpen * SecondsPerDay;
      proposals := proposals[pid := Proposal(title, description, createdAt, deadline, Active)];
      nextProposalId := nextProposalId + 1;
      var loaded := Resolve(pid, readAt);
      TallyOfUnreferenced(votes, pid);
      var t := TallyVotes(votes, pid, GroupByChoice(votes, pid));
      r := Report(pid, loaded.value, t);
    }

    /** Every proposal in id order, each resolved at `now` and tallied. */
    method GetProposals(now: int) returns (rs: seq<Report>)
      requires Valid()
      modifies this
      ensures Valid()
      ensures votes == old(votes)
      ensures nextProposalId == old(nextProposalId) && nextVoteId == old(nextVoteId)
      ensures proposals.Keys == old(proposals).Keys
      ensures forall id :: id in old(proposals) ==> proposals[id] == Expire(old(proposals)[id], now)
      ensures |rs| == |proposals|
      ensures forall i, j :: 0 <= i < j < |rs| ==> rs[i].id < rs[j].id
      ensures forall i :: 0 <= i < |rs| ==>
        rs[i].id in proposals && rs[i] == Report(rs[i].id, proposals[rs[i].id], TallyOf(votes, rs[i].id))
      ensures ReportIds(rs) == proposals.Keys
      ensures NeverReactivates(old(proposals), proposals)
    {
      var ids := ProposalIds();
      rs := ReportEach(ids, now);
      forall id | id in old(proposals) ensures proposals[id] == Expire(old(proposals)[id], now) {
        var j :| 0 <= j < |ids| && ids[j] == id;
      }
      assert |proposals| == |proposals.Keys| == |old(proposals).Keys| == |ids|;
      ReportIdsAre(rs, ids);
    }

    /** The ids of all stored proposals, in ascending order. */
    method ProposalIds() returns (ids: seq<int>)
      requires Valid()
      ensures forall i, j :: 0 <= i < j < |ids| ==> ids[i] < ids[j]
      ensures forall i :: 0 <= i < |ids| ==> ids[i] in proposals
      ensures KeySet(ids) == proposals.Keys
      ensures |ids| == |proposals|
    {
      ids := AscendingKeys(proposals, 1, nextProposalId);
      AscendingKeysCount(proposals, 1, nextProposalId);
    }

    /** The loop of the listing: resolve and tally each proposal of `ids`
        in turn, appending its report. */
    method ReportEach(ids: seq<int>, now: int) returns (rs: seq<Report>)
      requires Valid()
      requires forall i, j :: 0 <= i < j < |ids| ==> ids[i] < ids[j]
      requires forall i :: 0 <= i < |ids| ==> ids[i] in proposals
      modifies this
      ensures Valid()
      ensures votes == old(votes)
      ensures nextProposalId == old(nextProposalId) && nextVoteId == old(nextVoteId)
      ensures proposals.Keys == old(proposals).Keys
      ensures forall i :: 0 <= i < |ids| ==> proposals[ids[i]] == Expire(old(proposals)[ids[i]], now)
      ensures forall id :: id in proposals && id !in KeySet(ids) ==> proposals[id] == old(proposals)[id]
      ensures |rs| == |ids|
      ensures forall i :: 0 <= i < |ids| ==> rs[i].id == ids[i]
      ensures forall i :: 0 <= i < |ids| ==> rs[i] == Report(ids[i], proposals[ids[i]], TallyOf(votes, ids[i]))
    {
      ghost var before, tallied := proposals, votes;
      rs := [];
      for i := 0 to |ids|
        invariant Valid()
        invariant votes == tallied
        invariant nextProposalId == old(nextProposalId) && nextVoteId == old(nextVoteId)
        invariant proposals.Keys == before.Keys
        invariant forall j :: 0 <= j < |ids| ==>
          proposals[ids[j]] == if j < i then Expire(before[ids[j]], now) else before[ids[j]]
        invariant forall id :: id in proposals && id !in KeySet(ids) ==> proposals[id] == before[id]
        invariant |rs| == i
        invariant forall j :: 0 <= j < i ==>
          rs[j] == Report(ids[j], Expire(before[ids[j]], now), TallyOf(tallied, ids[j]))
      {
        var report := GetProposal(ids[i], now);
        rs := rs + [report.value];
      }
    }

    /** One proposal, resolved at `now`, with its tally. */
    method GetProposal(pid: int, now: int) returns (r: Result<Report>)
      requires Valid()
      modifies this
      ensures Valid()
      ensures votes == old(votes)
      ensures nextProposalId == old(nextProposalId) && nextVoteId == old(nextVoteId)
      ensures pid !in old(proposals) ==> r == Err(ProposalNotFound) && proposals == old(proposals)
      ensures pid in old(proposals) ==>
        && proposals == old(proposals)[pid := Expire(old(proposals)[pid], now)]
        && r == Ok(Report(pid, proposals[pid], TallyOf(votes, pid)))
      ensures NeverReactivates(old(proposals), proposals)
    {
      var loaded := Resolve(pid, now);
      if loaded.Err? {
        return Err(loaded.error);
      }
      var t := TallyVotes(votes, pid, GroupByChoice(votes, pid));
      r := Ok(Report(pid, loaded.value, t));
    }

    /** Record `voter`'s `choice` on proposal `pid`: refused unless the
        proposal is active once resolved at `now`, and refused if the voter
        already has a vote on it; otherwise stored with a fresh id. */
    method SubmitVote(pid: int, voter: string, choice: Choice, now: int, votedAt: int)
      returns (r: Result<VoteRow>)
      requires Valid()
      requires |voter| > 0
      modifies this
      ensures Valid()
      ensures nextProposalId == old(nextProposalId)
      ensures pid !in old(proposals) ==>
        && r == Err(ProposalNotFound)
        && proposals == old(proposals) && votes == old(votes) && nextVoteId == old(nextVoteId)
      ensures pid in old(proposals) ==>
        var p := Expire(old(proposals)[pid], now);
        && proposals == old(proposals)[pid := p]
        && (p.status != Active ==>
              r == Err(VotingNotAllowed) && votes == old(votes) && nextVoteId == old(nextVoteId))
        && (p.status == Active && HasVoted(old(votes), pid, voter) ==>
              r == Err(AlreadyVoted) && votes == old(votes) && nextVoteId == old(nextVoteId))
        && (p.status == Active && !HasVoted(old(votes), pid, voter) ==>
              && r == Ok(VoteRow(old(nextVoteId), Vote(pid, voter, choice, votedAt)))
              && old(nextVoteId) !in old(votes)
              && votes == old(votes)[r.value.id := r.value.vote]
              && nextVoteId == old(nextVoteId) + 1)
      ensures NeverReactivates(old(proposals), proposals)
    {
      var loaded := Resolve(pid, now);
      if loaded.Err? {
        return Err(loaded.error);
      }
      if loaded.value.status != Active {
        return Err(VotingNotAllowed);
      }
      if HasVoted(votes, pid, voter) {
        return Err(AlreadyVoted);
      }
      var vid := nextVoteId;
      var v := Vote(pid, voter, choice, votedAt);
      CastKeepsOneVotePerVoter(votes, vid, v);
      votes := votes[vid := v];
      nextVoteId := nextVoteId + 1;
      r := Ok(VoteRow(vid, v));
    }

    /** Delete vote `vid`: refused if there is no such vote, or if its
        proposal is not active once resolved at `now`. */
    method RevokeVote(vid: int, now: int) returns (r: Result<()>)
      requires Valid()
      modifies this
      ensures Valid()
      ensures nextProposalId == old(nextProposalId) && nextVoteId == old(nextVoteId)
      ensures vid !in old(votes) ==>
        r == Err(VoteNotFound) && proposals == old(proposals) && votes == old(votes)
      ensures vid in old(votes) ==>
        var pid := old(votes)[vid].proposalId;
        && pid in old(proposals)
        && var p := Expire(old(proposals)[pid], now);
        && proposals == old(proposals)[pid := p]
        && (p.status != Active ==> r == Err(RevokeNotAllowed) && votes == old(votes))
        && (p.status == Active ==> r == Ok(()) && votes == old(votes) - {vid})
      ensures NeverReactivates(old(proposals), proposals)
    {
      if vid !in votes {
        return Err(VoteNotFound);
      }
      // Every stored vote refers to a stored proposal, so this load succeeds.
      var loaded := Resolve(votes[vid].proposalId, now);
      if loaded.value.status != Active {
        return Err(RevokeNotAllowed);
      }
      votes := votes - {vid};
      r := Ok(());
    }

    /** Admin close: with the configured token, mark proposal `pid` closed
        whatever its status was, then report it. No expiry check runs
        before the update. */
    method CloseProposal(pid: int, token: Option<string>, now: int) returns (r: Result<Report>)
      requires Valid()
      modifies this
      ensures Valid()
      ensures votes == old(votes)
      ensures nextProposalId == old(nextProposalId) && nextVoteId == old(nextVoteId)
      ensures token != Some(adminToken) ==> r == Err(Forbidden) && proposals == old(proposals)
      ensures token == Some(adminToken) && pid !in old(proposals) ==>
        r == Err(ProposalNotFound) && proposals == old(proposals)
      ensures token == Some(adminToken) && pid in old(proposals) ==>
        && proposals == old(proposals)[pid := old(proposals)[pid].(status := Closed)]
        && r == Ok(Report(pid, proposals[pid], TallyOf(votes, pid)))
      ensures NeverReactivates(old(proposals), proposals)
    {
      if token != Some(adminToken) {
        return Err(Forbidden);
      }
      if pid !in proposals {
        return Err(ProposalNotFound);
      }
      proposals := proposals[pid := proposals[pid].(status := Closed)];
      var loaded := Resolve(pid, now);
      var t := TallyVotes(votes, pid, GroupByChoice(votes, pid));
      r := Ok(Report(pid, loaded.value, t));
    }

    /** Every stored vote, in id order. */
    function ListVotes(): (rows: seq<VoteRow>)
      requires Valid()
      reads this
      ensures |rows| == |votes|
      ensures forall i, j :: 0 <= i < j < |rows| ==> rows[i].id < rows[j].id
      ensures forall i :: 0 <= i < |rows| ==> rows[i].id in votes && rows[i].vote == votes[rows[i].id]
      ensures RowIds(rows) == votes.Keys
    {
      ListingComplete(votes, nextVoteId);
      RowsOf(votes, AscendingKeys(votes, 1, nextVoteId))
    }
  }
}
