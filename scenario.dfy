/** Client runs of the voting store that check, from the contracts alone,
    the behaviour its users rely on. */
module Scenarios {
  import opened Records
  import opened Tallying
  import opened Ledger

  /** Three voters with three different choices tally one each. */
  method ThreeVoters()
  {
    var l := new VotingLedger("s3cret");
    var created := l.CreateProposal("Park", "Build a park", 2, 0, 0);
    var pid := created.id;
    assert created.proposal.status == Active && pid == 1;

    var alice := l.SubmitVote(pid, "Alice", Yes, 10, 10);
    assert alice == Ok(VoteRow(1, Vote(pid, "Alice", Yes, 10)));
    assert !HasVoted(l.votes, pid, "Bob") by {
      assert l.votes.Keys == {1};
    }
    var bob := l.SubmitVote(pid, "Bob", No, 20, 20);
    assert bob.Ok?;
    assert !HasVoted(l.votes, pid, "Carol") by {
      assert l.votes.Keys == {1, 2};
    }
    var carol := l.SubmitVote(pid, "Carol", Abstain, 30, 30);
    assert carol.Ok?;

    ghost var empty: map<int, Vote> := map[];
    ghost var v1 := empty[1 := Vote(pid, "Alice", Yes, 10)];
    ghost var v2 := v1[2 := Vote(pid, "Bob", No, 20)];
    assert l.votes == v2[3 := Vote(pid, "Carol", Abstain, 30)];
    forall c ensures CountOf(l.votes, pid, c) == 1 {
      TallyOfUnreferenced(empty, pid);
      TallyAfterCast(empty, 1, Vote(pid, "Alice", Yes, 10), pid, c);
      TallyAfterCast(v1, 2, Vote(pid, "Bob", No, 20), pid, c);
      TallyAfterCast(v2, 3, Vote(pid, "Carol", Abstain, 30), pid, c);
    }
    var read := l.GetProposal(pid, 40);
    assert read.value.tally == Tally(1, 1, 1);
  }

  /** A revoked vote leaves the tally; a voter who still has a vote cannot
      cast another one. */
  method RevokeAndRecast()
  {
    var l := new VotingLedger("s3cret");
    var created := l.CreateProposal("Park", "Build a park", 2, 0, 0);
    var pid := created.id;
    var alice := l.SubmitVote(pid, "Alice", Yes, 10, 10);
    assert !HasVoted(l.votes, pid, "Bob") by {
      assert l.votes.Keys == {1};
    }
    var bob := l.SubmitVote(pid, "Bob", No, 20, 20);
    assert bob.Ok?;

    ghost var empty: map<int, Vote> := map[];
    ghost var v1 := empty[1 := Vote(pid, "Alice", Yes, 10)];
    var revoked := l.RevokeVote(bob.value.id, 50);
    assert revoked == Ok(());
    assert l.votes == v1;
    forall c ensures CountOf(l.votes, pid, c) == if c == Yes then 1 else 0 {
      TallyOfUnreferenced(empty, pid);
      TallyAfterCast(empty, 1, Vote(pid, "Alice", Yes, 10), pid, c);
    }
    var read := l.GetProposal(pid, 60);
    assert read.value.tally == Tally(1, 0, 0);

    assert HasVoted(l.votes, pid, "Alice") by {
      assert 1 in l.votes;
    }
    var again := l.SubmitVote(pid, "Alice", No, 70, 70);
    assert again == Err(AlreadyVoted);
  }

  /** Only the configured token closes a proposal; once closed, its votes
      can be neither cast nor revoked. */
  method CloseWithToken()
  {
    var l := new VotingLedger("s3cret");
    var created := l.CreateProposal("Park", "Build a park", 2, 0, 0);
    var pid := created.id;
    var alice := l.SubmitVote(pid, "Alice", Yes, 10, 10);
    assert alice.Ok?;

    var denied := l.CloseProposal(pid, Some("guess"), 80);
    assert denied == Err(Forbidden);
    var absent := l.CloseProposal(pid, None, 80);
    assert absent == Err(Forbidden);
    var closed := l.CloseProposal(pid, Some("s3cret"), 80);
    assert closed.value.proposal.status == Closed;
    var late := l.SubmitVote(pid, "Dave", Yes, 90, 90);
    assert late == Err(VotingNotAllowed);
    var stuck := l.RevokeVote(alice.value.id, 90);
    assert stuck == Err(RevokeNotAllowed);
  }

  /** A proposal open for zero days expires as soon as the clock passes its
      creation instant; an expired proposal can still be closed. */
  method ZeroDaysThenClose()
  {
    var l := new VotingLedger("s3cret");
    var created := l.CreateProposal("Now", "Decide now", 0, 100, 100);
    assert created.proposal.status == Active;
    var late := l.SubmitVote(created.id, "Alice", Yes, 101, 101);
    assert late == Err(VotingNotAllowed);
    assert l.proposals[created.id].status == Expired;
    var again := l.GetProposal(created.id, 102);
    assert again.value.proposal.status == Expired;
    var closed := l.CloseProposal(created.id, Some("s3cret"), 103);
    assert closed.value.proposal.status == Closed;
    var missing := l.CloseProposal(created.id + 1, Some("s3cret"), 103);
    assert missing == Err(ProposalNotFound);
  }
}
