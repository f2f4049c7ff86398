# Community voting store, modelled in Dafny

This project models the proposal and vote lifecycle of a small community
voting service. The service keeps two tables: proposals and votes. A
proposal is `active`, `closed` or `expired`. Anyone may vote once per
proposal under a name, choosing yes, no or abstain. A vote can be revoked
while the proposal is active. An admin holding a token closes proposals.
Tallies are counted fresh from the votes table on every read.

The service is written against a relational store. The model keeps the
store in a class, `Ledger.VotingLedger`:

- `proposals: map<int, Proposal>` and `votes: map<int, Vote>` are the two tables, keyed by id.
- `nextProposalId` and `nextVoteId` are the autoincrement counters. They start at 1 and only go up, so an id is never reused, even after a vote is deleted.
- `adminToken` is the configured token for close requests.
- `Valid()` is the invariant every route keeps. Ids lie below their counter. Every vote refers to a stored proposal. Titles, descriptions and voter names are non-empty. No two votes share a (proposal, voter) pair. Only the last of these comes from the table definitions, through the unique index (app.py:37). Request validation gives the non-empty strings (app.py:54-55, app.py:70). The code paths keep votes pointing at stored proposals: a vote is inserted only after its proposal was found, and no proposal is ever deleted. The store does not enforce the foreign key, since it is never switched on.

Every route that writes is a method with `modifies this`. Its `ensures`
give the whole new state in terms of the old one. `ListVotes`, which only
reads, is a function with `reads this`. Clock readings
are integer seconds passed in as parameters.

Modules:

- `records.dfy` (`Records`) holds the row types, the status and choice enumerations, and the error variants. It also holds `Expire`, the lazy-expiry rule for one record.
- `tallying.dfy` (`Tallying`) holds the reference count (`CountOf`, `TallyOf`, the votes stored for a proposal with a given choice). It also holds the grouped rows the aggregate query returns, the tally loop, and lemmas about how a tally moves when a vote is cast or revoked.
- `listing.dfy` (`Listing`) holds the ascending-id scan of a table.
- `ledger.dfy` (`Ledger`) holds the store class, its routes, and the uniqueness and status-discipline predicates.
- `scenario.dfy` (`Scenarios`) holds client runs that use only the contracts. They check a concrete history: tallies (1,1,1) after three voters, a revoked vote leaving the tally, a second vote refused as `AlreadyVoted`, and the token rules of close. A zero-day proposal is refused as `VotingNotAllowed` one second after creation, and an expired proposal can still be closed.

The model follows what the code does, including where a reader might expect otherwise:

- `close_proposal` does not run expiry first and does not look at the current status. It stores `closed` whatever the status was, so expired→closed and closed→closed both succeed (app.py:208-213). A close that first resolves expiry and refuses a non-active proposal is not what the code does.
- `days_open` has no positivity check (app.py:56, app.py:118). A deadline may lie before the creation instant, and the proposal then expires on its first read.
- "Not active" and "already voted" are both the same HTTP status in the service. They are told apart only by their message (app.py:165, app.py:171). The model gives them distinct variants: `VotingNotAllowed`, `AlreadyVoted` and, for revocation, `RevokeNotAllowed`.

## Model

| member | source | states |
|---|---|---|
| `Records.Expire` | app.py:95-101 | The effective record is active exactly when the stored one is active and `now <= deadline` (strict `now > deadline` expires). The only status change is active→expired. A closed or expired record comes back unchanged. No field other than the status changes. |
| `Records.ExpireComposes` | app.py:95-101 | Resolving again at the same or a later instant equals one resolution at the later instant. A second resolution at the same instant changes nothing. |
| `Ledger.ResolveIdempotent` | app.py:95-102 | On the proposals table: a second resolution of the same id at the same instant leaves the table as the first one left it. |
| `Ledger.VotingLedger.Resolve` | app.py:89-102 | Unknown id: `ProposalNotFound`, and nothing changes. Otherwise the record becomes `Expire(record, now)`, which is returned. No other proposal, no vote and no counter changes, and `Valid()` is kept. |
| `Ledger.VotingLedger.constructor` | app.py:18-40 | The store starts with both tables empty, both counters at 1, the configured admin token, and `Valid()`. |
| `Ledger.VotingLedger.CreateProposal` | app.py:114-129 | Adds exactly one proposal under the fresh id `old(nextProposalId)` and bumps the counter. The record is active with `deadline = createdAt + daysOpen * 86400`, as resolved at the later read instant. The votes table is unchanged and the reported tally is (0,0,0). |
| `Ledger.VotingLedger.GetProposal` | app.py:149-157 | Unknown id: `ProposalNotFound`, nothing changes. Otherwise it resolves that one proposal and reports it with `TallyOf(votes, id)`. Votes are unchanged. |
| `Ledger.VotingLedger.GetProposals` | app.py:132-146 | Every stored proposal is resolved at `now` and no other change is made. The result lists each proposal exactly once, in ascending id order, with its resolved record and its reference tally. |
| `Ledger.VotingLedger.ProposalIds` | app.py:135-136 | The id query returns every stored proposal id exactly once, in strictly ascending order. |
| `Ledger.VotingLedger.ReportEach` | app.py:138-144 | The loop resolves each listed id in turn and appends its report. Listed proposals end up `Expire`d. Unlisted ones and all votes are untouched. Report `i` is that proposal's id, resolved record and tally. |
| `Ledger.VotingLedger.SubmitVote` | app.py:160-181 | Unknown proposal: `ProposalNotFound`. Resolved status not active: `VotingNotAllowed`. Voter already has a vote on it: `AlreadyVoted`. In all three cases the votes table is unchanged. Otherwise exactly one vote `(pid, voter, choice, votedAt)` is added under the fresh id `old(nextVoteId)`. The uniqueness invariant holds afterwards. |
| `Ledger.VotingLedger.RevokeVote` | app.py:184-199 | Unknown vote id: `VoteNotFound`, nothing changes. Otherwise the owning proposal is resolved. If it is not active: `RevokeNotAllowed` and votes unchanged. If it is active: exactly that vote is removed. Counters are never rewound. |
| `Ledger.VotingLedger.CloseProposal` | app.py:202-221 | A token other than the configured one, or none, gives `Forbidden` before any lookup, and nothing changes. With the right token, an unknown id gives `ProposalNotFound`. Otherwise the status becomes `closed` whatever it was. No other proposal or vote changes. The report carries the proposal's tally. |
| `Ledger.VotingLedger.ListVotes` | app.py:224-231 | Lists every stored vote exactly once, in strictly ascending id order, with its stored contents. The listing has as many rows as the table. |
| `Ledger.ListingComplete` | app.py:227-231 | Scanning ids `[1, nextVoteId)` of a votes table whose ids all lie there yields one row per stored vote and no others. |
| `Ledger.CastKeepsOneVotePerVoter` | app.py:37 | Inserting a vote under a fresh id, for a (proposal, voter) pair with no vote yet, keeps "at most one vote per (proposal, voter)". |
| `Ledger.NeverReactivatesTransitive` | app.py:98 | The status discipline composes over sequences of operations. Every route that writes ensures `NeverReactivates`: no proposal disappears, only its status changes, and none returns to `active`. |
| `Tallying.GroupByChoice` | app.py:106 | The aggregate query's rows: one row per choice with at least one vote on the proposal, carrying that choice's count. No choice appears twice and no row has a count of 0. |
| `Tallying.TallyVotes` | app.py:104-110 | Starting every choice at 0 and overwriting it from the grouped rows, in whatever order they come, yields exactly the reference tally `TallyOf(votes, pid)`. A choice absent from the rows reports 0. |
| `Tallying.TallyCoversVotes` | app.py:104-110 | yes + no + abstain equals the number of stored votes on the proposal. |
| `Tallying.TallyOfUnreferenced` | app.py:122-124 | A proposal no vote refers to, such as a freshly created one, tallies (0,0,0). |
| `Tallying.TallyAfterCast` | app.py:173-175 | Inserting a vote under a new id raises the count of that vote's own (proposal, choice) by one. Every other count stays as it was. |
| `Tallying.TallyAfterRevoke` | app.py:196 | Deleting a stored vote lowers the count of its own (proposal, choice) by one. Every other count stays as it was. |
| `Listing.AscendingKeys` | app.py:135-136 | The keys of a table in a range, listed in strictly ascending order, each a key of the table within the range. |
| `Listing.AscendingKeysCount` | app.py:135-136 | When all keys lie in the scanned range, the scan lists every key exactly once: same count, same set. |

## Left out

- Storage I/O is left out: connections, cursors, commits, table creation and the `voting.db` file. The tables are maps in the class.
- Atomicity and concurrency are left out. The model is sequential. The read-then-insert race between the duplicate check and the insert in `submit_vote`, which the unique index would turn into a storage error, is not modelled.
- The cascade delete of votes is left out. No code path deletes a proposal.
- HTTP routing, status codes and the construction of the response objects are left out. `Report` and `VoteRow` carry the same fields, and errors are the `Error` datatype.
- Request validation is kept only as preconditions. Titles, descriptions and voter names must be non-empty. The choice is the `Choice` datatype.
- `CreateProposal` takes `daysOpen` as an integer. The default of 2 days is applied before the call. A `days_open` sent as an explicit null, which makes the service fail on `timedelta`, is not modelled.
- The clock and the date library are parameters. Instants are integer seconds and a day is 86400 of them. ISO-format round trips, sub-second precision and the calendar range of `datetime` (where a huge `days_open` overflows) are not modelled.
- `GetProposals`: one instant `now` is used for the whole listing, where the service reads the clock once per proposal. Under a monotone clock this can only leave a proposal active that a later reading would have expired.
- `ListVotes`, `GetProposals`: "ascending id order" assumes the store returns an unordered `SELECT` in rowid order, as a plain table scan does.
- The hard-coded admin token literal is left out. The token is a constructor argument.
- The health endpoint is left out.
- The 404 that `revoke_vote` would raise for a missing owning proposal cannot happen. `Valid()` guarantees that every vote refers to a stored proposal, since votes are inserted only after their proposal was found and proposals are never deleted.
