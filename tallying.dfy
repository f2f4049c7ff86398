/** The tally of a proposal: the per-choice count of the votes stored for
    it, the grouped rows the store's aggregate query yields, and the loop
    that turns those rows into three counts with missing choices at 0. */
module Tallying {
  import opened Records

  /** Ids of the stored votes on proposal `pid`. */
  function VotesFor(votes: map<int, Vote>, pid: int): set<int>
  {
    set id | id in votes && votes[id].proposalId == pid
  }

  /** Ids of the stored votes on proposal `pid` with choice `c`. */
  function VotesOn(votes: map<int, Vote>, pid: int, c: Choice): set<int>
  {
    set id | id in votes && votes[id].proposalId == pid && votes[id].choice == c
  }

  /** Reference definition of a count: how many stored votes on `pid` chose `c`. */
  function CountOf(votes: map<int, Vote>, pid: int, c: Choice): nat
  {
    |VotesOn(votes, pid, c)|
  }

  /** Reference definition of the tally of proposal `pid`. */
  function TallyOf(votes: map<int, Vote>, pid: int): Tally
  {
    Tally(CountOf(votes, pid, Yes), CountOf(votes, pid, No), CountOf(votes, pid, Abstain))
  }

  /** One row of the aggregate query: a choice and how many votes have it. */
  datatype GroupRow = GroupRow(choice: Choice, count: nat)

  function ChoicesOf(rows: seq<GroupRow>): set<Choice>
  {
    set i | 0 <= i < |rows| :: rows[i].choice
  }

  lemma ChoicesOfExtend(rows: seq<GroupRow>, i: int)
    requires 0 <= i < |rows|
    ensures ChoicesOf(rows[..i + 1]) == ChoicesOf(rows[..i]) + {rows[i].choice}
  {
    assert forall j :: 0 <= j < i ==> rows[..i + 1][j] == rows[..i][j];
  }

  /** `rows` is what grouping the votes on `pid` by choice may return, in
      any order: one row per choice that has at least one vote, carrying
      that choice's count, and no row for a choice nobody picked. */
  ghost predicate IsGrouping(rows: seq<GroupRow>, votes: map<int, Vote>, pid: int)
  {
    && (forall i :: 0 <= i < |rows| ==> rows[i].count == CountOf(votes, pid, rows[i].choice) > 0)
    && (forall i, j :: 0 <= i < j < |rows| ==> rows[i].choice != rows[j].choice)
    && (forall c :: CountOf(votes, pid, c) > 0 ==> c in ChoicesOf(rows))
  }

  function GroupOne(votes: map<int, Vote>, pid: int, c: Choice): seq<GroupRow>
  {
    var n := CountOf(votes, pid, c);
    if n > 0 then [GroupRow(c, n)] else []
  }

  /** The grouped rows in one particular order (yes, no, abstain). */
  function GroupByChoice(votes: map<int, Vote>, pid: int): (rows: seq<GroupRow>)
    ensures IsGrouping(rows, votes, pid)
  {
    var rows := GroupOne(votes, pid, Yes) + GroupOne(votes, pid, No) + GroupOne(votes, pid, Abstain);
    forall c | CountOf(votes, pid, c) > 0
      ensures c in ChoicesOf(rows)
    {
      var k := match c case Yes => 0 case No => |GroupOne(votes, pid, Yes)|
                       case Abstain => |GroupOne(votes, pid, Yes) + GroupOne(votes, pid, No)|;
      assert rows[k].choice == c;
    }
    rows
  }

  /** The tally loop: start every choice at 0 and overwrite it with the
      count of the group row for that choice, if there is one. Whatever
      order the rows come in, the result is the reference tally. */
  method TallyVotes(votes: map<int, Vote>, pid: int, rows: seq<GroupRow>) returns (t: Tally)
    requires IsGrouping(rows, votes, pid)
    ensures t == TallyOf(votes, pid)
  {
    var counts: map<Choice, nat> := map[Yes := 0, No := 0, Abstain := 0];
    for i := 0 to |rows|
      invariant Yes in counts && No in counts && Abstain in counts
      invariant forall c :: c in counts ==> counts[c] == if c in ChoicesOf(rows[..i]) then CountOf(votes, pid, c) else 0
    {
      ChoicesOfExtend(rows, i);
      counts := counts[rows[i].choice := rows[i].count];
    }
    assert rows[..|rows|] == rows;
    t := Tally(counts[Yes], counts[No], counts[Abstain]);
  }

  /** Every vote on `pid` is counted under exactly one choice, so the three
      counts add up to the number of votes stored for it. */
  lemma {:induction false} TallyCoversVotes(votes: map<int, Vote>, pid: int)
    ensures var t := TallyOf(votes, pid); t.yes + t.no + t.abstain == |VotesFor(votes, pid)|
  {
    var y, n, a := VotesOn(votes, pid, Yes), VotesOn(votes, pid, No), VotesOn(votes, pid, Abstain);
    assert y * n == {} && (y + n) * a == {};
    forall id | id in VotesFor(votes, pid) ensures id in y + n + a {
      match votes[id].choice
      case Yes => assert id in y;
      case No => assert id in n;
      case Abstain => assert id in a;
    }
    assert VotesFor(votes, pid) == y + n + a;
  }

  /** A proposal no stored vote refers to tallies (0, 0, 0). */
  lemma TallyOfUnreferenced(votes: map<int, Vote>, pid: int)
    requires forall id :: id in votes ==> votes[id].proposalId != pid
    ensures TallyOf(votes, pid) == Tally(0, 0, 0)
  {
    forall c: Choice ensures VotesOn(votes, pid, c) == {} {
      assert forall id :: id !in VotesOn(votes, pid, c);
    }
  }

  /** Storing a new vote raises exactly the count of its own proposal and
      choice by one and leaves every other count as it was. */
  lemma TallyAfterCast(votes: map<int, Vote>, id: int, v: Vote, pid: int, c: Choice)
    requires id !in votes
    ensures CountOf(votes[id := v], pid, c)
         == CountOf(votes, pid, c) + if v.proposalId == pid && v.choice == c then 1 else 0
  {
    var added := if v.proposalId == pid && v.choice == c then {id} else {};
    VotesOnAfterCast(votes, id, v, pid, c);
    assert VotesOn(votes, pid, c) * added == {};
  }

  /** The votes on `pid` with choice `c` after a new vote is stored. */
  lemma VotesOnAfterCast(votes: map<int, Vote>, id: int, v: Vote, pid: int, c: Choice)
    requires id !in votes
    ensures VotesOn(votes[id := v], pid, c)
         == VotesOn(votes, pid, c) + if v.proposalId == pid && v.choice == c then {id} else {}
  {
    var after := VotesOn(votes[id := v], pid, c);
    forall k | k in after && k != id ensures k in VotesOn(votes, pid, c) {
      assert k in votes;
    }
  }

  /** Deleting a stored vote lowers exactly the count of its own proposal
      and choice by one and leaves every other count as it was. */
  lemma TallyAfterRevoke(votes: map<int, Vote>, id: int, pid: int, c: Choice)
    requires id in votes
    ensures CountOf(votes - {id}, pid, c)
         == CountOf(votes, pid, c) - if votes[id].proposalId == pid && votes[id].choice == c then 1 else 0
  {
    VotesOnAfterRevoke(votes, id, pid, c);
  }

  /** The votes on `pid` with choice `c` after a stored vote is deleted. */
  lemma VotesOnAfterRevoke(votes: map<int, Vote>, id: int, pid: int, c: Choice)
    requires id in votes
    ensures VotesOn(votes - {id}, pid, c)
         == VotesOn(votes, pid, c) - {id}
    ensures id in VotesOn(votes, pid, c) <==> votes[id].proposalId == pid && votes[id].choice == c
  {
  }
}
