/**
 * The rows of the database tables the endpoints read and write, and the vote
 * score every quote query computes from the `votes` table.
 */
module Tables {
  import opened Types

  /** A row of `quotes`, without its id (the key it is stored under). */
  datatype QuoteRecord = QuoteRecord(submitter: Uid, timestamp: int)

  /** A row of `shards`, keyed by (quote id, index). */
  datatype ShardRecord = ShardRecord(body: string, speaker: Uid)

  /** A row of `hidden`, keyed by quote id. */
  datatype HiddenRecord = HiddenRecord(reason: string, actor: Uid)

  /** The SHA3-256 digest that stands for a reporter. */
  type Digest = seq<bv8>

  /** A row of `reports`, keyed by report id. */
  datatype Report = Report(quoteId: int, reporter: Digest, reason: string, timestamp: int, resolver: Option<Uid>)

  /** The `votes` table: one vote per (quote id, voter). */
  type Votes = map<(int, Uid), VoteKind>

  /** The users who cast a vote of `kind` on quote `id`. */
  function Voters(votes: Votes, id: int, kind: VoteKind): set<Uid> {
    set k | k in votes && k.0 == id && votes[k] == kind :: k.1
  }

  /** The score column: upvotes count 1, downvotes -1, a quote without votes scores 0. */
  function Score(votes: Votes, id: int): int {
    |Voters(votes, id, Upvote)| - |Voters(votes, id, Downvote)|
  }

  /** What one voter's vote (or its absence) contributes to a score. */
  function Weight(v: Option<VoteKind>): int {
    match v
    case None => 0
    case Some(Upvote) => 1
    case Some(Downvote) => -1
  }

  /** The vote column for viewer `voter`: their vote on quote `id`, if any. */
  function VoteOf(votes: Votes, id: int, voter: Uid): Option<VoteKind>
  {
    if (id, voter) in votes then Some(votes[(id, voter)]) else None
  }

  lemma VotersMembership(votes: Votes, id: int, kind: VoteKind, u: Uid)
    ensures u in Voters(votes, id, kind) <==> (id, u) in votes && votes[(id, u)] == kind
  {
    if (id, u) in votes && votes[(id, u)] == kind {
      var k := (id, u);
      assert k in votes && k.0 == id && votes[k] == kind;
    }
  }

  /** Taking `v` out of `a` and optionally putting it back changes the size by the obvious amount. */
  lemma SwapCard(a: set<Uid>, v: Uid, add: bool)
    ensures |(a - {v}) + (if add then {v} else {})| == |a| - (if v in a then 1 else 0) + (if add then 1 else 0)
  {
    if v in a {
      assert a == (a - {v}) + {v};
    } else {
      assert a - {v} == a;
    }
  }

  /** A vote on quote `id` leaves the voter sets of every other quote alone. */
  lemma VotersElsewhere(votes: Votes, after: Votes, id: int, voter: Uid, other: int, k: VoteKind)
    requires other != id
    requires forall key :: key != (id, voter) ==> (key in after <==> key in votes)
    requires forall key :: key != (id, voter) && key in votes ==> after[key] == votes[key]
    ensures Voters(after, other, k) == Voters(votes, other, k)
  {
    forall u
      ensures u in Voters(after, other, k) <==> u in Voters(votes, other, k)
    {
      VotersMembership(votes, other, k, u);
      VotersMembership(after, other, k, u);
    }
  }

  /** A vote of `kind` by `voter` on quote `id` moves the voter into the voter set of `kind`. */
  lemma VotersSwapped(votes: Votes, id: int, voter: Uid, kind: VoteKind, k: VoteKind)
    ensures Voters(votes[(id, voter) := kind], id, k)
            == (Voters(votes, id, k) - {voter}) + (if kind == k then {voter} else {})
  {
    var after := votes[(id, voter) := kind];
    forall u
      ensures u in Voters(after, id, k) <==> u in (Voters(votes, id, k) - {voter}) + (if kind == k then {voter} else {})
    {
      VotersMembership(votes, id, k, u);
      VotersMembership(after, id, k, u);
    }
  }

  /** How a new or changed vote moves one voter between the voter sets. */
  lemma VotersAfterVote(votes: Votes, id: int, voter: Uid, kind: VoteKind, other: int, k: VoteKind)
    ensures |Voters(votes[(id, voter) := kind], other, k)|
            == |Voters(votes, other, k)|
               + (if other == id
                  then (if kind == k then 1 else 0) - (if VoteOf(votes, id, voter) == Some(k) then 1 else 0)
                  else 0)
  {
    if other == id {
      VotersSwapped(votes, id, voter, kind, k);
      VotersMembership(votes, id, k, voter);
      SwapCard(Voters(votes, id, k), voter, kind == k);
    } else {
      VotersElsewhere(votes, votes[(id, voter) := kind], id, voter, other, k);
    }
  }

  /**
   * Voting `kind` on quote `id` takes the voter's previous vote (if any) out
   * of that quote's score and adds the new one; every other score stays.
   */
  lemma ScoreAfterVote(votes: Votes, id: int, voter: Uid, kind: VoteKind, other: int)
    ensures Score(votes[(id, voter) := kind], other)
            == Score(votes, other)
               + (if other == id then Weight(Some(kind)) - Weight(VoteOf(votes, id, voter)) else 0)
  {
    VotersAfterVote(votes, id, voter, kind, other, Upvote);
    VotersAfterVote(votes, id, voter, kind, other, Downvote);
  }

  /** Removing the vote of `voter` on quote `id` takes the voter out of that quote's voter sets. */
  lemma VotersRemoved(votes: Votes, id: int, voter: Uid, k: VoteKind)
    ensures Voters(votes - {(id, voter)}, id, k) == (Voters(votes, id, k) - {voter}) + {}
  {
    var after := votes - {(id, voter)};
    forall u
      ensures u in Voters(after, id, k) <==> u in (Voters(votes, id, k) - {voter}) + {}
    {
      VotersMembership(votes, id, k, u);
      VotersMembership(after, id, k, u);
    }
  }

  /** How removing a vote takes one voter out of the voter sets. */
  lemma VotersAfterUnvote(votes: Votes, id: int, voter: Uid, other: int, k: VoteKind)
    ensures |Voters(votes - {(id, voter)}, other, k)|
            == |Voters(votes, other, k)| - (if other == id && VoteOf(votes, id, voter) == Some(k) then 1 else 0)
  {
    if other == id {
      VotersRemoved(votes, id, voter, k);
      VotersMembership(votes, id, k, voter);
      SwapCard(Voters(votes, id, k), voter, false);
    } else {
      VotersElsewhere(votes, votes - {(id, voter)}, id, voter, other, k);
    }
  }

  /** Removing a vote takes exactly that vote's weight out of its quote's score. */
  lemma ScoreAfterUnvote(votes: Votes, id: int, voter: Uid, other: int)
    ensures Score(votes - {(id, voter)}, other)
            == Score(votes, other) - (if other == id then Weight(VoteOf(votes, id, voter)) else 0)
  {
    VotersAfterUnvote(votes, id, voter, other, Upvote);
    VotersAfterUnvote(votes, id, voter, other, Downvote);
  }

  /** A quote nobody voted on scores 0. */
  lemma ScoreWithoutVotes(votes: Votes, id: int)
    requires forall k :: k in votes ==> k.0 != id
    ensures Score(votes, id) == 0
  {
    assert Voters(votes, id, Upvote) == {};
    assert Voters(votes, id, Downvote) == {};
  }

  /** The shards left once quote `id` is deleted (the cascade). */
  function DropShards(shards: map<(int, int), ShardRecord>, id: int): map<(int, int), ShardRecord> {
    map k | k in shards && k.0 != id :: shards[k]
  }

  /** The votes left once quote `id` is deleted (the cascade). */
  function DropVotes(votes: Votes, id: int): Votes {
    map k | k in votes && k.0 != id :: votes[k]
  }

  /** The favorites left once quote `id` is deleted (the cascade). */
  function DropFavorites(favorites: set<(int, Uid)>, id: int): set<(int, Uid)> {
    set f | f in favorites && f.0 != id
  }

  /** The reports left once quote `id` is deleted (the cascade). */
  function DropReports(reports: map<int, Report>, id: int): map<int, Report> {
    map r | r in reports && reports[r].quoteId != id :: reports[r]
  }

  /** Whether report `r` is an open report about quote `id`. */
  predicate OpenOn(reports: map<int, Report>, r: int, id: int) {
    r in reports && reports[r].quoteId == id && reports[r].resolver.None?
  }

  /** The reports table after resolving every open report about quote `id` as `user`. */
  function ResolveAll(reports: map<int, Report>, id: int, user: Uid): map<int, Report>
  {
    map k | k in reports :: if OpenOn(reports, k, id) then reports[k].(resolver := Some(user)) else reports[k]
  }

  /**
   * Resolving quote `id` leaves it no open report and changes no other
   * quote's open reports, so a second resolve finds nothing to resolve.
   */
  lemma ResolveAllCloses(reports: map<int, Report>, id: int, user: Uid, r: int, q: int)
    ensures !OpenOn(ResolveAll(reports, id, user), r, id)
    ensures q != id ==> (OpenOn(ResolveAll(reports, id, user), r, q) <==> OpenOn(reports, r, q))
    ensures r in reports && OpenOn(reports, r, id) ==> ResolveAll(reports, id, user)[r].resolver == Some(user)
  {
  }
}
