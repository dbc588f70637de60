/**
 * What the read endpoints return, proved from the store's constraints: a
 * quote's rows, the quotes the listing selects, the quotes the
 * reconstruction builds from them, and the open reports.
 */
module Queries {
  import opened Types
  import opened Tables
  import opened Visibility
  import opened Reconstruction
  import opened Reports
  import opened Store

  /** The directory resolves the submitter and every speaker of quote `id`. */
  ghost predicate Resolvable(s: QuoteStore, id: int, names: map<Uid, string>)
    reads s
    requires id in s.quotes
  {
    && s.quotes[id].submitter in names
    && forall j :: (id, j) in s.shards ==> s.shards[(id, j)].speaker in names
  }

  /**
   * `q` is quote `id` as the store holds it, seen by `viewer`: its fields,
   * the viewer's vote and favorite, the score, the hide (shown when its actor
   * resolves), and every shard in index order.
   */
  ghost predicate Presents(s: QuoteStore, q: QuoteResponse, id: int, viewer: Uid, names: map<Uid, string>)
    reads s
    requires id in s.quotes && Resolvable(s, id, names)
  {
    && q.id == id
    && q.timestamp == s.quotes[id].timestamp
    && q.submitter == UserResponse(s.quotes[id].submitter, names[s.quotes[id].submitter])
    && q.score == Score(s.votes, id)
    && q.vote == VoteOf(s.votes, id, viewer)
    && q.favorited == ((id, viewer) in s.favorites)
    && (q.hidden.Some? <==> id in s.hidden && s.hidden[id].actor in names)
    && (q.hidden.Some? ==> q.hidden.value.actor.uid == s.hidden[id].actor && q.hidden.value.reason == s.hidden[id].reason)
    && (forall j :: (id, j) in s.shards <==> 1 <= j <= |q.shards|)
    && (forall j :: 1 <= j <= |q.shards| ==>
          q.shards[j - 1] == ShardResponse(s.shards[(id, j)].body,
                                           UserResponse(s.shards[(id, j)].speaker, names[s.shards[(id, j)].speaker])))
  }

  /** The rows of a quote from shard `from` on are its shards `from`, `from + 1`, ... up to the first gap. */
  lemma {:induction false} ShardRowsShape(s: QuoteStore, id: int, from: nat, viewer: Uid)
    requires s.Valid() && id in s.quotes && 1 <= from <= MAX_SHARDS + 1
    decreases MAX_SHARDS + 1 - from
    ensures from + |s.ShardRows(id, from, viewer)| <= MAX_SHARDS + 1
    ensures (id, from + |s.ShardRows(id, from, viewer)|) !in s.shards
    ensures forall j :: from <= j < from + |s.ShardRows(id, from, viewer)| ==>
              (id, j) in s.shards && s.ShardRows(id, from, viewer)[j - from] == s.RowOf(id, j, viewer)
  {
    if from <= MAX_SHARDS && (id, from) in s.shards {
      ShardRowsShape(s, id, from + 1, viewer);
      var rest := s.ShardRows(id, from + 1, viewer);
      var rows := s.ShardRows(id, from, viewer);
      assert rows == [s.RowOf(id, from, viewer)] + rest;
      forall j | from < j < from + |rows|
        ensures (id, j) in s.shards && rows[j - from] == s.RowOf(id, j, viewer)
      {
        assert rows[j - from] == rest[j - (from + 1)];
      }
    }
  }

  /**
   * A quote's rows are exactly its shards, one per index from 1 up, each
   * carrying the quote-level columns.
   */
  lemma QuoteRowsShape(s: QuoteStore, id: int, viewer: Uid)
    requires s.Valid() && id in s.quotes
    ensures 1 <= |s.QuoteRows(id, viewer)| <= MAX_SHARDS
    ensures forall j :: (id, j) in s.shards <==> 1 <= j <= |s.QuoteRows(id, viewer)|
    ensures forall m :: 0 <= m < |s.QuoteRows(id, viewer)| ==>
              (id, m + 1) in s.shards && s.QuoteRows(id, viewer)[m] == s.RowOf(id, m + 1, viewer)
  {
    ShardRowsShape(s, id, 1, viewer);
    var n := |s.QuoteRows(id, viewer)|;
    forall j | j > n
      ensures (id, j) !in s.shards
    {
      ShardGap(s.quotes, s.shards, id, n + 1, j);
    }
    forall m | 0 <= m < n
      ensures (id, m + 1) in s.shards && s.QuoteRows(id, viewer)[m] == s.RowOf(id, m + 1, viewer)
    {
      var j := m + 1;
      assert 1 <= j < 1 + n;
    }
  }

  /** A quote's rows form one group, and the quote built from them is the quote as stored. */
  lemma QuoteRowsGroup(s: QuoteStore, id: int, viewer: Uid, names: map<Uid, string>)
    requires s.Valid() && id in s.quotes && Resolvable(s, id, names)
    ensures IsGroup(s.QuoteRows(id, viewer), names)
    ensures forall q :: Represents(q, s.QuoteRows(id, viewer), names) ==> Presents(s, q, id, viewer, names)
  {
    QuoteRowsShape(s, id, viewer);
    var rows := s.QuoteRows(id, viewer);
    forall q | Represents(q, rows, names)
      ensures Presents(s, q, id, viewer, names)
    {
      forall j | 1 <= j <= |q.shards|
        ensures q.shards[j - 1] == ShardResponse(s.shards[(id, j)].body,
                                                UserResponse(s.shards[(id, j)].speaker, names[s.shards[(id, j)].speaker]))
      {
        assert rows[j - 1] == s.RowOf(id, j, viewer);
      }
      assert rows[0] == s.RowOf(id, 1, viewer);
    }
  }

  /** Every quote that exists and that the caller may see has rows; any other id has none. */
  lemma SingleGetRowsEmpty(s: QuoteStore, id: int, viewer: Uid, privileged: bool)
    requires s.Valid()
    ensures s.SingleGetRows(id, viewer, privileged) == [] <==>
            !(id in s.quotes && SingleGetVisible(privileged, id in s.hidden, s.Involved(id, viewer)))
  {
    if id in s.quotes {
      QuoteRowsShape(s, id, viewer);
    }
  }

  /**
   * The single-quote endpoint returns the stored quote when it is visible
   * and the directory resolves everybody in it.
   */
  lemma GetQuoteFound(s: QuoteStore, id: int, viewer: Uid, privileged: bool, names: map<Uid, string>)
    requires s.Valid() && id in s.quotes && Resolvable(s, id, names)
    requires SingleGetVisible(privileged, id in s.hidden, s.Involved(id, viewer))
    ensures FirstQuote(Reconstruct(s.SingleGetRows(id, viewer, privileged), names)).Found?
    ensures Presents(s, FirstQuote(Reconstruct(s.SingleGetRows(id, viewer, privileged), names)).value, id, viewer, names)
  {
    var rows := s.QuoteRows(id, viewer);
    QuoteRowsGroup(s, id, viewer, names);
    assert Concat([rows]) == rows by {
      assert Concat([rows][..0]) == [];
    }
    ReconstructGroups([rows], names);
  }

  /**
   * When the directory cannot name the submitter or the speaker of the first
   * shard of a visible quote, the single-quote endpoint panics: the pass
   * skips the opening row and finds no quote, or a continuation row with no
   * quote to extend.
   */
  lemma GetQuotePanics(s: QuoteStore, id: int, viewer: Uid, privileged: bool, names: map<Uid, string>)
    requires s.Valid() && id in s.quotes
    requires SingleGetVisible(privileged, id in s.hidden, s.Involved(id, viewer))
    requires s.quotes[id].submitter !in names || s.shards[(id, 1)].speaker !in names
    ensures FirstQuote(Reconstruct(s.SingleGetRows(id, viewer, privileged), names)) == Panic
  {
    QuoteRowsShape(s, id, viewer);
    var rows := s.QuoteRows(id, viewer);
    assert s.SingleGetRows(id, viewer, privileged) == rows;
    var rest := rows[1..];
    var first := rows[0];
    assert first == s.RowOf(id, 1, viewer);
    assert !Kept(first, names);
    assert rows == [] + [first] + rest;
    SkippedRowIgnored([], first, rest, names);
    assert [] + rest == rest;
    forall i | 0 <= i < |rest|
      ensures rest[i].index != 1
    {
      assert rest[i] == rows[i + 1] == s.RowOf(id, i + 2, viewer);
    }
    NoOpeningRow(rest, names);
    assert Reconstruct(rows, names) == Reconstruct(rest, names);
  }

  /** The candidate ids of the listing are newest first. */
  lemma {:induction false} IdsBelowDescending(s: QuoteStore, n: int)
    decreases n
    ensures forall i, j :: 0 <= i < j < |s.IdsBelow(n)| ==> s.IdsBelow(n)[i] > s.IdsBelow(n)[j]
  {
    if n > 1 {
      IdsBelowDescending(s, n - 1);
      if n - 1 in s.quotes {
        ConsDescending(n - 1, s.IdsBelow(n - 1));
      }
    }
  }

  /** Every quote with an id in 1..n-1 is a candidate of the listing. */
  lemma {:induction false} IdsBelowComplete(s: QuoteStore, n: int, id: int)
    requires id in s.quotes && 1 <= id < n
    decreases n
    ensures id in s.IdsBelow(n)
  {
    if id < n - 1 {
      IdsBelowComplete(s, n - 1, id);
      assert s.IdsBelow(n) == s.IdsBelow(n - 1) || s.IdsBelow(n) == [n - 1] + s.IdsBelow(n - 1);
    } else {
      assert s.IdsBelow(n) == [n - 1] + s.IdsBelow(n - 1);
    }
  }

  /** The ids below `nextQuoteId` hold every quote, and so the matching ones hold every matching quote. */
  lemma MatchingComplete(s: QuoteStore, viewer: Uid, privileged: bool, p: FetchParams, id: int)
    requires s.Valid() && id in s.quotes && s.ListingMatches(id, viewer, privileged, p)
    ensures id in s.Matching(s.IdsBelow(s.nextQuoteId), viewer, privileged, p)
  {
    var ids := s.IdsBelow(s.nextQuoteId);
    IdsBelowComplete(s, s.nextQuoteId, id);
    var i :| 0 <= i < |ids| && ids[i] == id;
  }

  /** Selecting the matching ids keeps a descending list descending. */
  lemma {:induction false} MatchingDescending(s: QuoteStore, ids: seq<int>, viewer: Uid, privileged: bool, p: FetchParams)
    requires forall i :: 0 <= i < |ids| ==> ids[i] in s.quotes
    requires forall i, j :: 0 <= i < j < |ids| ==> ids[i] > ids[j]
    ensures forall i, j :: 0 <= i < j < |s.Matching(ids, viewer, privileged, p)| ==>
              s.Matching(ids, viewer, privileged, p)[i] > s.Matching(ids, viewer, privileged, p)[j]
  {
    if ids != [] {
      var tail := ids[1..];
      MatchingDescending(s, tail, viewer, privileged, p);
      MatchingBelow(s, tail, viewer, privileged, p, ids[0]);
      var rest := s.Matching(tail, viewer, privileged, p);
      if s.ListingMatches(ids[0], viewer, privileged, p) {
        assert s.Matching(ids, viewer, privileged, p) == [ids[0]] + rest;
        ConsDescending(ids[0], rest);
      } else {
        assert s.Matching(ids, viewer, privileged, p) == rest;
      }
    }
  }

  /** The listing selects from its candidates only, so a bound on the candidates bounds what it selects. */
  lemma MatchingBelow(s: QuoteStore, ids: seq<int>, viewer: Uid, privileged: bool, p: FetchParams, bound: int)
    requires forall i :: 0 <= i < |ids| ==> ids[i] in s.quotes && ids[i] < bound
    ensures forall j :: 0 <= j < |s.Matching(ids, viewer, privileged, p)| ==> s.Matching(ids, viewer, privileged, p)[j] < bound
  {
    var m := s.Matching(ids, viewer, privileged, p);
    forall j | 0 <= j < |m|
      ensures m[j] < bound
    {
      assert m[j] in ids;
    }
  }

  /** The listing returns matching quotes only, newest first, at most `limit` of them. */
  lemma ListedMatching(s: QuoteStore, viewer: Uid, privileged: bool, p: FetchParams)
    requires s.Valid() && EffectiveLimit(p.limit) >= 0
    ensures forall i :: 0 <= i < |s.Listed(viewer, privileged, p)| ==>
              s.Listed(viewer, privileged, p)[i] in s.quotes
              && s.ListingMatches(s.Listed(viewer, privileged, p)[i], viewer, privileged, p)
    ensures forall i, j :: 0 <= i < j < |s.Listed(viewer, privileged, p)| ==>
              s.Listed(viewer, privileged, p)[i] > s.Listed(viewer, privileged, p)[j]
    ensures |s.Listed(viewer, privileged, p)| <= EffectiveLimit(p.limit)
    ensures p.limit.None? ==> |s.Listed(viewer, privileged, p)| <= 10
  {
    var m := s.Matching(s.IdsBelow(s.nextQuoteId), viewer, privileged, p);
    IdsBelowDescending(s, s.nextQuoteId);
    MatchingDescending(s, s.IdsBelow(s.nextQuoteId), viewer, privileged, p);
    var listed := s.Listed(viewer, privileged, p);
    assert forall i :: 0 <= i < |listed| ==> listed[i] == m[i];
  }

  /**
   * A matching quote is left out of the listing only when the limit is
   * reached and every listed quote is newer: the listing returns the newest
   * matches.
   */
  lemma ListedNewest(s: QuoteStore, viewer: Uid, privileged: bool, p: FetchParams, id: int)
    requires s.Valid() && EffectiveLimit(p.limit) >= 0
    requires id in s.quotes && s.ListingMatches(id, viewer, privileged, p)
    ensures || id in s.Listed(viewer, privileged, p)
            || (&& |s.Listed(viewer, privileged, p)| == EffectiveLimit(p.limit)
                && forall i :: 0 <= i < |s.Listed(viewer, privileged, p)| ==> s.Listed(viewer, privileged, p)[i] > id)
  {
    MatchingComplete(s, viewer, privileged, p, id);
    if id !in s.Listed(viewer, privileged, p) {
      IdsBelowDescending(s, s.nextQuoteId);
      MatchingDescending(s, s.IdsBelow(s.nextQuoteId), viewer, privileged, p);
      TakeOmits(s.Matching(s.IdsBelow(s.nextQuoteId), viewer, privileged, p), EffectiveLimit(p.limit), id);
    }
  }

  /** An element of a descending sequence that `Take` leaves out is smaller than all it keeps, and the cut was made. */
  lemma TakeOmits(m: seq<int>, n: nat, x: int)
    requires forall i, j :: 0 <= i < j < |m| ==> m[i] > m[j]
    requires x in m && x !in Take(m, n)
    ensures |Take(m, n)| == n
    ensures forall i :: 0 <= i < |Take(m, n)| ==> Take(m, n)[i] > x
  {
    var t :| 0 <= t < |m| && m[t] == x;
    var kept := Take(m, n);
    forall i | 0 <= i < |kept|
      ensures kept[i] == m[i] && m[i] != x
    {
      assert kept[i] in kept;
    }
    assert |kept| <= t;
  }

  /** With a limit of -1 the listing returns every matching quote. */
  lemma UnlimitedListing(s: QuoteStore, viewer: Uid, privileged: bool, p: FetchParams)
    requires s.Valid() && p.limit == Some(-1)
    ensures forall id :: id in s.quotes && s.ListingMatches(id, viewer, privileged, p) ==>
              id in s.Listed(viewer, privileged, p)
  {
    var m := s.Matching(s.IdsBelow(s.nextQuoteId), viewer, privileged, p);
    assert |m| <= I32_MAX < I64_MAX;
    assert s.Listed(viewer, privileged, p) == m;
    forall id | id in s.quotes && s.ListingMatches(id, viewer, privileged, p)
      ensures id in s.Listed(viewer, privileged, p)
    {
      MatchingComplete(s, viewer, privileged, p, id);
    }
  }

  /** The rows of a list of quotes rebuild to those quotes, in order, as the store holds them. */
  lemma ListRowsPresent(s: QuoteStore, ids: seq<int>, viewer: Uid, names: map<Uid, string>)
    requires s.Valid()
    requires forall k :: 0 <= k < |ids| ==> ids[k] in s.quotes && Resolvable(s, ids[k], names)
    ensures Reconstruct(s.ListingRows(ids, viewer), names).Quotes?
    ensures |Reconstruct(s.ListingRows(ids, viewer), names).quotes| == |ids|
    ensures forall k :: 0 <= k < |ids| ==>
              Presents(s, Reconstruct(s.ListingRows(ids, viewer), names).quotes[k], ids[k], viewer, names)
  {
    var groups := seq(|ids|, k requires 0 <= k < |ids| && ids[k] in s.quotes reads s => s.QuoteRows(ids[k], viewer));
    assert s.ListingRows(ids, viewer) == Concat(groups);
    forall k | 0 <= k < |ids|
      ensures IsGroup(groups[k], names)
      ensures forall q :: Represents(q, groups[k], names) ==> Presents(s, q, ids[k], viewer, names)
    {
      QuoteRowsGroup(s, ids[k], viewer, names);
    }
    ReconstructGroups(groups, names);
  }

  /**
   * The listing endpoint returns, in order, each listed quote as the store
   * holds it, when the directory resolves everybody in them.
   */
  lemma ListingPresents(s: QuoteStore, viewer: Uid, privileged: bool, p: FetchParams, names: map<Uid, string>)
    requires s.Valid() && EffectiveLimit(p.limit) >= 0
    requires forall id :: id in s.Listed(viewer, privileged, p) ==> id in s.quotes && Resolvable(s, id, names)
    ensures AllQuotes(Reconstruct(s.ListingRows(s.Listed(viewer, privileged, p), viewer), names)).Found?
    ensures |AllQuotes(Reconstruct(s.ListingRows(s.Listed(viewer, privileged, p), viewer), names)).value|
            == |s.Listed(viewer, privileged, p)|
    ensures forall k :: 0 <= k < |s.Listed(viewer, privileged, p)| ==>
              Presents(s, AllQuotes(Reconstruct(s.ListingRows(s.Listed(viewer, privileged, p), viewer), names)).value[k],
                       s.Listed(viewer, privileged, p)[k], viewer, names)
  {
    var ids := s.Listed(viewer, privileged, p);
    assert forall k :: 0 <= k < |ids| ==> ids[k] in ids;
    ListRowsPresent(s, ids, viewer, names);
  }

  /**
   * A quote as `create_quote` leaves it reads back with the submitted shards
   * in the submitted order, from its submitter, with score 0, no vote, no
   * favourite and no hide.
   */
  lemma CreatedQuoteReadsBack(s: QuoteStore, id: int, submitter: Uid, newShards: seq<NewShard>, now: int,
                              q: QuoteResponse, viewer: Uid, names: map<Uid, string>)
    requires s.Valid() && s.JustCreated(id, submitter, newShards, now) && Resolvable(s, id, names)
    requires Presents(s, q, id, viewer, names)
    ensures q.id == id && q.timestamp == now && q.submitter.uid == submitter
    ensures |q.shards| == |newShards|
    ensures forall m :: 0 <= m < |newShards| ==>
              q.shards[m].body == newShards[m].body && q.shards[m].speaker.uid == newShards[m].speaker
    ensures q.score == 0 && q.vote == None && !q.favorited && q.hidden == None
  {
    assert (id, |newShards|) in s.shards <==> 1 <= |newShards|;
    assert (id, |q.shards|) in s.shards <==> 1 <= |q.shards|;
    forall m | 0 <= m < |newShards|
      ensures q.shards[m].body == newShards[m].body && q.shards[m].speaker.uid == newShards[m].speaker
    {
      var j := m + 1;
      assert s.shards[(id, j)] == ShardRecord(newShards[j - 1].body, newShards[j - 1].speaker);
      assert q.shards[j - 1] == ShardResponse(s.shards[(id, j)].body,
                                              UserResponse(s.shards[(id, j)].speaker, names[s.shards[(id, j)].speaker]));
    }
    ScoreWithoutVotes(s.votes, id);
    assert (id, viewer) !in s.votes && (id, viewer) !in s.favorites;
  }

  /** Without privilege, the submitter of a quote can never hide it: nobody is quoted in their own quote. */
  lemma SubmitterCannotHide(s: QuoteStore, id: int)
    requires s.Valid() && id in s.quotes
    ensures !s.HideEligible(id, s.quotes[id].submitter, false)
  {
  }

  /** Resolving finds an open report exactly when the quote has one. */
  lemma FirstOpenExists(s: QuoteStore, id: int)
    requires s.Valid()
    ensures s.FirstOpenFrom(id, 1).Some? <==> s.OpenReports(id) != {}
  {
    var first := s.FirstOpenFrom(id, 1);
    if first.Some? {
      assert first.value in s.OpenReports(id);
    } else {
      forall r | r in s.reports
        ensures r !in s.OpenReports(id)
      {
      }
    }
  }

  /** Row `i` of the rows for quote `q` from report `from` on is an open report about `q`, with its reason. */
  lemma {:induction false} OpenReportRowsOfSound(s: QuoteStore, q: int, from: int, i: nat)
    requires s.Valid() && q in s.quotes && i < |s.OpenReportRowsOf(q, from)|
    decreases s.nextReportId - from
    ensures s.OpenReportRowsOf(q, from)[i].quoteId == q
    ensures OpenOn(s.reports, s.OpenReportRowsOf(q, from)[i].reportId, q)
    ensures s.OpenReportRowsOf(q, from)[i].reportReason == s.reports[s.OpenReportRowsOf(q, from)[i].reportId].reason
  {
    var rest := s.OpenReportRowsOf(q, from + 1);
    var rows := s.OpenReportRowsOf(q, from);
    var head := if OpenOn(s.reports, from, q) then 1 else 0;
    assert |rows| == head + |rest|;
    if i >= head {
      assert rows[i] == rest[i - head];
      OpenReportRowsOfSound(s, q, from + 1, i - head);
    }
  }

  /** An open report about `q` numbered `from` or more has a row among the rows for `q`. */
  lemma {:induction false} OpenReportRowOf(s: QuoteStore, q: int, from: int, r: int)
    requires s.Valid() && q in s.quotes && from <= r && OpenOn(s.reports, r, q)
    decreases s.nextReportId - from
    ensures exists i :: 0 <= i < |s.OpenReportRowsOf(q, from)| && s.OpenReportRowsOf(q, from)[i].reportId == r
  {
    assert r < s.nextReportId;
    var rest := s.OpenReportRowsOf(q, from + 1);
    var rows := s.OpenReportRowsOf(q, from);
    var first := if OpenOn(s.reports, from, q)
      then [ReportedQuoteShard(q, s.quotes[q].submitter, s.quotes[q].timestamp, q in s.hidden,
                               s.reports[from].timestamp, from, s.reports[from].reason, s.reports[from].resolver)]
      else [];
    assert rows == first + rest;
    if r == from {
      assert rows[0] == first[0];
    } else {
      OpenReportRowOf(s, q, from + 1, r);
      var i :| 0 <= i < |rest| && rest[i].reportId == r;
      assert rows[|first| + i] == rest[i];
    }
  }

  /** Row `i` of the open-reports query from quote `from` on is an open report, with its reason. */
  lemma {:induction false} OpenReportRowsSound(s: QuoteStore, from: int, i: nat)
    requires s.Valid() && i < |s.OpenReportRows(from)|
    decreases s.nextQuoteId - from
    ensures OpenOn(s.reports, s.OpenReportRows(from)[i].reportId, s.OpenReportRows(from)[i].quoteId)
    ensures s.OpenReportRows(from)[i].reportReason == s.reports[s.OpenReportRows(from)[i].reportId].reason
  {
    var rest := s.OpenReportRows(from + 1);
    var rows := s.OpenReportRows(from);
    if from !in s.quotes {
      assert rows == rest;
      OpenReportRowsSound(s, from + 1, i);
    } else {
      var head := s.OpenReportRowsOf(from, 1);
      assert rows == head + rest;
      if i < |head| {
        assert rows[i] == head[i];
        OpenReportRowsOfSound(s, from, 1, i);
      } else {
        assert rows[i] == rest[i - |head|];
        OpenReportRowsSound(s, from + 1, i - |head|);
      }
    }
  }

  /** An open report about a quote numbered `from` or more has a row in the open-reports query. */
  lemma {:induction false} OpenReportRow(s: QuoteStore, from: int, r: int)
    requires s.Valid() && r in s.reports && s.reports[r].resolver.None? && from <= s.reports[r].quoteId
    decreases s.nextQuoteId - from
    ensures exists i :: 0 <= i < |s.OpenReportRows(from)| && s.OpenReportRows(from)[i].reportId == r
  {
    var q := s.reports[r].quoteId;
    assert q in s.quotes && q < s.nextQuoteId;
    var rest := s.OpenReportRows(from + 1);
    var rows := s.OpenReportRows(from);
    if q == from {
      var head := s.OpenReportRowsOf(from, 1);
      assert rows == head + rest;
      OpenReportRowOf(s, from, 1, r);
      var i :| 0 <= i < |head| && head[i].reportId == r;
      assert rows[i] == head[i];
    } else {
      OpenReportRow(s, from + 1, r);
      var i :| 0 <= i < |rest| && rest[i].reportId == r;
      if from in s.quotes {
        var head := s.OpenReportRowsOf(from, 1);
        assert rows == head + rest;
        assert rows[|head| + i] == rest[i];
      } else {
        assert rows == rest;
      }
    }
  }

  /**
   * The reports endpoint lists every open report, under its quote, and
   * nothing else: each row of the query is an open report with its reason,
   * and every open report is a row of the query.
   */
  lemma OpenReportsListed(s: QuoteStore)
    requires s.Valid()
    ensures forall i :: 0 <= i < |s.OpenReportRows(1)| ==>
              && OpenOn(s.reports, s.OpenReportRows(1)[i].reportId, s.OpenReportRows(1)[i].quoteId)
              && s.OpenReportRows(1)[i].reportReason == s.reports[s.OpenReportRows(1)[i].reportId].reason
    ensures forall r :: r in s.reports && s.reports[r].resolver.None? ==>
              exists i :: 0 <= i < |s.OpenReportRows(1)| && s.OpenReportRows(1)[i].reportId == r
  {
    var rows := s.OpenReportRows(1);
    forall i | 0 <= i < |rows|
      ensures OpenOn(s.reports, rows[i].reportId, rows[i].quoteId)
      ensures rows[i].reportReason == s.reports[rows[i].reportId].reason
    {
      OpenReportRowsSound(s, 1, i);
    }
    forall r | r in s.reports && s.reports[r].resolver.None?
      ensures exists i :: 0 <= i < |rows| && rows[i].reportId == r
    {
      assert s.reports[r].quoteId in s.quotes;
      OpenReportRow(s, 1, r);
    }
    assert rows == s.OpenReportRows(1);
  }
}
