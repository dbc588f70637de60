/**
 * Grouping the open-report rows by quote (`format_reports`): a hash map from
 * quote id to the quote's reports, filled in one pass and then emptied into
 * a list in the map's own order.
 */
module Reports {
  import opened Types

  /** One row of the open-reports query. */
  datatype ReportedQuoteShard = ReportedQuoteShard(
    quoteId: int,
    quoteSubmitter: Uid,
    quoteTimestamp: int,
    quoteHidden: bool,
    reportTimestamp: int,
    reportId: int,
    reportReason: string,
    reportResolver: Option<Uid>)

  datatype ReportResponse = ReportResponse(reason: string, timestamp: int, id: int)
  datatype ReportedQuoteResponse = ReportedQuoteResponse(quoteId: int, reports: seq<ReportResponse>)

  function ReportOf(row: ReportedQuoteShard): ReportResponse {
    ReportResponse(row.reportReason, row.reportTimestamp, row.reportId)
  }

  /** The reports of the rows about quote `q`, in input order. */
  function ReportsFor(rows: seq<ReportedQuoteShard>, q: int): (reports: seq<ReportResponse>)
    ensures |reports| <= |rows|
  {
    if rows == [] then []
    else
      var last := rows[|rows| - 1];
      ReportsFor(rows[..|rows| - 1], q) + (if last.quoteId == q then [ReportOf(last)] else [])
  }

  /** The distinct quote ids of the rows. */
  function QuoteIds(rows: seq<ReportedQuoteShard>): (ids: set<int>)
    ensures forall i :: 0 <= i < |rows| ==> rows[i].quoteId in ids
  {
    if rows == [] then {}
    else
      var init := rows[..|rows| - 1];
      assert forall i :: 0 <= i < |init| ==> rows[i] == init[i];
      QuoteIds(init) + {rows[|rows| - 1].quoteId}
  }

  /** The hash map `format_reports` fills: quote id to that quote's reports, in input order. */
  method GroupReports(rows: seq<ReportedQuoteShard>) returns (grouped: map<int, ReportedQuoteResponse>)
    ensures grouped.Keys == QuoteIds(rows)
    ensures forall q :: q in grouped ==> grouped[q] == ReportedQuoteResponse(q, ReportsFor(rows, q))
  {
    grouped := map[];
    var i := 0;
    while i < |rows|
      invariant 0 <= i <= |rows|
      invariant grouped.Keys == QuoteIds(rows[..i])
      invariant forall q :: q in grouped ==> grouped[q] == ReportedQuoteResponse(q, ReportsFor(rows[..i], q))
    {
      var row := rows[i];
      GroupStep(rows, i, grouped);
      if row.quoteId in grouped {
        var entry := grouped[row.quoteId];
        grouped := grouped[row.quoteId := entry.(reports := entry.reports + [ReportOf(row)])];
      } else {
        QuoteIdsReported(rows[..i], row.quoteId);
        grouped := grouped[row.quoteId := ReportedQuoteResponse(row.quoteId, [ReportOf(row)])];
      }
      i := i + 1;
    }
    assert rows[..|rows|] == rows;
  }

  /** Appending the report of row `i` to its quote's entry turns the map of the first `i` rows into the map of the first `i + 1`. */
  lemma GroupStep(rows: seq<ReportedQuoteShard>, i: nat, grouped: map<int, ReportedQuoteResponse>)
    requires i < |rows|
    requires grouped.Keys == QuoteIds(rows[..i])
    requires forall q :: q in grouped ==> grouped[q] == ReportedQuoteResponse(q, ReportsFor(rows[..i], q))
    ensures var q := rows[i].quoteId;
            var after := grouped[q := ReportedQuoteResponse(q, ReportsFor(rows[..i], q) + [ReportOf(rows[i])])];
            && after.Keys == QuoteIds(rows[..i + 1])
            && forall p :: p in after ==> after[p] == ReportedQuoteResponse(p, ReportsFor(rows[..i + 1], p))
  {
    PrefixStep(rows, i);
  }

  /** What one more row adds to the ids and to the reports of each quote. */
  lemma PrefixStep(rows: seq<ReportedQuoteShard>, i: nat)
    requires i < |rows|
    ensures QuoteIds(rows[..i + 1]) == QuoteIds(rows[..i]) + {rows[i].quoteId}
    ensures forall q :: ReportsFor(rows[..i + 1], q)
              == ReportsFor(rows[..i], q) + (if rows[i].quoteId == q then [ReportOf(rows[i])] else [])
  {
    assert rows[..i + 1][..i] == rows[..i];
  }

  /**
   * `format_reports`: one entry per distinct quote id of the input, holding
   * every row about that quote as a report, in input order. The source lists
   * the entries in the hash map's order, so the contract fixes no order; the
   * body emits them in the order their quote ids first appear.
   */
  method FormatReports(rows: seq<ReportedQuoteShard>) returns (out: seq<ReportedQuoteResponse>)
    ensures forall k :: 0 <= k < |out| ==> out[k].quoteId in QuoteIds(rows)
    ensures forall k :: 0 <= k < |out| ==> out[k].reports == ReportsFor(rows, out[k].quoteId)
    ensures forall q :: q in QuoteIds(rows) ==> exists k :: 0 <= k < |out| && out[k].quoteId == q
    ensures forall k, l :: 0 <= k < l < |out| ==> out[k].quoteId != out[l].quoteId
  {
    var grouped := GroupReports(rows);
    out := IntoValues(rows, grouped);
  }

  /**
   * The grouped map emptied into a list (`into_values`): each entry of an
   * id of the rows exactly once, here in the order the ids first appear.
   */
  method IntoValues(rows: seq<ReportedQuoteShard>, grouped: map<int, ReportedQuoteResponse>)
    returns (out: seq<ReportedQuoteResponse>)
    requires QuoteIds(rows) <= grouped.Keys
    requires forall q :: q in grouped ==> grouped[q].quoteId == q
    ensures forall k :: 0 <= k < |out| ==> out[k].quoteId in QuoteIds(rows) && out[k] == grouped[out[k].quoteId]
    ensures forall q :: q in QuoteIds(rows) ==> exists k :: 0 <= k < |out| && out[k].quoteId == q
    ensures forall k, l :: 0 <= k < l < |out| ==> out[k].quoteId != out[l].quoteId
  {
    out := [];
    var emitted: set<int> := {};
    ghost var at: map<int, nat> := map[];
    var i := 0;
    while i < |rows|
      invariant 0 <= i <= |rows|
      invariant emitted <= QuoteIds(rows)
      invariant forall j :: 0 <= j < i ==> rows[j].quoteId in emitted
      invariant forall k :: 0 <= k < |out| ==> out[k].quoteId in emitted && out[k] == grouped[out[k].quoteId]
      invariant forall q :: q in emitted ==> q in at && at[q] < |out| && out[at[q]].quoteId == q
      invariant forall k, l :: 0 <= k < l < |out| ==> out[k].quoteId != out[l].quoteId
    {
      var q := rows[i].quoteId;
      assert q in QuoteIds(rows);
      if q !in emitted {
        ghost var before := out;
        at := at[q := |out|];
        out := out + [grouped[q]];
        emitted := emitted + {q};
        assert forall k :: 0 <= k < |before| ==> out[k] == before[k];
      }
      i := i + 1;
    }
    forall q | q in QuoteIds(rows)
      ensures exists k :: 0 <= k < |out| && out[k].quoteId == q
    {
      QuoteIdsExact(rows, q);
      assert out[at[q]].quoteId == q;
    }
  }

  /** A quote id occurs in the rows exactly when some report is about it. */
  lemma {:induction false} QuoteIdsReported(rows: seq<ReportedQuoteShard>, q: int)
    ensures q in QuoteIds(rows) <==> ReportsFor(rows, q) != []
  {
    if rows != [] {
      QuoteIdsReported(rows[..|rows| - 1], q);
    }
  }

  /** The reports about `q` in a prefix of the rows are a prefix of the reports about `q`. */
  lemma {:induction false} ReportsForPrefix(rows: seq<ReportedQuoteShard>, n: nat, q: int)
    requires n <= |rows|
    ensures ReportsFor(rows[..n], q) <= ReportsFor(rows, q)
  {
    if n < |rows| {
      var init := rows[..|rows| - 1];
      assert rows[..n] == init[..n];
      ReportsForPrefix(init, n, q);
    } else {
      assert rows[..n] == rows;
    }
  }

  /**
   * Each row appears as a report in its quote's entry, at the position given
   * by the number of earlier rows about the same quote: so every row appears
   * exactly once and the reports of an entry keep input order.
   */
  lemma RowPlacement(rows: seq<ReportedQuoteShard>, i: nat)
    requires i < |rows|
    ensures |ReportsFor(rows[..i], rows[i].quoteId)| < |ReportsFor(rows, rows[i].quoteId)|
    ensures ReportsFor(rows, rows[i].quoteId)[|ReportsFor(rows[..i], rows[i].quoteId)|] == ReportOf(rows[i])
  {
    var q := rows[i].quoteId;
    assert rows[..i + 1][..i] == rows[..i];
    assert ReportsFor(rows[..i + 1], q) == ReportsFor(rows[..i], q) + [ReportOf(rows[i])];
    ReportsForPrefix(rows, i + 1, q);
  }

  /** Every report about `q` comes from a row about `q`: the entries hold nothing else. */
  lemma {:induction false} ReportsForSound(rows: seq<ReportedQuoteShard>, q: int, k: nat)
    requires k < |ReportsFor(rows, q)|
    ensures exists i :: 0 <= i < |rows| && rows[i].quoteId == q && ReportsFor(rows, q)[k] == ReportOf(rows[i])
  {
    var init := rows[..|rows| - 1];
    if k < |ReportsFor(init, q)| {
      ReportsForSound(init, q, k);
      var i :| 0 <= i < |init| && init[i].quoteId == q && ReportsFor(init, q)[k] == ReportOf(init[i]);
      assert rows[i] == init[i];
    } else {
      assert rows[|rows| - 1].quoteId == q && ReportsFor(rows, q)[k] == ReportOf(rows[|rows| - 1]);
    }
  }

  /** The grouped ids are exactly the quote ids of the rows. */
  lemma {:induction false} QuoteIdsExact(rows: seq<ReportedQuoteShard>, q: int)
    ensures q in QuoteIds(rows) <==> exists i :: 0 <= i < |rows| && rows[i].quoteId == q
  {
    if rows != [] {
      var init := rows[..|rows| - 1];
      QuoteIdsExact(init, q);
      if q in QuoteIds(init) {
        var i :| 0 <= i < |init| && init[i].quoteId == q;
        assert rows[i] == init[i];
      }
    }
  }
}
