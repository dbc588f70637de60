/**
 * Rebuilding quote objects from the flat rows of the quote query
 * (`shards_to_quotes`): one forward pass that opens a quote on every shard
 * of index 1 and appends every other shard to the quote opened last, after
 * resolving every uid the rows mention to a display name.
 */
module Reconstruction {
  import opened Types

  /** One row of the joined quote/shard query: the quote-level columns repeated on each shard. */
  datatype QuoteShard = QuoteShard(
    id: int,
    index: int,
    submitter: Uid,
    timestamp: int,
    body: string,
    speaker: Uid,
    hiddenReason: Option<string>,
    hiddenActor: Option<Uid>,
    vote: Option<VoteKind>,
    score: int,
    favorited: bool)

  /** One entry of the directory's answer to a name lookup. */
  datatype DirectoryUser = DirectoryUser(uid: Uid, cn: string)

  datatype UserResponse = UserResponse(uid: Uid, cn: string)
  datatype ShardResponse = ShardResponse(body: string, speaker: UserResponse)
  datatype HiddenResponse = HiddenResponse(actor: UserResponse, reason: string)
  datatype QuoteResponse = QuoteResponse(
    id: int,
    shards: seq<ShardResponse>,
    timestamp: int,
    score: int,
    vote: Option<VoteKind>,
    submitter: UserResponse,
    hidden: Option<HiddenResponse>,
    favorited: bool)

  /**
   * What the pass produces: the quotes, the internal error reported when the
   * directory cannot be reached, or the panic of an `unwrap` on an empty list.
   */
  datatype Reconstructed = Quotes(quotes: seq<QuoteResponse>) | DirectoryFailed | Panicked

  /** The display names a directory answer gives; a later entry for the same uid wins. */
  function NamesOf(users: seq<DirectoryUser>): (names: map<Uid, string>)
    ensures forall i :: 0 <= i < |users| ==> users[i].uid in names
    ensures forall u :: u in names ==> exists i :: 0 <= i < |users| && users[i].uid == u
  {
    if users == [] then map[]
    else
      var init := users[..|users| - 1];
      var names := NamesOf(init);
      assert forall i :: 0 <= i < |init| ==> users[i] == init[i];
      names[users[|users| - 1].uid := users[|users| - 1].cn]
  }

  /** The uids one row mentions: submitter, speaker and, when hidden, the moderator. */
  function RowUids(row: QuoteShard): set<Uid> {
    {row.submitter, row.speaker} + (if row.hiddenActor.Some? then {row.hiddenActor.value} else {})
  }

  /** Every uid the rows mention: the keys of the lookup table built before the directory call. */
  function Referenced(rows: seq<QuoteShard>): (uids: set<Uid>)
    ensures forall i :: 0 <= i < |rows| ==> RowUids(rows[i]) <= uids
  {
    if rows == [] then {}
    else
      var init := rows[..|rows| - 1];
      assert forall i :: 0 <= i < |init| ==> rows[i] == init[i];
      Referenced(init) + RowUids(rows[|rows| - 1])
  }

  /** The entry of the lookup table for `u` once the directory answered with `names`. */
  function NameEntry(u: Uid, names: map<Uid, string>): Option<string> {
    if u in names then Some(names[u]) else None
  }

  function ShardOf(row: QuoteShard, names: map<Uid, string>): ShardResponse
    requires row.speaker in names
  {
    ShardResponse(row.body, UserResponse(row.speaker, names[row.speaker]))
  }

  /** The hidden record of a quote: present only if the moderator has a name and a reason is stored. */
  function HiddenOf(row: QuoteShard, names: map<Uid, string>): Option<HiddenResponse>
  {
    match row.hiddenActor
    case None => None
    case Some(actor) =>
      if actor !in names then None
      else
        match row.hiddenReason
        case None => None
        case Some(reason) => Some(HiddenResponse(UserResponse(actor, names[actor]), reason))
  }

  /** The quote a row of index 1 opens, carrying that row as its only shard so far. */
  function Open(row: QuoteShard, names: map<Uid, string>): QuoteResponse
    requires row.speaker in names && row.submitter in names
  {
    QuoteResponse(row.id, [ShardOf(row, names)], row.timestamp, row.score, row.vote,
                  UserResponse(row.submitter, names[row.submitter]), HiddenOf(row, names), row.favorited)
  }

  /** A row the pass does not skip: its speaker has a name and, if it opens a quote, so has the submitter. */
  predicate Kept(row: QuoteShard, names: map<Uid, string>) {
    row.speaker in names && (row.index != 1 || row.submitter in names)
  }

  /** One iteration of the pass. */
  function Step(acc: Reconstructed, row: QuoteShard, names: map<Uid, string>): Reconstructed {
    if !acc.Quotes? || row.speaker !in names then acc
    else if row.index == 1 then
      if row.submitter !in names then acc else Quotes(acc.quotes + [Open(row, names)])
    else if acc.quotes == [] then Panicked
    else
      var last := acc.quotes[|acc.quotes| - 1];
      Quotes(acc.quotes[..|acc.quotes| - 1] + [last.(shards := last.shards + [ShardOf(row, names)])])
  }

  /** The pass over `rows`, started from `acc`. A panic ends the pass for good. */
  function Run(acc: Reconstructed, rows: seq<QuoteShard>, names: map<Uid, string>): (r: Reconstructed)
    ensures !acc.Quotes? ==> r == acc
    ensures acc.Quotes? ==> r.Quotes? || r.Panicked?
  {
    if rows == [] then acc
    else Step(Run(acc, rows[..|rows| - 1], names), rows[|rows| - 1], names)
  }

  /** The pass over all rows once the directory answered with `names`. */
  function Reconstruct(rows: seq<QuoteShard>, names: map<Uid, string>): (r: Reconstructed)
    ensures r.Quotes? || r.Panicked?
  {
    Run(Quotes([]), rows, names)
  }

  /** The lookup table before the directory call: every uid the rows mention, none with a name yet. */
  method CollectUids(rows: seq<QuoteShard>) returns (uidMap: map<Uid, Option<string>>)
    ensures uidMap.Keys == Referenced(rows)
    ensures forall u :: u in uidMap ==> uidMap[u] == None
  {
    uidMap := map[];
    var i := 0;
    while i < |rows|
      invariant 0 <= i <= |rows|
      invariant uidMap.Keys == Referenced(rows[..i])
      invariant forall u :: u in uidMap ==> uidMap[u] == None
    {
      var row := rows[i];
      uidMap := uidMap[row.submitter := None][row.speaker := None];
      if row.hiddenActor.Some? {
        uidMap := uidMap[row.hiddenActor.value := None];
      }
      assert rows[..i + 1][..i] == rows[..i];
      i := i + 1;
    }
    assert rows[..|rows|] == rows;
  }

  /** The lookup table after the directory answered: each entry of the answer stores its display name. */
  method RecordNames(uidMap0: map<Uid, Option<string>>, users: seq<DirectoryUser>)
    returns (uidMap: map<Uid, Option<string>>)
    requires forall u :: u in uidMap0 ==> uidMap0[u] == None
    ensures uidMap0.Keys <= uidMap.Keys
    ensures forall u :: u in uidMap ==> uidMap[u] == NameEntry(u, NamesOf(users))
  {
    uidMap := uidMap0;
    var j := 0;
    while j < |users|
      invariant 0 <= j <= |users|
      invariant uidMap0.Keys <= uidMap.Keys
      invariant forall u :: u in uidMap ==> uidMap[u] == NameEntry(u, NamesOf(users[..j]))
    {
      assert users[..j + 1][..j] == users[..j];
      uidMap := uidMap[users[j].uid := Some(users[j].cn)];
      j := j + 1;
    }
    assert users[..|users|] == users;
  }

  /**
   * `shards_to_quotes`: collect every uid the rows mention, ask the directory
   * for their names, then make the single forward pass.
   * `directory` is the directory's answer, `None` when it could not be reached.
   */
  method ShardsToQuotes(rows: seq<QuoteShard>, directory: Option<seq<DirectoryUser>>) returns (r: Reconstructed)
    ensures directory.None? ==> r == DirectoryFailed
    ensures directory.Some? ==> r == Reconstruct(rows, NamesOf(directory.value))
  {
    var uidMap := CollectUids(rows);
    if directory.None? {
      return DirectoryFailed;
    }
    uidMap := RecordNames(uidMap, directory.value);
    r := ForwardPass(rows, uidMap, NamesOf(directory.value));
  }

  /**
   * The forward pass of `shards_to_quotes` over a lookup table that holds,
   * for every uid the rows mention, its name under `names` or none.
   */
  method ForwardPass(rows: seq<QuoteShard>, uidMap: map<Uid, Option<string>>, ghost names: map<Uid, string>)
    returns (r: Reconstructed)
    requires Referenced(rows) <= uidMap.Keys
    requires forall u :: u in uidMap ==> uidMap[u] == NameEntry(u, names)
    ensures r == Reconstruct(rows, names)
  {
    var quotes: seq<QuoteResponse> := [];
    var k := 0;
    while k < |rows|
      invariant 0 <= k <= |rows|
      invariant Run(Quotes([]), rows[..k], names) == Quotes(quotes)
    {
      var row := rows[k];
      RunSnoc(rows, k, names);
      assert RowUids(row) <= uidMap.Keys;
      k := k + 1;
      var speakerName := uidMap[row.speaker];
      if speakerName.None? {
        continue;
      }
      var speaker := UserResponse(row.speaker, speakerName.value);
      if row.index == 1 {
        var submitterName := uidMap[row.submitter];
        if submitterName.None? {
          continue;
        }
        var hiddenActor: Option<UserResponse> := None;
        if row.hiddenActor.Some? {
          var actorName := uidMap[row.hiddenActor.value];
          if actorName.Some? {
            hiddenActor := Some(UserResponse(row.hiddenActor.value, actorName.value));
          }
        }
        var hidden: Option<HiddenResponse> := None;
        if hiddenActor.Some? && row.hiddenReason.Some? {
          hidden := Some(HiddenResponse(hiddenActor.value, row.hiddenReason.value));
        }
        assert hidden == HiddenOf(row, names);
        quotes := quotes + [QuoteResponse(row.id, [ShardResponse(row.body, speaker)], row.timestamp,
                                          row.score, row.vote, UserResponse(row.submitter, submitterName.value),
                                          hidden, row.favorited)];
      } else {
        if quotes == [] {
          RunAppend(Quotes([]), rows[..k], rows[k..], names);
          assert rows[..k] + rows[k..] == rows;
          return Panicked;
        }
        var last := quotes[|quotes| - 1];
        quotes := quotes[..|quotes| - 1] + [last.(shards := last.shards + [ShardResponse(row.body, speaker)])];
      }
    }
    assert rows[..|rows|] == rows;
    r := Quotes(quotes);
  }

  /** The pass over the first `k + 1` rows is one more step after the pass over the first `k`. */
  lemma RunSnoc(rows: seq<QuoteShard>, k: nat, names: map<Uid, string>)
    requires k < |rows|
    ensures Run(Quotes([]), rows[..k + 1], names) == Step(Run(Quotes([]), rows[..k], names), rows[k], names)
  {
    assert rows[..k + 1][..k] == rows[..k];
  }

  /** Running the pass over `a + b` is running it over `a`, then over `b`. */
  lemma {:induction false} RunAppend(acc: Reconstructed, a: seq<QuoteShard>, b: seq<QuoteShard>, names: map<Uid, string>)
    ensures Run(acc, a + b, names) == Run(Run(acc, a, names), b, names)
  {
    if b == [] {
      assert a + b == a;
    } else {
      var init := b[..|b| - 1];
      RunAppend(acc, a, init, names);
      assert (a + b)[..|a + b| - 1] == a + init;
    }
  }

  /**
   * A row the pass skips can be taken out of the input without changing the
   * output, wherever it stands.
   */
  lemma SkippedRowIgnored(a: seq<QuoteShard>, row: QuoteShard, b: seq<QuoteShard>, names: map<Uid, string>)
    requires !Kept(row, names)
    ensures Reconstruct(a + [row] + b, names) == Reconstruct(a + b, names)
  {
    var acc := Run(Quotes([]), a, names);
    RunAppend(Quotes([]), a + [row], b, names);
    RunAppend(Quotes([]), a, [row], names);
    assert Run(acc, [row], names) == Step(acc, row, names);
    RunAppend(Quotes([]), a, b, names);
  }

  /** The rows the pass does not skip, in input order. */
  function KeptRows(rows: seq<QuoteShard>, names: map<Uid, string>): (kept: seq<QuoteShard>)
    ensures |kept| <= |rows|
    ensures forall i :: 0 <= i < |kept| ==> Kept(kept[i], names)
  {
    if rows == [] then []
    else (if Kept(rows[0], names) then [rows[0]] else []) + KeptRows(rows[1..], names)
  }

  lemma {:induction false} KeptRowsSnoc(rows: seq<QuoteShard>, row: QuoteShard, names: map<Uid, string>)
    ensures KeptRows(rows + [row], names) == KeptRows(rows, names) + (if Kept(row, names) then [row] else [])
  {
    if rows == [] {
      assert [row][1..] == [];
    } else {
      assert (rows + [row])[1..] == rows[1..] + [row];
      KeptRowsSnoc(rows[1..], row, names);
    }
  }

  /** The pass over the input gives what the pass over its kept rows gives. */
  lemma {:induction false} RunKept(acc: Reconstructed, rows: seq<QuoteShard>, names: map<Uid, string>)
    ensures Run(acc, rows, names) == Run(acc, KeptRows(rows, names), names)
  {
    if rows != [] {
      var init, last := rows[..|rows| - 1], rows[|rows| - 1];
      assert rows == init + [last];
      RunKept(acc, init, names);
      KeptRowsSnoc(init, last, names);
      var k := KeptRows(init, names);
      var before := Run(acc, init, names);
      assert Run(acc, rows, names) == Step(before, last, names);
      if Kept(last, names) {
        assert (k + [last])[..|k + [last]| - 1] == k;
        assert Run(acc, k + [last], names) == Step(Run(acc, k, names), last, names);
      } else {
        assert Step(before, last, names) == before;
        assert k + [] == k;
      }
    }
  }

  /**
   * The pass panics exactly when the first row it keeps does not open a
   * quote: a quote whose opening shard was skipped has no quote to attach
   * its later shards to (`last_mut().unwrap()` on an empty list).
   */
  lemma PanicsExactly(rows: seq<QuoteShard>, names: map<Uid, string>)
    ensures Reconstruct(rows, names).Panicked? <==>
            KeptRows(rows, names) != [] && KeptRows(rows, names)[0].index != 1
  {
    RunKept(Quotes([]), rows, names);
    KeptPassPanics(KeptRows(rows, names), names);
  }

  lemma {:induction false} KeptPassPanics(rows: seq<QuoteShard>, names: map<Uid, string>)
    requires forall i :: 0 <= i < |rows| ==> Kept(rows[i], names)
    ensures Reconstruct(rows, names).Panicked? <==> rows != [] && rows[0].index != 1
    ensures Reconstruct(rows, names).Quotes? ==> (Reconstruct(rows, names).quotes == [] <==> rows == [])
  {
    if rows != [] {
      var init, last := rows[..|rows| - 1], rows[|rows| - 1];
      KeptPassPanics(init, names);
      if init != [] {
        assert rows[0] == init[0];
      }
    }
  }

  /**
   * A group of rows the pass turns into one quote: an opening row of index 1
   * followed by rows of any other index, every name resolvable.
   */
  predicate IsGroup(g: seq<QuoteShard>, names: map<Uid, string>) {
    && |g| > 0
    && g[0].index == 1
    && g[0].submitter in names
    && (forall j :: 1 <= j < |g| ==> g[j].index != 1)
    && (forall j :: 0 <= j < |g| ==> g[j].speaker in names)
  }

  /** The rows of several groups, one after the other. */
  function Concat(groups: seq<seq<QuoteShard>>): (rows: seq<QuoteShard>) {
    if groups == [] then [] else Concat(groups[..|groups| - 1]) + groups[|groups| - 1]
  }

  /** What it means for `q` to be the quote built from group `g`. */
  predicate Represents(q: QuoteResponse, g: seq<QuoteShard>, names: map<Uid, string>)
    requires IsGroup(g, names)
  {
    && q.id == g[0].id
    && q.timestamp == g[0].timestamp
    && q.score == g[0].score
    && q.vote == g[0].vote
    && q.favorited == g[0].favorited
    && q.submitter == UserResponse(g[0].submitter, names[g[0].submitter])
    && q.hidden == HiddenOf(g[0], names)
    && |q.shards| == |g|
    && forall j :: 0 <= j < |g| ==>
         q.shards[j] == ShardResponse(g[j].body, UserResponse(g[j].speaker, names[g[j].speaker]))
  }

  /** Running the pass over one more group adds exactly the quote that represents it. */
  lemma {:induction false} RunGroup(qs: seq<QuoteResponse>, g: seq<QuoteShard>, names: map<Uid, string>)
    requires IsGroup(g, names)
    ensures Run(Quotes(qs), g, names).Quotes?
    ensures |Run(Quotes(qs), g, names).quotes| == |qs| + 1
    ensures Run(Quotes(qs), g, names).quotes[..|qs|] == qs
    ensures Represents(Run(Quotes(qs), g, names).quotes[|qs|], g, names)
  {
    var init := g[..|g| - 1];
    if |g| == 1 {
      assert init == [];
    } else {
      assert IsGroup(init, names);
      RunGroup(qs, init, names);
      var before := Run(Quotes(qs), init, names).quotes;
      assert before == before[..|qs|] + [before[|qs|]];
    }
  }

  /**
   * Reconstruction groups correctly: on rows made of groups, each opened by a
   * row of index 1 and with every name resolvable, the pass returns one quote
   * per group, in order, carrying the opening row's quote-level fields and
   * exactly the group's rows as its shards, in input order.
   */
  lemma {:induction false} ReconstructGroups(groups: seq<seq<QuoteShard>>, names: map<Uid, string>)
    requires forall k :: 0 <= k < |groups| ==> IsGroup(groups[k], names)
    ensures Reconstruct(Concat(groups), names).Quotes?
    ensures |Reconstruct(Concat(groups), names).quotes| == |groups|
    ensures forall k :: 0 <= k < |groups| ==>
              Represents(Reconstruct(Concat(groups), names).quotes[k], groups[k], names)
  {
    if groups != [] {
      var init, last := groups[..|groups| - 1], groups[|groups| - 1];
      ReconstructGroups(init, names);
      var qs := Reconstruct(Concat(init), names).quotes;
      RunAppend(Quotes([]), Concat(init), last, names);
      RunGroup(qs, last, names);
      var after := Reconstruct(Concat(groups), names).quotes;
      forall k | 0 <= k < |groups|
        ensures Represents(after[k], groups[k], names)
      {
        if k < |init| {
          assert after[k] == after[..|qs|][k];
        }
      }
    }
  }

  /**
   * Rows without an opening row never yield a quote: the pass either skips
   * them all or panics at the first one it keeps.
   */
  lemma {:induction false} NoOpeningRow(rows: seq<QuoteShard>, names: map<Uid, string>)
    requires forall i :: 0 <= i < |rows| ==> rows[i].index != 1
    ensures Reconstruct(rows, names) == Quotes([]) || Reconstruct(rows, names) == Panicked
  {
    if rows != [] {
      NoOpeningRow(rows[..|rows| - 1], names);
    }
  }

  /** The shards the pass takes from continuation rows: those whose speaker has a name, in order. */
  function ContinuationShards(rows: seq<QuoteShard>, names: map<Uid, string>): seq<ShardResponse> {
    if rows == [] then []
    else
      var last := rows[|rows| - 1];
      ContinuationShards(rows[..|rows| - 1], names) + (if last.speaker in names then [ShardOf(last, names)] else [])
  }

  /**
   * Continuation rows join the last quote built so far, whatever quote they
   * belong to: the earlier quotes stay as they are and the last one keeps
   * its id and fields and gains the rows' shards. So the shards of a quote
   * whose opening row was skipped end up in the quote opened before it.
   */
  lemma {:induction false} ContinuationRowsJoinLast(qs: seq<QuoteResponse>, rows: seq<QuoteShard>,
                                                    names: map<Uid, string>)
    requires qs != []
    requires forall i :: 0 <= i < |rows| ==> rows[i].index != 1
    ensures Run(Quotes(qs), rows, names)
            == Quotes(qs[..|qs| - 1] + [qs[|qs| - 1].(shards := qs[|qs| - 1].shards + ContinuationShards(rows, names))])
  {
    if rows != [] {
      var init := rows[..|rows| - 1];
      ContinuationRowsJoinLast(qs, init, names);
      var last := qs[|qs| - 1].(shards := qs[|qs| - 1].shards + ContinuationShards(init, names));
      var acc := qs[..|qs| - 1] + [last];
      assert acc[..|acc| - 1] == qs[..|qs| - 1] && acc[|acc| - 1] == last;
      var row := rows[|rows| - 1];
      assert Run(Quotes(qs), rows, names) == Step(Quotes(acc), row, names);
      if row.speaker in names {
        assert row.index != 1;
        assert ContinuationShards(rows, names) == ContinuationShards(init, names) + [ShardOf(row, names)];
        assert last.shards + [ShardOf(row, names)] == qs[|qs| - 1].shards + ContinuationShards(rows, names);
      } else {
        assert ContinuationShards(rows, names) == ContinuationShards(init, names);
      }
    } else {
      assert qs[|qs| - 1].shards + [] == qs[|qs| - 1].shards;
      assert qs[..|qs| - 1] + [qs[|qs| - 1]] == qs;
    }
  }

  /**
   * A quote whose opening shard is skipped hands its later shards to the
   * quote opened before it: here quote 2's second shard ends up in quote 3.
   */
  lemma SkippedOpeningRowMisattributes()
    ensures
      var q3 := QuoteShard(3, 1, "alice", 30, "hi", "bob", None, None, None, 0, false);
      var q2a := QuoteShard(2, 1, "alice", 20, "gone", "eve", None, None, None, 0, false);
      var q2b := QuoteShard(2, 2, "alice", 20, "bye", "carol", None, None, None, 0, false);
      var names := map["alice" := "Alice", "bob" := "Bob", "carol" := "Carol"];
      var r := Reconstruct([q3, q2a, q2b], names);
      r.Quotes? && |r.quotes| == 1 && r.quotes[0].id == 3 &&
      r.quotes[0].shards == [ShardResponse("hi", UserResponse("bob", "Bob")),
                             ShardResponse("bye", UserResponse("carol", "Carol"))]
  {
    var q3 := QuoteShard(3, 1, "alice", 30, "hi", "bob", None, None, None, 0, false);
    var q2a := QuoteShard(2, 1, "alice", 20, "gone", "eve", None, None, None, 0, false);
    var q2b := QuoteShard(2, 2, "alice", 20, "bye", "carol", None, None, None, 0, false);
    var names := map["alice" := "Alice", "bob" := "Bob", "carol" := "Carol"];
    var rows := [q3, q2a, q2b];
    assert rows[..2] == [q3, q2a] && rows[..2][..1] == [q3] && [q3][..0] == [];
    assert Run(Quotes([]), [q3], names) == Quotes([Open(q3, names)]);
    assert Run(Quotes([]), [q3, q2a], names) == Quotes([Open(q3, names)]);
  }
}
