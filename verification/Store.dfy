/**
 * The quote service's endpoints over its database. `QuoteStore` holds the
 * tables as fields; each endpoint is a method that runs one transaction,
 * committing all of its writes or none of them, and returns what the HTTP
 * response says: done, rejected (a 400), or failed (a 500).
 */
module Store {
  import opened Types
  import opened Tables
  import opened Visibility
  import opened Reconstruction
  import opened Reports

  /** One shard of a quote being created. */
  datatype NewShard = NewShard(body: string, speaker: Uid)

  /** Why a request is refused with a client error. */
  datatype Rejection =
    | NoShards
    | TooManyShards
    | UnquotableSpeaker
    | BadSpeakerFormat
    | SelfQuote
    | BadSubmitterFormat
    | UnknownUsers
    | ReasonTooShort
    | NotQuotedOrMissing
    | NotYoursOrMissing
    | AlreadyReportedOrMissing
    | QuoteMissing
    | AlreadyResolvedOrMissing
    | NotFavorited

  /** Why a request ends in an internal error. */
  datatype Fault =
    | DirectoryUnavailable
    | UniqueViolation
    | ForeignKeyViolation
    | IdsExhausted
    | NegativeLimit

  /** The result of an endpoint that changes the database. */
  datatype Outcome = Done | Rejected(why: Rejection) | Failed(fault: Fault)

  /** The result of an endpoint that reads: a value, a 404, a 500, or a panic of the handler. */
  datatype Fetched<T> = Found(value: T) | NotFound | QueryFailed(fault: Fault) | Panic

  /** The optional query parameters of the listing endpoint. */
  datatype FetchParams = FetchParams(
    limit: Option<int>,
    lt: Option<int>,
    q: Option<string>,
    speaker: Option<Uid>,
    submitter: Option<Uid>,
    involved: Option<Uid>,
    hidden: Option<bool>,
    favorited: Option<bool>)

  /** Why one shard of a new quote is refused, checked in the source's order, or None. */
  function ShardVerdict(s: NewShard, quotable: set<Uid>, validName: Uid -> bool, submitter: Uid): Option<Rejection> {
    if s.speaker !in quotable then Some(UnquotableSpeaker)
    else if !validName(s.speaker) then Some(BadSpeakerFormat)
    else if s.speaker == submitter then Some(SelfQuote)
    else None
  }

  /** The refusal of the first shard that is refused, or None when every shard passes. */
  function FirstShardFailure(shards: seq<NewShard>, quotable: set<Uid>, validName: Uid -> bool, submitter: Uid)
    : (e: Option<Rejection>)
    ensures e.None? <==> forall i :: 0 <= i < |shards| ==> ShardVerdict(shards[i], quotable, validName, submitter).None?
    ensures e.Some? ==> exists i :: 0 <= i < |shards| && e == ShardVerdict(shards[i], quotable, validName, submitter)
                          && forall j :: 0 <= j < i ==> ShardVerdict(shards[j], quotable, validName, submitter).None?
  {
    if shards == [] then None
    else
      var here := ShardVerdict(shards[0], quotable, validName, submitter);
      if here.Some? then here
      else
        var rest := FirstShardFailure(shards[1..], quotable, validName, submitter);
        assert forall i :: 1 <= i < |shards| ==> shards[i] == shards[1..][i - 1];
        rest
  }

  /** Every user a new quote names: its speakers and its submitter. */
  function Participants(shards: seq<NewShard>, submitter: Uid): set<Uid>
  {
    (set i | 0 <= i < |shards| :: shards[i].speaker) + {submitter}
  }

  /** The shard rows of new quote `id`: the n shards under indices 1 to n, in request order. */
  function IndexedShards(id: int, shards: seq<NewShard>): (rows: map<(int, int), ShardRecord>)
    ensures forall k :: k in rows <==> k.0 == id && 1 <= k.1 <= |shards|
    ensures forall k :: k in rows ==> rows[k] == ShardRecord(shards[k.1 - 1].body, shards[k.1 - 1].speaker)
  {
    if shards == [] then map[]
    else
      var n := |shards|;
      IndexedShards(id, shards[..n - 1])[(id, n) := ShardRecord(shards[n - 1].body, shards[n - 1].speaker)]
  }

  /**
   * The response to a quote creation, given the directory's answers (the
   * quotable members, and the known users; None when the directory could not
   * be reached) and the next value of the quote id sequence.
   */
  function CreateVerdict(submitter: Uid, shards: seq<NewShard>, quotable: Option<set<Uid>>,
                         members: Option<set<Uid>>, validName: Uid -> bool, nextId: int): Outcome {
    if |shards| == 0 then Rejected(NoShards)
    else if |shards| > MAX_SHARDS then Rejected(TooManyShards)
    else if quotable.None? then Failed(DirectoryUnavailable)
    else if FirstShardFailure(shards, quotable.value, validName, submitter).Some? then
      Rejected(FirstShardFailure(shards, quotable.value, validName, submitter).value)
    else if !validName(submitter) then Rejected(BadSubmitterFormat)
    else if members.None? then Failed(DirectoryUnavailable)
    else if !(Participants(shards, submitter) <= members.value) then Rejected(UnknownUsers)
    else if nextId > I32_MAX then Failed(IdsExhausted)
    else Done
  }

  /**
   * A creation goes through exactly when it has one to six shards, every
   * speaker is quotable, well formed and not the submitter, the submitter is
   * well formed, the directory knows everybody named, and an id is left.
   */
  lemma CreateVerdictDone(submitter: Uid, shards: seq<NewShard>, quotable: Option<set<Uid>>,
                          members: Option<set<Uid>>, validName: Uid -> bool, nextId: int)
    ensures CreateVerdict(submitter, shards, quotable, members, validName, nextId).Done? <==>
              && 1 <= |shards| <= MAX_SHARDS
              && quotable.Some? && members.Some?
              && (forall i :: 0 <= i < |shards| ==>
                    shards[i].speaker in quotable.value && validName(shards[i].speaker)
                    && shards[i].speaker != submitter)
              && validName(submitter)
              && (forall i :: 0 <= i < |shards| ==> shards[i].speaker in members.value)
              && submitter in members.value
              && nextId <= I32_MAX
  {
    if quotable.Some? {
      var passes := FirstShardFailure(shards, quotable.value, validName, submitter).None?;
      assert passes <==> forall i :: 0 <= i < |shards| ==>
               shards[i].speaker in quotable.value && validName(shards[i].speaker) && shards[i].speaker != submitter
      by {
        forall i | 0 <= i < |shards|
          ensures ShardVerdict(shards[i], quotable.value, validName, submitter).None? <==>
                  shards[i].speaker in quotable.value && validName(shards[i].speaker) && shards[i].speaker != submitter
        {
        }
      }
    }
    if members.Some? {
      var users := Participants(shards, submitter);
      assert users <= members.value <==>
               (forall i :: 0 <= i < |shards| ==> shards[i].speaker in members.value) && submitter in members.value;
    }
  }

  /** The single-get response built from a reconstruction: its first quote. */
  function FirstQuote(r: Reconstructed): Fetched<QuoteResponse> {
    match r
    case Quotes(qs) => if qs == [] then Panic else Found(qs[0])
    case DirectoryFailed => QueryFailed(DirectoryUnavailable)
    case Panicked => Panic
  }

  /** The listing response built from a reconstruction. */
  function AllQuotes(r: Reconstructed): Fetched<seq<QuoteResponse>> {
    match r
    case Quotes(qs) => Found(qs)
    case DirectoryFailed => QueryFailed(DirectoryUnavailable)
    case Panicked => Panic
  }

  /**
   * Every quote has shards numbered 1, 2, ... without gaps and at most six,
   * every shard belongs to a quote, and no shard quotes the quote's submitter.
   */
  ghost predicate ShardsWellFormed(quotes: map<int, QuoteRecord>, shards: map<(int, int), ShardRecord>) {
    && (forall id :: id in quotes ==> (id, 1) in shards)
    && (forall k :: k in shards ==> k.0 in quotes && 1 <= k.1 <= MAX_SHARDS)
    && (forall k :: k in shards ==> forall j :: 1 <= j <= k.1 ==> (k.0, j) in shards)
    && (forall k :: k in shards ==> shards[k].speaker != quotes[k.0].submitter)
  }

  /** Shard numbers have no gaps: once index `g` is missing, so is every later index. */
  lemma ShardGap(quotes: map<int, QuoteRecord>, shards: map<(int, int), ShardRecord>, id: int, g: int, j: int)
    requires ShardsWellFormed(quotes, shards) && 1 <= g <= j && (id, g) !in shards
    ensures (id, j) !in shards
  {
  }

  /** At most one report per reporter and quote. */
  ghost predicate ReportersDistinct(reports: map<int, Report>) {
    forall r, t :: r in reports && t in reports && r != t ==>
      reports[r].quoteId != reports[t].quoteId || reports[r].reporter != reports[t].reporter
  }

  /**
   * The facts the tables always satisfy. Serial ids, every dependent row
   * referring to an existing quote, and one report per reporter and quote
   * come from the schema's keys, foreign keys and cascades. Shards numbered
   * 1, 2, ... without gaps and at most six, and nobody quoting themselves,
   * come from `create_quote`'s checks; they stay true because no other
   * endpoint writes `shards`.
   */
  ghost predicate TablesValid(quotes: map<int, QuoteRecord>, shards: map<(int, int), ShardRecord>,
                              hidden: map<int, HiddenRecord>, votes: Votes, reports: map<int, Report>,
                              favorites: set<(int, Uid)>, nextQuoteId: int, nextReportId: int) {
    && 1 <= nextQuoteId <= I32_MAX + 1
    && 1 <= nextReportId
    && (forall id :: id in quotes ==> 1 <= id < nextQuoteId)
    && ShardsWellFormed(quotes, shards)
    && (forall id :: id in hidden ==> id in quotes)
    && (forall k :: k in votes ==> k.0 in quotes)
    && (forall f :: f in favorites ==> f.0 in quotes)
    && (forall r :: r in reports ==> 1 <= r < nextReportId && reports[r].quoteId in quotes)
    && ReportersDistinct(reports)
  }

  /** Creating quote `nextQuoteId` with its shards keeps the constraints. */
  lemma InsertKeepsValid(quotes: map<int, QuoteRecord>, shards: map<(int, int), ShardRecord>,
                         hidden: map<int, HiddenRecord>, votes: Votes, reports: map<int, Report>,
                         favorites: set<(int, Uid)>, nextQuoteId: int, nextReportId: int,
                         submitter: Uid, now: int, newShards: seq<NewShard>,
                         quotes': map<int, QuoteRecord>, shards': map<(int, int), ShardRecord>)
    requires TablesValid(quotes, shards, hidden, votes, reports, favorites, nextQuoteId, nextReportId)
    requires nextQuoteId <= I32_MAX
    requires 1 <= |newShards| <= MAX_SHARDS
    requires forall i :: 0 <= i < |newShards| ==> newShards[i].speaker != submitter
    requires quotes' == quotes[nextQuoteId := QuoteRecord(submitter, now)]
    requires shards' == shards + IndexedShards(nextQuoteId, newShards)
    ensures TablesValid(quotes', shards', hidden, votes, reports, favorites, nextQuoteId + 1, nextReportId)
  {
    InsertKeepsShardsWellFormed(quotes, shards, nextQuoteId, submitter, now, newShards);
  }

  /** Deleting quote `id` together with every row that refers to it keeps the constraints. */
  lemma DeleteKeepsValid(quotes: map<int, QuoteRecord>, shards: map<(int, int), ShardRecord>,
                         hidden: map<int, HiddenRecord>, votes: Votes, reports: map<int, Report>,
                         favorites: set<(int, Uid)>, nextQuoteId: int, nextReportId: int, id: int,
                         quotes': map<int, QuoteRecord>, shards': map<(int, int), ShardRecord>,
                         hidden': map<int, HiddenRecord>, votes': Votes, reports': map<int, Report>,
                         favorites': set<(int, Uid)>)
    requires TablesValid(quotes, shards, hidden, votes, reports, favorites, nextQuoteId, nextReportId)
    requires quotes' == quotes - {id} && shards' == DropShards(shards, id) && hidden' == hidden - {id}
    requires votes' == DropVotes(votes, id) && reports' == DropReports(reports, id)
    requires favorites' == DropFavorites(favorites, id)
    ensures TablesValid(quotes', shards', hidden', votes', reports', favorites', nextQuoteId, nextReportId)
  {
  }

  /** Resolving the open reports of a quote keeps the constraints: only resolvers change. */
  lemma ResolveKeepsValid(quotes: map<int, QuoteRecord>, shards: map<(int, int), ShardRecord>,
                          hidden: map<int, HiddenRecord>, votes: Votes, reports: map<int, Report>,
                          favorites: set<(int, Uid)>, nextQuoteId: int, nextReportId: int, id: int, user: Uid,
                          after: map<int, Report>)
    requires TablesValid(quotes, shards, hidden, votes, reports, favorites, nextQuoteId, nextReportId)
    requires after == ResolveAll(reports, id, user)
    ensures TablesValid(quotes, shards, hidden, votes, after, favorites, nextQuoteId, nextReportId)
  {
    assert forall r :: r in after ==> after[r].quoteId == reports[r].quoteId && after[r].reporter == reports[r].reporter;
  }

  /** Adding a new quote with its shards numbered from 1 keeps the shard table well formed. */
  lemma InsertKeepsShardsWellFormed(quotes: map<int, QuoteRecord>, shards: map<(int, int), ShardRecord>,
                                    id: int, submitter: Uid, now: int, newShards: seq<NewShard>)
    requires ShardsWellFormed(quotes, shards)
    requires id !in quotes
    requires 1 <= |newShards| <= MAX_SHARDS
    requires forall i :: 0 <= i < |newShards| ==> newShards[i].speaker != submitter
    ensures ShardsWellFormed(quotes[id := QuoteRecord(submitter, now)], shards + IndexedShards(id, newShards))
  {
    var added := IndexedShards(id, newShards);
    var quotes', shards' := quotes[id := QuoteRecord(submitter, now)], shards + added;
    assert (id, 1) in added;
    forall k | k in shards'
      ensures k.0 in quotes' && 1 <= k.1 <= MAX_SHARDS
      ensures forall j :: 1 <= j <= k.1 ==> (k.0, j) in shards'
      ensures shards'[k].speaker != quotes'[k.0].submitter
    {
      if k in added {
        assert shards'[k] == added[k];
      } else {
        assert k in shards && shards'[k] == shards[k] && k.0 != id;
      }
    }
  }

  /**
   * In these tables quote `id` is submitted by `submitter` at `now`, has
   * shards 1..n holding `newShards` in order, and no hide, vote or favourite.
   */
  ghost predicate Created(quotes: map<int, QuoteRecord>, shards: map<(int, int), ShardRecord>,
                          hidden: map<int, HiddenRecord>, votes: Votes, favorites: set<(int, Uid)>,
                          id: int, submitter: Uid, newShards: seq<NewShard>, now: int) {
    && id in quotes && quotes[id] == QuoteRecord(submitter, now)
    && (forall j :: (id, j) in shards <==> 1 <= j <= |newShards|)
    && (forall j :: 1 <= j <= |newShards| ==>
          shards[(id, j)] == ShardRecord(newShards[j - 1].body, newShards[j - 1].speaker))
    && id !in hidden
    && (forall k :: k in votes ==> k.0 != id)
    && (forall f :: f in favorites ==> f.0 != id)
  }

  /** Inserting a quote under an id no row refers to leaves exactly that quote and its shards under the id. */
  lemma InsertCreates(quotes: map<int, QuoteRecord>, shards: map<(int, int), ShardRecord>,
                      hidden: map<int, HiddenRecord>, votes: Votes, reports: map<int, Report>,
                      favorites: set<(int, Uid)>, nextQuoteId: int, nextReportId: int,
                      submitter: Uid, now: int, newShards: seq<NewShard>)
    requires TablesValid(quotes, shards, hidden, votes, reports, favorites, nextQuoteId, nextReportId)
    ensures Created(quotes[nextQuoteId := QuoteRecord(submitter, now)],
                    shards + IndexedShards(nextQuoteId, newShards),
                    hidden, votes, favorites, nextQuoteId, submitter, newShards, now)
  {
    var id := nextQuoteId;
    var added := IndexedShards(id, newShards);
    assert id !in quotes;
    forall j
      ensures (id, j) in shards + added <==> 1 <= j <= |newShards|
    {
      assert (id, j) !in shards;
    }
    forall j | 1 <= j <= |newShards|
      ensures (shards + added)[(id, j)] == ShardRecord(newShards[j - 1].body, newShards[j - 1].speaker)
    {
      assert (id, j) in added;
    }
  }

  /** A strictly descending list stays so with a larger element put in front. */
  lemma ConsDescending(x: int, rest: seq<int>)
    requires forall i, j :: 0 <= i < j < |rest| ==> rest[i] > rest[j]
    requires forall j :: 0 <= j < |rest| ==> rest[j] < x
    ensures forall i, j :: 0 <= i < j < |[x] + rest| ==> ([x] + rest)[i] > ([x] + rest)[j]
  {
  }

  class QuoteStore {
    var quotes: map<int, QuoteRecord>
    var shards: map<(int, int), ShardRecord>
    var hidden: map<int, HiddenRecord>
    var votes: Votes
    var reports: map<int, Report>
    var favorites: set<(int, Uid)>
    /** The next value of the quote id sequence. */
    var nextQuoteId: int
    /** The next value of the report id sequence. */
    var nextReportId: int

    /** The facts `TablesValid` states hold of the tables. */
    ghost predicate Valid()
      reads this
    {
      TablesValid(quotes, shards, hidden, votes, reports, favorites, nextQuoteId, nextReportId)
    }

    /** An empty database. */
    constructor ()
      ensures Valid()
      ensures quotes == map[] && shards == map[] && hidden == map[] && votes == map[]
      ensures reports == map[] && favorites == {}
      ensures nextQuoteId == 1 && nextReportId == 1
    {
      quotes, shards, hidden, votes := map[], map[], map[], map[];
      reports, favorites := map[], {};
      nextQuoteId, nextReportId := 1, 1;
    }

    /**
     * Quote `id` is exactly as `create_quote` leaves it: submitted by
     * `submitter` at `now`, shards 1..n holding the request's shards in
     * order, and no hide, vote or favourite yet.
     */
    ghost predicate JustCreated(id: int, submitter: Uid, newShards: seq<NewShard>, now: int)
      reads this
    {
      Created(quotes, shards, hidden, votes, favorites, id, submitter, newShards, now)
    }

    /** `user` speaks in some shard of quote `id`. */
    predicate IsSpeaker(id: int, user: Uid)
      reads this
    {
      exists k | k in shards :: k.0 == id && shards[k].speaker == user
    }

    /** `user` submitted quote `id` or speaks in it. */
    predicate Involved(id: int, user: Uid)
      reads this
      requires id in quotes
    {
      quotes[id].submitter == user || IsSpeaker(id, user)
    }

    /** The condition `hide_quote_by_id` inserts under: the quote exists and the caller is privileged or quoted in it. */
    predicate HideEligible(id: int, user: Uid, privileged: bool)
      reads this
    {
      id in quotes && (privileged || IsSpeaker(id, user))
    }

    /** What `hide_quote_by_id` answers. */
    function HideVerdict(id: int, user: Uid, privileged: bool): Outcome
      reads this
    {
      if !HideEligible(id, user, privileged) then Rejected(NotQuotedOrMissing)
      else if id in hidden then Failed(UniqueViolation)
      else Done
    }

    /** Some report about quote `id` already carries this reporter's digest. */
    predicate AlreadyReported(id: int, reporter: Digest)
      reads this
    {
      exists r | r in reports :: reports[r].quoteId == id && reports[r].reporter == reporter
    }

    /** The quotes a caller may vote on or withdraw a vote from: every quote when privileged, else unhidden ones. */
    predicate VoteTarget(id: int, privileged: bool)
      reads this
    {
      id in quotes && (privileged || id !in hidden)
    }

    /** The open reports about quote `id`. */
    function OpenReports(id: int): set<int>
      reads this
    {
      set r | r in reports && OpenOn(reports, r, id)
    }

    /** The open report about quote `id` with the smallest id at least `from`, if any. */
    function FirstOpenFrom(id: int, from: int): (r: Option<int>)
      reads this
      decreases nextReportId - from
      ensures r.Some? ==> from <= r.value && OpenOn(reports, r.value, id)
      ensures r.Some? ==> forall k :: from <= k < r.value ==> !OpenOn(reports, k, id)
      ensures r.None? ==> forall k :: from <= k < nextReportId ==> !OpenOn(reports, k, id)
    {
      if from >= nextReportId then None
      else if OpenOn(reports, from, id) then Some(from)
      else FirstOpenFrom(id, from + 1)
    }

    /** One row of the quote queries: shard `index` of quote `id`, as seen by `viewer`. */
    function RowOf(id: int, index: int, viewer: Uid): QuoteShard
      reads this
      requires id in quotes && (id, index) in shards
    {
      QuoteShard(id, index, quotes[id].submitter, quotes[id].timestamp,
                 shards[(id, index)].body, shards[(id, index)].speaker,
                 if id in hidden then Some(hidden[id].reason) else None,
                 if id in hidden then Some(hidden[id].actor) else None,
                 VoteOf(votes, id, viewer), Score(votes, id), (id, viewer) in favorites)
    }

    /** The rows of quote `id` from shard `from` on, in index order, up to the first missing index. */
    function ShardRows(id: int, from: nat, viewer: Uid): seq<QuoteShard>
      reads this
      requires id in quotes && 1 <= from
      decreases MAX_SHARDS + 1 - from
    {
      if from > MAX_SHARDS || (id, from) !in shards then []
      else [RowOf(id, from, viewer)] + ShardRows(id, from + 1, viewer)
    }

    /** The rows of quote `id`, ordered by shard index. */
    function QuoteRows(id: int, viewer: Uid): seq<QuoteShard>
      reads this
      requires id in quotes
    {
      ShardRows(id, 1, viewer)
    }

    /** The rows of the single-quote query: the quote's rows when it exists and is visible to the caller. */
    function SingleGetRows(id: int, viewer: Uid, privileged: bool): seq<QuoteShard>
      reads this
    {
      if id in quotes && SingleGetVisible(privileged, id in hidden, Involved(id, viewer))
      then QuoteRows(id, viewer) else []
    }

    /** The quote ids below `n`, newest first. */
    function IdsBelow(n: int): (ids: seq<int>)
      reads this
      decreases n
      ensures |ids| <= if n > 1 then n - 1 else 0
      ensures forall i :: 0 <= i < |ids| ==> ids[i] in quotes && ids[i] < n
    {
      if n <= 1 then []
      else if n - 1 in quotes then [n - 1] + IdsBelow(n - 1)
      else IdsBelow(n - 1)
    }

    /** Some shard of quote `id` matches the search term and the speaker filter, both at once. */
    predicate ShardMatches(id: int, q: Option<string>, speaker: Option<Uid>)
      reads this
    {
      exists k | k in shards ::
        && k.0 == id
        && (q.None? || Contains(shards[k].body, q.value))
        && (speaker.None? || shards[k].speaker == speaker.value)
    }

    /** The listing query's selection condition for quote `id`. */
    predicate ListingMatches(id: int, viewer: Uid, privileged: bool, p: FetchParams)
      reads this
      requires id in quotes
    {
      && ListingHiddenFilter(p.hidden, privileged, id in hidden, Involved(id, viewer))
      && BelowCursor(id, p.lt)
      && (p.submitter.None? || quotes[id].submitter == p.submitter.value)
      && (p.involved.None? || Involved(id, p.involved.value))
      && ShardMatches(id, p.q, p.speaker)
      && (p.favorited != Some(true) || (id, viewer) in favorites)
    }

    /** The ids of `ids` that the listing selects, in their order. */
    function Matching(ids: seq<int>, viewer: Uid, privileged: bool, p: FetchParams): (m: seq<int>)
      reads this
      requires forall i :: 0 <= i < |ids| ==> ids[i] in quotes
      ensures |m| <= |ids|
      ensures forall i :: 0 <= i < |m| ==> m[i] in ids && m[i] in quotes && ListingMatches(m[i], viewer, privileged, p)
      ensures forall i :: 0 <= i < |ids| && ListingMatches(ids[i], viewer, privileged, p) ==> ids[i] in m
    {
      if ids == [] then []
      else
        var rest := Matching(ids[1..], viewer, privileged, p);
        assert forall i :: 1 <= i < |ids| ==> ids[i] == ids[1..][i - 1];
        (if ListingMatches(ids[0], viewer, privileged, p) then [ids[0]] else []) + rest
    }

    /** The ids the listing returns: the matching quotes, newest first, cut at the limit. */
    function Listed(viewer: Uid, privileged: bool, p: FetchParams): seq<int>
      reads this
      requires EffectiveLimit(p.limit) >= 0
    {
      Take(Matching(IdsBelow(nextQuoteId), viewer, privileged, p), EffectiveLimit(p.limit))
    }

    /** The rows of the listing query: the rows of each listed quote, quote after quote. */
    function ListingRows(ids: seq<int>, viewer: Uid): seq<QuoteShard>
      reads this
      requires forall i :: 0 <= i < |ids| ==> ids[i] in quotes
    {
      Concat(seq(|ids|, k requires 0 <= k < |ids| && ids[k] in quotes reads this => QuoteRows(ids[k], viewer)))
    }

    /** The rows of report `from` onwards about quote `q` that are open, by report id. */
    function OpenReportRowsOf(q: int, from: int): seq<ReportedQuoteShard>
      reads this
      requires q in quotes
      decreases nextReportId - from
    {
      if from >= nextReportId then []
      else
        (if OpenOn(reports, from, q)
         then [ReportedQuoteShard(q, quotes[q].submitter, quotes[q].timestamp, q in hidden,
                                  reports[from].timestamp, from, reports[from].reason, reports[from].resolver)]
         else [])
        + OpenReportRowsOf(q, from + 1)
    }

    /** The rows of the open-reports query from quote `from` on: by quote id, then by report id. */
    function OpenReportRows(from: int): seq<ReportedQuoteShard>
      reads this
      decreases nextQuoteId - from
    {
      if from >= nextQuoteId then []
      else (if from in quotes then OpenReportRowsOf(from, 1) else []) + OpenReportRows(from + 1)
    }

    /** Checks the shards of a new quote in order and returns the first refusal. */
    method CheckShards(newShards: seq<NewShard>, quotable: set<Uid>, validName: Uid -> bool, submitter: Uid)
      returns (e: Option<Rejection>)
      ensures e == FirstShardFailure(newShards, quotable, validName, submitter)
    {
      var i := 0;
      while i < |newShards|
        invariant 0 <= i <= |newShards|
        invariant FirstShardFailure(newShards, quotable, validName, submitter)
                  == FirstShardFailure(newShards[i..], quotable, validName, submitter)
      {
        var s := newShards[i];
        assert newShards[i..][1..] == newShards[i + 1..];
        if s.speaker !in quotable {
          return Some(UnquotableSpeaker);
        }
        if !validName(s.speaker) {
          return Some(BadSpeakerFormat);
        }
        if submitter == s.speaker {
          return Some(SelfQuote);
        }
        i := i + 1;
      }
      return None;
    }

    /** The two inserts of a quote creation: the quote under the next id, then its shards numbered from 1. */
    method InsertQuote(submitter: Uid, newShards: seq<NewShard>, now: int)
      requires Valid()
      requires 1 <= |newShards| <= MAX_SHARDS && nextQuoteId <= I32_MAX
      requires forall i :: 0 <= i < |newShards| ==> newShards[i].speaker != submitter
      modifies this
      ensures Valid()
      ensures old(nextQuoteId) !in old(quotes)
      ensures quotes == old(quotes)[old(nextQuoteId) := QuoteRecord(submitter, now)]
      ensures shards == old(shards) + IndexedShards(old(nextQuoteId), newShards)
      ensures nextQuoteId == old(nextQuoteId) + 1
      ensures hidden == old(hidden) && votes == old(votes) && reports == old(reports)
      ensures favorites == old(favorites) && nextReportId == old(nextReportId)
    {
      var id := nextQuoteId;
      quotes := quotes[id := QuoteRecord(submitter, now)];
      shards := shards + IndexedShards(id, newShards);
      nextQuoteId := id + 1;
      InsertKeepsValid(old(quotes), old(shards), hidden, votes, reports, favorites, id, nextReportId,
                       submitter, now, newShards, quotes, shards);
    }

    /**
     * `create_quote`: validates the request against the directory, then adds
     * the quote under the next id with its shards numbered from 1.
     */
    method CreateQuote(submitter: Uid, newShards: seq<NewShard>, quotable: Option<set<Uid>>,
                       members: Option<set<Uid>>, validName: Uid -> bool, now: int) returns (o: Outcome)
      requires Valid()
      modifies this
      ensures Valid()
      ensures o == CreateVerdict(submitter, newShards, quotable, members, validName, old(nextQuoteId))
      ensures o.Done? ==>
                && old(nextQuoteId) !in old(quotes)
                && quotes == old(quotes)[old(nextQuoteId) := QuoteRecord(submitter, now)]
                && shards == old(shards) + IndexedShards(old(nextQuoteId), newShards)
                && nextQuoteId == old(nextQuoteId) + 1
                && hidden == old(hidden) && votes == old(votes) && reports == old(reports)
                && favorites == old(favorites) && nextReportId == old(nextReportId)
      ensures o.Done? ==> JustCreated(old(nextQuoteId), submitter, newShards, now)
      ensures !o.Done? ==> unchanged(this)
    {
      if |newShards| == 0 {
        return Rejected(NoShards);
      }
      if |newShards| > MAX_SHARDS {
        return Rejected(TooManyShards);
      }
      if quotable.None? {
        return Failed(DirectoryUnavailable);
      }
      var refusal := CheckShards(newShards, quotable.value, validName, submitter);
      if refusal.Some? {
        return Rejected(refusal.value);
      }
      if !validName(submitter) {
        return Rejected(BadSubmitterFormat);
      }
      if members.None? {
        return Failed(DirectoryUnavailable);
      }
      if !(Participants(newShards, submitter) <= members.value) {
        return Rejected(UnknownUsers);
      }
      if nextQuoteId > I32_MAX {
        return Failed(IdsExhausted);
      }
      forall i | 0 <= i < |newShards|
        ensures newShards[i].speaker != submitter
      {
        assert ShardVerdict(newShards[i], quotable.value, validName, submitter).None?;
      }
      InsertCreates(quotes, shards, hidden, votes, reports, favorites, nextQuoteId, nextReportId,
                    submitter, now, newShards);
      InsertQuote(submitter, newShards, now);
      return Done;
    }

    /** `delete_quote`: the submitter deletes their quote, and every row that refers to it goes too. */
    method DeleteQuote(id: int, user: Uid) returns (o: Outcome)
      requires Valid()
      modifies this
      ensures Valid()
      ensures o == if id in old(quotes) && old(quotes)[id].submitter == user then Done else Rejected(NotYoursOrMissing)
      ensures o.Done? ==>
                && quotes == old(quotes) - {id}
                && shards == DropShards(old(shards), id)
                && hidden == old(hidden) - {id}
                && votes == DropVotes(old(votes), id)
                && reports == DropReports(old(reports), id)
                && favorites == DropFavorites(old(favorites), id)
                && nextQuoteId == old(nextQuoteId) && nextReportId == old(nextReportId)
      ensures !o.Done? ==> unchanged(this)
    {
      if id !in quotes || quotes[id].submitter != user {
        return Rejected(NotYoursOrMissing);
      }
      quotes := quotes - {id};
      shards := DropShards(shards, id);
      hidden := hidden - {id};
      votes := DropVotes(votes, id);
      reports := DropReports(reports, id);
      favorites := DropFavorites(favorites, id);
      DeleteKeepsValid(old(quotes), old(shards), old(hidden), old(votes), old(reports), old(favorites),
                       nextQuoteId, nextReportId, id, quotes, shards, hidden, votes, reports, favorites);
      return Done;
    }

    /**
     * `hide_quote_by_id`: records the hide when the quote exists and the
     * caller is privileged or quoted in it; a second hide of the same quote
     * violates the key of `hidden`.
     */
    method HideQuoteById(id: int, user: Uid, reason: string, privileged: bool) returns (o: Outcome)
      requires Valid()
      modifies this
      ensures Valid()
      ensures o == old(HideVerdict(id, user, privileged))
      ensures o.Done? ==>
                && hidden == old(hidden)[id := HiddenRecord(reason, user)]
                && quotes == old(quotes) && shards == old(shards) && votes == old(votes)
                && reports == old(reports) && favorites == old(favorites)
                && nextQuoteId == old(nextQuoteId) && nextReportId == old(nextReportId)
      ensures !o.Done? ==> unchanged(this)
    {
      var eligible := id in quotes && (privileged || IsSpeaker(id, user));
      if !eligible {
        return Rejected(NotQuotedOrMissing);
      }
      if id in hidden {
        return Failed(UniqueViolation);
      }
      hidden := hidden[id := HiddenRecord(reason, user)];
      return Done;
    }

    /** `hide_quote`: a reason shorter than ten bytes is refused before anything else. */
    method HideQuote(id: int, user: Uid, reason: string, privileged: bool) returns (o: Outcome)
      requires Valid()
      modifies this
      ensures Valid()
      ensures Utf8Len(reason) < 10 ==> o == Rejected(ReasonTooShort)
      ensures Utf8Len(reason) >= 10 ==> o == old(HideVerdict(id, user, privileged))
      ensures o.Done? ==>
                && hidden == old(hidden)[id := HiddenRecord(reason, user)]
                && quotes == old(quotes) && shards == old(shards) && votes == old(votes)
                && reports == old(reports) && favorites == old(favorites)
                && nextQuoteId == old(nextQuoteId) && nextReportId == old(nextReportId)
      ensures !o.Done? ==> unchanged(this)
    {
      if Utf8Len(reason) < 10 {
        return Rejected(ReasonTooShort);
      }
      o := HideQuoteById(id, user, reason, privileged);
    }

    /**
     * `report_quote`: files a report against an existing unhidden quote
     * unless this reporter already reported it.
     */
    method ReportQuote(id: int, reporter: Digest, reason: string, now: int) returns (o: Outcome)
      requires Valid()
      modifies this
      ensures Valid()
      ensures o == if old(id in quotes && id !in hidden && !AlreadyReported(id, reporter))
                   then Done else Rejected(AlreadyReportedOrMissing)
      ensures o.Done? ==>
                && old(nextReportId) !in old(reports)
                && reports == old(reports)[old(nextReportId) := Report(id, reporter, reason, now, None)]
                && nextReportId == old(nextReportId) + 1
                && quotes == old(quotes) && shards == old(shards) && hidden == old(hidden)
                && votes == old(votes) && favorites == old(favorites) && nextQuoteId == old(nextQuoteId)
      ensures !o.Done? ==> unchanged(this)
    {
      if id !in quotes || id in hidden {
        return Rejected(AlreadyReportedOrMissing);
      }
      var taken := exists r | r in reports :: reports[r].quoteId == id && reports[r].reporter == reporter;
      if taken {
        return Rejected(AlreadyReportedOrMissing);
      }
      var rid := nextReportId;
      reports := reports[rid := Report(id, reporter, reason, now, None)];
      nextReportId := rid + 1;
      return Done;
    }

    /** `vote_quote`: sets the caller's vote on the quote, replacing any earlier one. */
    method VoteQuote(id: int, voter: Uid, kind: VoteKind, privileged: bool) returns (o: Outcome)
      requires Valid()
      modifies this
      ensures Valid()
      ensures o == if old(VoteTarget(id, privileged)) then Done else Rejected(QuoteMissing)
      ensures o.Done? ==>
                && votes == old(votes)[(id, voter) := kind]
                && quotes == old(quotes) && shards == old(shards) && hidden == old(hidden)
                && reports == old(reports) && favorites == old(favorites)
                && nextQuoteId == old(nextQuoteId) && nextReportId == old(nextReportId)
      ensures !o.Done? ==> unchanged(this)
    {
      if id !in quotes || (!privileged && id in hidden) {
        return Rejected(QuoteMissing);
      }
      votes := votes[(id, voter) := kind];
      return Done;
    }

    /** `unvote_quote`: removes the caller's vote; no vote to remove is reported as a missing quote. */
    method UnvoteQuote(id: int, voter: Uid, privileged: bool) returns (o: Outcome)
      requires Valid()
      modifies this
      ensures Valid()
      ensures o == if old(VoteTarget(id, privileged) && (id, voter) in votes) then Done else Rejected(QuoteMissing)
      ensures o.Done? ==>
                && votes == old(votes) - {(id, voter)}
                && quotes == old(quotes) && shards == old(shards) && hidden == old(hidden)
                && reports == old(reports) && favorites == old(favorites)
                && nextQuoteId == old(nextQuoteId) && nextReportId == old(nextReportId)
      ensures !o.Done? ==> unchanged(this)
    {
      if id !in quotes || (!privileged && id in hidden) || (id, voter) !in votes {
        return Rejected(QuoteMissing);
      }
      votes := votes - {(id, voter)};
      return Done;
    }

    /**
     * `resolve_report`: marks every open report about the quote resolved by
     * the caller and, when asked to, hides the quote with the reason of the
     * report the update returned first (here: the one with the smallest id).
     * If the hide fails the resolution is rolled back as well. Only
     * administrators reach the handler (or anyone when security is off),
     * so the caller is always privileged.
     */
    method ResolveReport(id: int, user: Uid, privileged: bool, alsoHide: Option<bool>) returns (o: Outcome)
      requires Valid() && privileged
      modifies this
      ensures Valid()
      ensures o.Done? ==> OpenReports(id) == {}
      ensures old(OpenReports(id)) == {} ==> o == Rejected(AlreadyResolvedOrMissing)
      ensures old(OpenReports(id)) != {} && alsoHide != Some(true) ==> o == Done
      ensures old(OpenReports(id)) != {} && alsoHide == Some(true) ==> o == old(HideVerdict(id, user, privileged))
      ensures o.Done? ==> old(FirstOpenFrom(id, 1)).Some? && reports == ResolveAll(old(reports), id, user)
      ensures o.Done? && alsoHide == Some(true) ==>
                hidden == old(hidden)[id := HiddenRecord(old(reports)[old(FirstOpenFrom(id, 1)).value].reason, user)]
      ensures o.Done? && alsoHide != Some(true) ==> hidden == old(hidden)
      ensures o.Done? ==>
                && quotes == old(quotes) && shards == old(shards) && votes == old(votes)
                && favorites == old(favorites) && nextQuoteId == old(nextQuoteId) && nextReportId == old(nextReportId)
      ensures !o.Done? ==> unchanged(this)
    {
      var first := FirstOpenFrom(id, 1);
      if first.None? {
        assert OpenReports(id) == {} by {
          forall r | r in reports
            ensures !OpenOn(reports, r, id)
          {
          }
        }
        return Rejected(AlreadyResolvedOrMissing);
      }
      assert first.value in OpenReports(id);
      var reason := reports[first.value].reason;
      var before := reports;
      reports := ResolveAll(reports, id, user);
      ResolveKeepsValid(quotes, shards, hidden, votes, before, favorites, nextQuoteId, nextReportId, id, user, reports);
      assert OpenReports(id) == {} by {
        forall r | r in reports
          ensures !OpenOn(reports, r, id)
        {
          ResolveAllCloses(before, id, user, r, id);
        }
      }
      if alsoHide == Some(true) {
        o := HideQuoteById(id, user, reason, privileged);
        if !o.Done? {
          reports := before;
          return;
        }
      }
      return Done;
    }

    /** `favorite_quote`: a plain insert, so a missing quote or a repeated favorite is a constraint violation. */
    method FavoriteQuote(id: int, user: Uid) returns (o: Outcome)
      requires Valid()
      modifies this
      ensures Valid()
      ensures o == if old(id !in quotes) then Failed(ForeignKeyViolation)
                   else if old((id, user) in favorites) then Failed(UniqueViolation)
                   else Done
      ensures o.Done? ==>
                && favorites == old(favorites) + {(id, user)}
                && quotes == old(quotes) && shards == old(shards) && hidden == old(hidden)
                && votes == old(votes) && reports == old(reports)
                && nextQuoteId == old(nextQuoteId) && nextReportId == old(nextReportId)
      ensures !o.Done? ==> unchanged(this)
    {
      if id !in quotes {
        return Failed(ForeignKeyViolation);
      }
      if (id, user) in favorites {
        return Failed(UniqueViolation);
      }
      favorites := favorites + {(id, user)};
      return Done;
    }

    /** `unfavorite_quote`: removes the caller's favorite of the quote. */
    method UnfavoriteQuote(id: int, user: Uid) returns (o: Outcome)
      requires Valid()
      modifies this
      ensures Valid()
      ensures o == if old((id, user) in favorites) then Done else Rejected(NotFavorited)
      ensures o.Done? ==>
                && favorites == old(favorites) - {(id, user)}
                && quotes == old(quotes) && shards == old(shards) && hidden == old(hidden)
                && votes == old(votes) && reports == old(reports)
                && nextQuoteId == old(nextQuoteId) && nextReportId == old(nextReportId)
      ensures !o.Done? ==> unchanged(this)
    {
      if (id, user) !in favorites {
        return Rejected(NotFavorited);
      }
      favorites := favorites - {(id, user)};
      return Done;
    }

    /**
     * `get_quote`: no rows is a 404; otherwise the rows are reconstructed and
     * the first quote is returned (the handler panics when there is none).
     */
    method GetQuote(id: int, viewer: Uid, privileged: bool, directory: Option<seq<DirectoryUser>>)
      returns (r: Fetched<QuoteResponse>)
      ensures SingleGetRows(id, viewer, privileged) == [] ==> r == NotFound
      ensures SingleGetRows(id, viewer, privileged) != [] && directory.None? ==> r == QueryFailed(DirectoryUnavailable)
      ensures SingleGetRows(id, viewer, privileged) != [] && directory.Some? ==>
                r == FirstQuote(Reconstruct(SingleGetRows(id, viewer, privileged), NamesOf(directory.value)))
    {
      var rows := SingleGetRows(id, viewer, privileged);
      if rows == [] {
        return NotFound;
      }
      var built := ShardsToQuotes(rows, directory);
      r := FirstQuote(built);
    }

    /** `get_quotes`: a negative limit makes the query fail; otherwise the listed quotes are reconstructed. */
    method GetQuotes(viewer: Uid, privileged: bool, p: FetchParams, directory: Option<seq<DirectoryUser>>)
      returns (r: Fetched<seq<QuoteResponse>>)
      ensures EffectiveLimit(p.limit) < 0 ==> r == QueryFailed(NegativeLimit)
      ensures EffectiveLimit(p.limit) >= 0 && directory.None? ==> r == QueryFailed(DirectoryUnavailable)
      ensures EffectiveLimit(p.limit) >= 0 && directory.Some? ==>
                r == AllQuotes(Reconstruct(ListingRows(Listed(viewer, privileged, p), viewer), NamesOf(directory.value)))
    {
      var limit := EffectiveLimit(p.limit);
      if limit < 0 {
        return QueryFailed(NegativeLimit);
      }
      var ids := Listed(viewer, privileged, p);
      var built := ShardsToQuotes(ListingRows(ids, viewer), directory);
      r := AllQuotes(built);
    }

    /** `get_reports`: the open reports of existing quotes, one entry per quote. */
    method GetReports() returns (out: seq<ReportedQuoteResponse>)
      ensures forall k :: 0 <= k < |out| ==> out[k].quoteId in QuoteIds(OpenReportRows(1))
      ensures forall k :: 0 <= k < |out| ==> out[k].reports == ReportsFor(OpenReportRows(1), out[k].quoteId)
      ensures forall q :: q in QuoteIds(OpenReportRows(1)) ==> exists k :: 0 <= k < |out| && out[k].quoteId == q
      ensures forall k, l :: 0 <= k < l < |out| ==> out[k].quoteId != out[l].quoteId
    {
      out := FormatReports(OpenReportRows(1));
    }
  }
}
