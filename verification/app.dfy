/** The dashboard's in-memory state and the transitions its handlers perform. The outcome of
    each awaited service call, the identifiers the handlers generate and the current time are
    parameters of the transition that consumes them. */
module App {
  import opened Wrappers
  import opened Seqs
  import opened Text
  import opened Types
  import opened GeminiService

  /** Everything the dashboard holds in component state. */
  datatype AppState = AppState(
    view: AppView,
    query: string,
    isLoading: bool,
    results: seq<VerificationResult>,
    trends: seq<string>,
    watchlist: seq<WatchTopic>)

  /** Number of results the dashboard's verification feed shows. */
  const FeedSize: nat := 3

  const FirstSeedTopic: string := "AI Regulation Act 2025"
  const SecondSeedTopic: string := "Sustainable Aviation Fuel breakthroughs"

  /** The state on mount: dashboard view, nothing typed, no results, no trends yet, and two
      seeded watch topics stamped with the mount time. */
  function Initial(now: string): (s: AppState)
    ensures s.view == Dashboard && s.query == [] && !s.isLoading
    ensures s.results == [] && s.trends == []
    ensures |s.watchlist| == 2
    ensures s.watchlist[0].id == "1" && s.watchlist[0].status == Monitoring
    ensures s.watchlist[1].id == "2" && s.watchlist[1].status == Idle
    ensures forall k :: 0 <= k < |s.watchlist| ==> s.watchlist[k].lastUpdated == now
  {
    AppState(Dashboard, "", false, [], [], [
      WatchTopic("1", FirstSeedTopic, now, Monitoring),
      WatchTopic("2", SecondSeedTopic, now, Idle)])
  }

  // ---------------------------------------------------------------------------------------
  // handleVerify

  /** `customQuery || query`: the topic handed in by a watchlist refresh when there is a
      non-empty one, otherwise what the user typed. */
  function EffectiveQuery(customQuery: Option<string>, query: string): (r: string)
    ensures customQuery.Some? && customQuery.value != [] ==> r == customQuery.value
    ensures customQuery.None? || customQuery.value == [] ==> r == query
  {
    Or(customQuery, query)
  }

  /** `handleVerify(e, customQuery)` once its request has settled with `outcome`, the value
      or the error of `verifySignal(finalQuery)`. A blank effective query makes no request
      and changes nothing. A successful request files the new result first, clears the input
      and opens the verification view; a failed one changes only the loading flag, which is
      off after either outcome. */
  function HandleVerify(s: AppState, customQuery: Option<string>, outcome: Result<VerificationResult, VerificationFailure>)
    : (r: AppState)
    ensures IsBlank(EffectiveQuery(customQuery, s.query)) ==> r == s
    ensures !IsBlank(EffectiveQuery(customQuery, s.query)) ==> !r.isLoading
    ensures !IsBlank(EffectiveQuery(customQuery, s.query)) && outcome.Failure? ==>
      r == s.(isLoading := false)
    ensures !IsBlank(EffectiveQuery(customQuery, s.query)) && outcome.Success? ==>
      && r.results == [outcome.value] + s.results
      && r.query == [] && r.view == Verify
      && r.trends == s.trends && r.watchlist == s.watchlist
  {
    if IsBlank(EffectiveQuery(customQuery, s.query)) then s
    else
      match outcome
      case Success(result) =>
        s.(results := [result] + s.results, query := "", view := Verify, isLoading := false)
      case Failure(_) => s.(isLoading := false)
  }

  /** The request `handleVerify` makes: `verifySignal(finalQuery)` with the default category,
      settled by `exchange`, with the identifier and time the client generates. */
  function Verification(s: AppState, customQuery: Option<string>, exchange: Exchange, id: string, now: string)
    : (r: Result<VerificationResult, VerificationFailure>)
    ensures r.Failure? <==> exchange.TransportFailed?
    ensures r.Success? ==>
      && r.value.query == EffectiveQuery(customQuery, s.query) && r.value.category == DefaultCategory
      && r.value.id == id && r.value.timestamp == now
      && r.value.analysis == AnalysisText(exchange.response)
      && WellFormedResult(r.value)
  {
    VerifySignal(EffectiveQuery(customQuery, s.query), DefaultCategory, exchange, id, now)
  }

  /** A verification that went through files the parse of the reply to the effective query,
      under the default category, and the result is well-formed. */
  lemma VerifiedQueryFiled(s: AppState, customQuery: Option<string>, exchange: Exchange, id: string, now: string)
    requires !IsBlank(EffectiveQuery(customQuery, s.query)) && exchange.Delivered?
    ensures var r := HandleVerify(s, customQuery, Verification(s, customQuery, exchange, id, now));
      && |r.results| == |s.results| + 1 && r.results[1..] == s.results
      && r.results[0].query == EffectiveQuery(customQuery, s.query)
      && r.results[0].category == DefaultCategory
      && r.results[0].id == id && r.results[0].timestamp == now
      && r.results[0].analysis == AnalysisText(exchange.response)
      && WellFormedResult(r.results[0])
  {
    var outcome := Verification(s, customQuery, exchange, id, now);
    assert outcome.Success?;
    var r := HandleVerify(s, customQuery, outcome);
    assert r.results == [outcome.value] + s.results;
  }

  // ---------------------------------------------------------------------------------------
  // Watchlist

  /** `addToWatchlist(topic)` with the identifier and time it would generate: a blank topic is
      ignored; any other is filed first, as typed and marked as monitored. */
  function AddToWatchlist(s: AppState, topic: string, id: string, now: string): (r: AppState)
    ensures IsBlank(topic) ==> r == s
    ensures !IsBlank(topic) ==>
      && |r.watchlist| == |s.watchlist| + 1
      && r.watchlist[0] == WatchTopic(id, topic, now, Monitoring)
      && r.watchlist[1..] == s.watchlist
      && r == s.(watchlist := r.watchlist)
  {
    if IsBlank(topic) then s
    else s.(watchlist := [WatchTopic(id, topic, now, Monitoring)] + s.watchlist)
  }

  /** The entries whose identifier is not `id`. */
  function WithoutId(watchlist: seq<WatchTopic>, id: string): (r: seq<WatchTopic>)
    ensures forall k :: 0 <= k < |r| ==> r[k].id != id
    ensures forall t :: t in r ==> t in watchlist
  {
    Filter(watchlist, (t: WatchTopic) => t.id != id)
  }

  /** `removeFromWatchlist(id)`: every entry with that identifier goes; the others stay, each
      as often as before and in their order. Nothing else changes. */
  function RemoveFromWatchlist(s: AppState, id: string): (r: AppState)
    ensures forall k :: 0 <= k < |r.watchlist| ==> r.watchlist[k].id != id
    ensures forall t: WatchTopic :: t.id != id ==> multiset(r.watchlist)[t] == multiset(s.watchlist)[t]
    ensures IsSubsequence(r.watchlist, s.watchlist)
    ensures r == s.(watchlist := r.watchlist)
  {
    var keep := (t: WatchTopic) => t.id != id;
    forall t: WatchTopic | t.id != id
      ensures multiset(Filter(s.watchlist, keep))[t] == multiset(s.watchlist)[t]
    {
      FilterMultiset(s.watchlist, keep, t);
    }
    FilterIsSubsequence(s.watchlist, keep);
    s.(watchlist := WithoutId(s.watchlist, id))
  }

  /** Removing an identifier no entry has leaves the watchlist as it was. */
  lemma RemoveAbsentIsNoop(s: AppState, id: string)
    requires forall k :: 0 <= k < |s.watchlist| ==> s.watchlist[k].id != id
    ensures RemoveFromWatchlist(s, id) == s
  {
    FilterAllKept(s.watchlist, (t: WatchTopic) => t.id != id);
  }

  /** Removing the same identifier twice is removing it once. */
  lemma RemoveIdempotent(s: AppState, id: string)
    ensures RemoveFromWatchlist(RemoveFromWatchlist(s, id), id) == RemoveFromWatchlist(s, id)
  {
    RemoveAbsentIsNoop(RemoveFromWatchlist(s, id), id);
  }

  /** Adding a topic and then removing its identifier is the same as removing the identifier
      alone; if no entry had it before, the watchlist is back where it started. */
  lemma RemoveUndoesAdd(s: AppState, topic: string, id: string, now: string)
    ensures RemoveFromWatchlist(AddToWatchlist(s, topic, id, now), id) == RemoveFromWatchlist(s, id)
    ensures (forall k :: 0 <= k < |s.watchlist| ==> s.watchlist[k].id != id) ==>
      RemoveFromWatchlist(AddToWatchlist(s, topic, id, now), id) == s
  {
    var keep := (t: WatchTopic) => t.id != id;
    if !IsBlank(topic) {
      var added := AddToWatchlist(s, topic, id, now).watchlist;
      FilterAppend([added[0]], s.watchlist, keep);
      assert added == [added[0]] + s.watchlist;
    }
    if forall k :: 0 <= k < |s.watchlist| ==> s.watchlist[k].id != id {
      RemoveAbsentIsNoop(s, id);
    }
  }

  /** Removing one identifier keeps every entry with another identifier in place relative to
      the rest: removals of two identifiers commute. */
  lemma RemovalsCommute(s: AppState, a: string, b: string)
    ensures RemoveFromWatchlist(RemoveFromWatchlist(s, a), b) == RemoveFromWatchlist(RemoveFromWatchlist(s, b), a)
  {
    RemovalsCommuteOn(s.watchlist, a, b);
  }

  lemma {:induction false} RemovalsCommuteOn(w: seq<WatchTopic>, a: string, b: string)
    ensures WithoutId(WithoutId(w, a), b) == WithoutId(WithoutId(w, b), a)
    decreases |w|
  {
    if |w| > 0 {
      RemovalsCommuteOn(w[1..], a, b);
    }
  }

  // ---------------------------------------------------------------------------------------
  // History, feed and trends

  /** The history screen's Clear Logs button: the results go, nothing else changes. */
  function ClearLogs(s: AppState): (r: AppState)
    ensures r.results == []
    ensures r == s.(results := [])
  {
    s.(results := [])
  }

  /** The dashboard's verification feed: the newest results, at most three of them. */
  function Feed(s: AppState): (r: seq<VerificationResult>)
    ensures |r| == Min(FeedSize, |s.results|)
    ensures r <= s.results
  {
    Take(s.results, FeedSize)
  }

  /** After a successful verification the feed leads with the new result, followed by the two
      newest of the earlier ones. */
  lemma FeedAfterVerify(s: AppState, customQuery: Option<string>, result: VerificationResult)
    requires !IsBlank(EffectiveQuery(customQuery, s.query))
    ensures Feed(HandleVerify(s, customQuery, Success(result))) == [result] + Take(s.results, FeedSize - 1)
  {
    var r := HandleVerify(s, customQuery, Success(result));
    assert r.results == [result] + s.results;
  }

  /** After Clear Logs the feed is empty. */
  lemma FeedEmptyAfterClear(s: AppState)
    ensures Feed(ClearLogs(s)) == []
  {
  }

  /** Clear Logs starts the history afresh: the next verification is the whole feed and the
      whole history, and the query it verifies is the one that was typed before the clear. */
  lemma VerifyAfterClear(s: AppState, customQuery: Option<string>, result: VerificationResult)
    requires !IsBlank(EffectiveQuery(customQuery, s.query))
    ensures var r := HandleVerify(ClearLogs(s), customQuery, Success(result));
      r.results == [result] && Feed(r) == [result]
  {
    var c := ClearLogs(s);
    assert EffectiveQuery(customQuery, c.query) == EffectiveQuery(customQuery, s.query);
  }

  /** The mount effect: the trending list the service returned replaces the current one. The
      list is read with the bullet class the service evidently means to use, so that a `•`
      bullet is stripped. */
  function LoadTrends(s: AppState, exchange: Exchange): (r: AppState)
    ensures |r.trends| <= MaxTrends
    ensures forall k :: 0 <= k < |r.trends| ==> IsTrendPhrase(r.trends[k])
    ensures exchange.TransportFailed? || exchange.response.text.None? ==> r.trends == TrendFallback
    ensures exchange.Delivered? && exchange.response.text.Some? ==>
      r.trends == TrendsFromText(IntendedMarkers, exchange.response.text.value)
    ensures r == s.(trends := r.trends)
  {
    s.(trends := IntendedTrendingSignals(exchange))
  }

  /** Clicking a trend on the dashboard: it becomes the query and the verification view
      opens; nothing is sent yet. */
  function SelectTrend(s: AppState, t: string): (r: AppState)
    ensures r.query == t && r.view == Verify
    ensures r.results == s.results && r.watchlist == s.watchlist && r.trends == s.trends
    ensures r.isLoading == s.isLoading
  {
    s.(query := t, view := Verify)
  }

  // ---------------------------------------------------------------------------------------
  // Sessions

  /** One settled user action. Each carries what the handler receives or generates. */
  datatype Event =
    | Submit(customQuery: Option<string>, exchange: Exchange, id: string, now: string)
    | AddTopic(topic: string, id: string, now: string)
    | RemoveTopic(id: string)
    | ClearHistory
    | TrendsArrived(exchange: Exchange)
    | PickTrend(trend: string)
    | Navigate(view: AppView)
    | Type(text: string)

  /** One settled action. Only a verification and Clear Logs touch the results, only the
      watchlist handlers touch the watchlist, only the mount effect touches the trends;
      navigating sets the view and typing sets the query, and nothing else. */
  function Step(s: AppState, e: Event): (r: AppState)
    ensures !e.Submit? && !e.ClearHistory? ==> r.results == s.results
    ensures !e.AddTopic? && !e.RemoveTopic? ==> r.watchlist == s.watchlist
    ensures !e.TrendsArrived? ==> r.trends == s.trends
    ensures e.Navigate? ==> r == s.(view := e.view)
    ensures e.Type? ==> r == s.(query := e.text)
  {
    match e
    case Submit(customQuery, exchange, id, now) =>
      HandleVerify(s, customQuery, Verification(s, customQuery, exchange, id, now))
    case AddTopic(topic, id, now) => AddToWatchlist(s, topic, id, now)
    case RemoveTopic(id) => RemoveFromWatchlist(s, id)
    case ClearHistory => ClearLogs(s)
    case TrendsArrived(exchange) => LoadTrends(s, exchange)
    case PickTrend(t) => SelectTrend(s, t)
    case Navigate(v) => s.(view := v)
    case Type(text) => s.(query := text)
  }

  function Run(s: AppState, events: seq<Event>): AppState
    decreases |events|
  {
    if |events| == 0 then s else Run(Step(s, events[0]), events[1..])
  }

  /** What holds between settled actions: nothing is loading, every filed result is a
      well-formed parse, every watched topic is non-blank, and the trending list is short and
      made of clean phrases. */
  predicate Settled(s: AppState) {
    && !s.isLoading
    && (forall k :: 0 <= k < |s.results| ==> WellFormedResult(s.results[k]))
    && (forall k :: 0 <= k < |s.watchlist| ==> !IsBlank(s.watchlist[k].topic))
    && |s.trends| <= MaxTrends
    && (forall k :: 0 <= k < |s.trends| ==> IsTrendPhrase(s.trends[k]))
  }

  lemma InitialIsSettled(now: string)
    ensures Settled(Initial(now))
  {
    var w := Initial(now).watchlist;
    SeedTopicsNonBlank();
    PairNonBlank(w[0], w[1]);
    assert w == [w[0], w[1]];
  }

  /** A two-entry watchlist whose topics are both non-blank has no blank topic. */
  lemma PairNonBlank(a: WatchTopic, b: WatchTopic)
    requires !IsBlank(a.topic) && !IsBlank(b.topic)
    ensures forall k :: 0 <= k < |[a, b]| ==> !IsBlank([a, b][k].topic)
  {
  }

  lemma SeedTopicsNonBlank()
    ensures !IsBlank(FirstSeedTopic) && !IsBlank(SecondSeedTopic)
  {
    NonBlankFirst(FirstSeedTopic);
    NonBlankFirst(SecondSeedTopic);
  }

  /** A string starting with a non-whitespace character is not blank. */
  lemma NonBlankFirst(s: string)
    requires |s| > 0 && !IsWhitespace(s[0])
    ensures !IsBlank(s)
  {
  }

  lemma StepKeepsSettled(s: AppState, e: Event)
    requires Settled(s)
    ensures Settled(Step(s, e))
  {
    if e.Submit? {
      SubmitKeepsSettled(s, e.customQuery, e.exchange, e.id, e.now);
    }
  }

  lemma SubmitKeepsSettled(s: AppState, customQuery: Option<string>, exchange: Exchange, id: string, now: string)
    requires Settled(s)
    ensures Settled(HandleVerify(s, customQuery, Verification(s, customQuery, exchange, id, now)))
  {
    var outcome := Verification(s, customQuery, exchange, id, now);
    if outcome.Success? {
      FiledResultKeepsSettled(s, customQuery, outcome.value);
    }
  }

  /** Filing a well-formed result keeps a settled state settled. */
  lemma FiledResultKeepsSettled(s: AppState, customQuery: Option<string>, result: VerificationResult)
    requires Settled(s) && WellFormedResult(result)
    ensures Settled(HandleVerify(s, customQuery, Success(result)))
  {
    var r := HandleVerify(s, customQuery, Success(result));
    if !IsBlank(EffectiveQuery(customQuery, s.query)) {
      assert r.results == [result] + s.results;
    }
  }

  /** Every session that starts settled stays settled after each action. */
  lemma {:induction false} RunKeepsSettled(s: AppState, events: seq<Event>)
    requires Settled(s)
    ensures Settled(Run(s, events))
    decreases |events|
  {
    if |events| > 0 {
      StepKeepsSettled(s, events[0]);
      RunKeepsSettled(Step(s, events[0]), events[1..]);
    }
  }

  /** `c` is what is left of `a` after some elements were put in front. */
  predicate IsSuffix<T(==)>(c: seq<T>, a: seq<T>) {
    |c| <= |a| && a[|a| - |c|..] == c
  }

  lemma SuffixTransitive<T>(c: seq<T>, b: seq<T>, a: seq<T>)
    requires IsSuffix(c, b) && IsSuffix(b, a)
    ensures IsSuffix(c, a)
  {
    assert a[|a| - |c|..] == a[|a| - |b|..][|b| - |c|..];
  }

  /** Without a Clear Logs, results are never lost or reordered: the history at the start is
      a suffix of the history at the end, and it grows by at most one result per action. */
  lemma {:induction false} HistoryOnlyGrows(s: AppState, events: seq<Event>)
    requires forall k :: 0 <= k < |events| ==> !events[k].ClearHistory?
    ensures IsSuffix(s.results, Run(s, events).results)
    ensures |Run(s, events).results| <= |s.results| + |events|
    decreases |events|
  {
    if |events| > 0 {
      var e := events[0];
      var rest := events[1..];
      var t := Step(s, e);
      StepHistory(s, e);
      HistoryOnlyGrows(t, rest);
      RunUnfolds(s, events, e, rest);
      SuffixTransitive(s.results, t.results, Run(t, rest).results);
    }
  }

  lemma RunUnfolds(s: AppState, events: seq<Event>, e: Event, rest: seq<Event>)
    requires |events| > 0 && e == events[0] && rest == events[1..]
    ensures Run(s, events) == Run(Step(s, e), rest)
  {
  }

  /** A single action other than Clear Logs adds at most one result, in front. */
  lemma StepHistory(s: AppState, e: Event)
    requires !e.ClearHistory?
    ensures IsSuffix(s.results, Step(s, e).results)
    ensures |Step(s, e).results| <= |s.results| + 1
  {
    if e.Submit? {
      var outcome := Verification(s, e.customQuery, e.exchange, e.id, e.now);
      var t := HandleVerify(s, e.customQuery, outcome);
      if !IsBlank(EffectiveQuery(e.customQuery, s.query)) && outcome.Success? {
        assert t.results == [outcome.value] + s.results;
      }
    }
  }
}
