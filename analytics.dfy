/**
  `backend/analytics/views.py`: chat events are logged through a validated JSON request,
  filtered by date, channel and outcome, summarized, and counted day by day.

  A queryset is the sequence of its rows. Dates are day numbers (an ISO date string
  orders like its day number); the parsing of the `start`/`end` query values into day
  numbers, `json.loads` and the database insert are parameters.
 */
module Analytics {
  import opened Wrappers
  import opened Strings
  import opened PyValue

  /** The fields of a `ChatEvent` the views filter and count by. */
  datatype Event = Event(day: int, channel: Text, success: bool)

  /** A view's answer: an error with its HTTP status, or the view's data. */
  datatype Reply<T> = Fail(status: int, error: Text) | Ok(value: T)

  function GET(): Text { Lit("GET") }
  function POST(): Text { Lit("POST") }
  function ALL(): Text { Lit("all") }
  function TRUE(): Text { Lit("true") }
  function FALSE(): Text { Lit("false") }

  lemma TrueIsNotFalse()
    ensures TRUE() != FALSE()
  {
    assert TRUE()[0] != FALSE()[0];
  }

  /* ---------------------------------------------------------------------------------
     `_filter_events` (lines 14-44)
     --------------------------------------------------------------------------------- */

  /** The four query parameters, `None` when absent. */
  datatype Query = Query(start: Option<Text>, end: Option<Text>, channel: Option<Text>, success: Option<Text>)

  /** `qs.filter(...)`: the rows that satisfy `p`, in their order. */
  function Keep(s: seq<Event>, p: Event -> bool): (r: seq<Event>)
    ensures |r| <= |s|
    ensures forall x :: x in r <==> x in s && p(x)
  {
    if s == [] then [] else (if p(s[0]) then [s[0]] else []) + Keep(s[1..], p)
  }

  /** Filtering twice is filtering once by both conditions. */
  lemma {:induction false} KeepKeep(s: seq<Event>, p: Event -> bool, q: Event -> bool, pq: Event -> bool)
    requires forall x :: pq(x) == (p(x) && q(x))
    ensures Keep(Keep(s, p), q) == Keep(s, pq)
  {
    if s != [] {
      KeepKeep(s[1..], p, q, pq);
      if p(s[0]) {
        assert Keep(s, p) == [s[0]] + Keep(s[1..], p);
        assert Keep(s, p)[0] == s[0] && Keep(s, p)[1..] == Keep(s[1..], p);
      } else {
        assert Keep(s, p) == Keep(s[1..], p);
      }
    }
  }

  /** Filtering by a condition every row meets keeps all rows. */
  lemma {:induction false} KeepEvery(s: seq<Event>, p: Event -> bool)
    requires forall x :: p(x)
    ensures Keep(s, p) == s
  {
    if s != [] {
      KeepEvery(s[1..], p);
    }
  }

  /** Filtering depends only on which rows the condition selects. */
  lemma {:induction false} KeepSame(s: seq<Event>, p: Event -> bool, q: Event -> bool)
    requires forall x :: p(x) == q(x)
    ensures Keep(s, p) == Keep(s, q)
  {
    if s != [] {
      KeepSame(s[1..], p, q);
    }
  }

  /** Every row meets `p` or its negation, never both. */
  lemma {:induction false} KeepPartition(s: seq<Event>, p: Event -> bool, notP: Event -> bool)
    requires forall x :: notP(x) == !p(x)
    ensures |Keep(s, p)| + |Keep(s, notP)| == |s|
  {
    if s != [] {
      KeepPartition(s[1..], p, notP);
    }
  }

  /** `if start:` and the like: a parameter given and not empty. */
  predicate Given(v: Option<Text>) {
    v.Some? && v.value != []
  }

  predicate AfterStart(e: Event, q: Query, parseDay: Text -> int) {
    Given(q.start) ==> e.day >= parseDay(q.start.value)
  }

  predicate BeforeEnd(e: Event, q: Query, parseDay: Text -> int) {
    Given(q.end) ==> e.day <= parseDay(q.end.value)
  }

  /** `if channel and channel != "all"` */
  predicate ChannelFilterOn(q: Query) {
    Given(q.channel) && q.channel.value != ALL()
  }

  predicate OnChannel(e: Event, q: Query) {
    ChannelFilterOn(q) ==> e.channel == q.channel.value
  }

  /** Only the exact values `"true"` and `"false"` filter by outcome. */
  predicate HasOutcome(e: Event, q: Query) {
    && (q.success == Some(TRUE()) ==> e.success)
    && (q.success == Some(FALSE()) ==> !e.success)
  }

  /** What a row must meet to be in the filtered queryset. */
  predicate Selected(e: Event, q: Query, parseDay: Text -> int) {
    AfterStart(e, q, parseDay) && BeforeEnd(e, q, parseDay) && OnChannel(e, q) && HasOutcome(e, q)
  }

  /** The filter steps in the view's order, each applied only when its parameter asks for it. */
  function FilterEvents(events: seq<Event>, q: Query, parseDay: Text -> int): seq<Event>
  {
    var qs := events;
    var qs := if Given(q.start) then Keep(qs, (e: Event) => e.day >= parseDay(q.start.value)) else qs;
    var qs := if Given(q.end) then Keep(qs, (e: Event) => e.day <= parseDay(q.end.value)) else qs;
    var qs := if ChannelFilterOn(q) then Keep(qs, (e: Event) => e.channel == q.channel.value) else qs;
    if q.success == Some(TRUE()) then Keep(qs, (e: Event) => e.success)
    else if q.success == Some(FALSE()) then Keep(qs, (e: Event) => !e.success)
    else qs
  }

  /** Filtering step by step is one filter by what `Selected` says. */
  lemma FilterEventsSelects(events: seq<Event>, q: Query, parseDay: Text -> int)
    ensures FilterEvents(events, q, parseDay) == Keep(events, (e: Event) => Selected(e, q, parseDay))
  {
    var s1 := (e: Event) => AfterStart(e, q, parseDay);
    var s2 := (e: Event) => AfterStart(e, q, parseDay) && BeforeEnd(e, q, parseDay);
    var s3 := (e: Event) => AfterStart(e, q, parseDay) && BeforeEnd(e, q, parseDay) && OnChannel(e, q);
    var s4 := (e: Event) => Selected(e, q, parseDay);
    var qs1 := if Given(q.start) then Keep(events, (e: Event) => e.day >= parseDay(q.start.value)) else events;
    if Given(q.start) {
      KeepSame(events, (e: Event) => e.day >= parseDay(q.start.value), s1);
    } else {
      KeepEvery(events, s1);
    }
    assert qs1 == Keep(events, s1);
    var qs2 := if Given(q.end) then Keep(qs1, (e: Event) => e.day <= parseDay(q.end.value)) else qs1;
    if Given(q.end) {
      KeepKeep(events, s1, (e: Event) => e.day <= parseDay(q.end.value), s2);
    } else {
      KeepSame(events, s1, s2);
    }
    assert qs2 == Keep(events, s2);
    var qs3 := if ChannelFilterOn(q) then Keep(qs2, (e: Event) => e.channel == q.channel.value) else qs2;
    if ChannelFilterOn(q) {
      KeepKeep(events, s2, (e: Event) => e.channel == q.channel.value, s3);
    } else {
      KeepSame(events, s2, s3);
    }
    assert qs3 == Keep(events, s3);
    TrueIsNotFalse();
    if q.success == Some(TRUE()) {
      KeepKeep(events, s3, (e: Event) => e.success, s4);
    } else if q.success == Some(FALSE()) {
      KeepKeep(events, s3, (e: Event) => !e.success, s4);
    } else {
      KeepSame(events, s3, s4);
    }
  }

  /** Rows are kept in their order, and exactly the selected ones. */
  lemma FilterEventsMembership(events: seq<Event>, q: Query, parseDay: Text -> int, e: Event)
    ensures e in FilterEvents(events, q, parseDay) <==> e in events && Selected(e, q, parseDay)
  {
    FilterEventsSelects(events, q, parseDay);
  }

  /** An absent, empty or `"all"` channel filters nothing by channel. */
  lemma ChannelAllIgnored(events: seq<Event>, q: Query, parseDay: Text -> int)
    requires q.channel == None || q.channel == Some([]) || q.channel == Some(ALL())
    ensures FilterEvents(events, q, parseDay)
         == Keep(events, (e: Event) => AfterStart(e, q, parseDay) && BeforeEnd(e, q, parseDay) && HasOutcome(e, q))
  {
    FilterEventsSelects(events, q, parseDay);
    KeepSame(events, (e: Event) => Selected(e, q, parseDay),
             (e: Event) => AfterStart(e, q, parseDay) && BeforeEnd(e, q, parseDay) && HasOutcome(e, q));
  }

  /** A `success` value other than `"true"` and `"false"` filters nothing by outcome. */
  lemma OtherSuccessIgnored(events: seq<Event>, q: Query, parseDay: Text -> int)
    requires q.success != Some(TRUE()) && q.success != Some(FALSE())
    ensures FilterEvents(events, q, parseDay)
         == Keep(events, (e: Event) => AfterStart(e, q, parseDay) && BeforeEnd(e, q, parseDay) && OnChannel(e, q))
  {
    FilterEventsSelects(events, q, parseDay);
    KeepSame(events, (e: Event) => Selected(e, q, parseDay),
             (e: Event) => AfterStart(e, q, parseDay) && BeforeEnd(e, q, parseDay) && OnChannel(e, q));
  }

  /** `success=true` keeps only successful events, `success=false` only failed ones. */
  lemma SuccessFilterOutcome(events: seq<Event>, q: Query, parseDay: Text -> int, e: Event)
    requires e in FilterEvents(events, q, parseDay)
    ensures q.success == Some(TRUE()) ==> e.success
    ensures q.success == Some(FALSE()) ==> !e.success
  {
    FilterEventsMembership(events, q, parseDay, e);
  }

  /* ---------------------------------------------------------------------------------
     `analytics_summary` (lines 96-129): the counts and the success rate
     --------------------------------------------------------------------------------- */

  datatype Summary = Summary(total: nat, successful: nat, failed: nat, successRate: real)

  /** `(successful / total) if total else 0.0` */
  function SuccessRate(successful: nat, total: nat): (r: real)
    requires successful <= total
    ensures total > 0 ==> r * (total as real) == successful as real
    ensures total == 0 ==> r == 0.0
    ensures 0.0 <= r <= 1.0
  {
    if total != 0 then successful as real / total as real else 0.0
  }

  /** The counts of a filtered queryset: every event is successful or failed. */
  function SummaryOf(qs: seq<Event>): (r: Summary)
    ensures r.total == |qs|
    ensures r.successful + r.failed == r.total
    ensures r.successful == |Keep(qs, (e: Event) => e.success)|
    ensures r.total > 0 ==> r.successRate == r.successful as real / r.total as real
    ensures r.total == 0 ==> r.successRate == 0.0
    ensures 0.0 <= r.successRate <= 1.0
  {
    var successful := |Keep(qs, (e: Event) => e.success)|;
    var failed := |Keep(qs, (e: Event) => !e.success)|;
    KeepPartition(qs, (e: Event) => e.success, (e: Event) => !e.success);
    Summary(|qs|, successful, failed, SuccessRate(successful, |qs|))
  }

  function AnalyticsSummary(httpMethod: Text, events: seq<Event>, q: Query, parseDay: Text -> int): (r: Reply<Summary>)
    ensures httpMethod != GET() ==> r == Fail(405, Lit("GET required"))
    ensures httpMethod == GET() ==> r == Ok(SummaryOf(FilterEvents(events, q, parseDay)))
  {
    if httpMethod != GET() then Fail(405, Lit("GET required"))
    else Ok(SummaryOf(FilterEvents(events, q, parseDay)))
  }

  /* ---------------------------------------------------------------------------------
     `analytics_log` (lines 46-94)
     --------------------------------------------------------------------------------- */

  /** The values handed to `ChatEvent.objects.create`. */
  datatype LogRecord = LogRecord(
    channel: Value, question: Value, answer: Value,
    latencyMs: Value, numContexts: Value, topScore: Value,
    success: bool, errorType: Value, sessionId: Value, metadata: Value)

  /** The view's answer; `Crashed` is an exception the view does not catch. */
  datatype LogReply = Rejected(status: int, error: Text) | Saved(id: int) | Crashed

  function QUESTION(): Text { Lit("question") }
  function ANSWER(): Text { Lit("answer") }
  function CHANNEL(): Text { Lit("channel") }
  function LATENCY_MS(): Text { Lit("latency_ms") }
  function NUM_CONTEXTS(): Text { Lit("num_contexts") }
  function TOP_SCORE(): Text { Lit("top_score") }
  function SUCCESS(): Text { Lit("success") }
  function ERROR_TYPE(): Text { Lit("error_type") }
  function SESSION_ID(): Text { Lit("session_id") }
  function METADATA(): Text { Lit("metadata") }

  /**
    `key in v` on a decoded JSON value: a key of an object, an item of an array, a
    substring of a string; a number, boolean or `null` raises (`None`).
   */
  function Contains(v: Value, key: Text): (r: Option<bool>)
    ensures v.Dict? ==> r == Some(key in v.entries)
    ensures v.Lst? ==> r == Some(Str(key) in v.items)
    ensures v.Str? ==> r.Some? && (r.value <==> exists i :: 0 <= i <= |v.s| && OccursAt(v.s, key, i))
    ensures r.None? <==> !v.Dict? && !v.Lst? && !v.Str?
  {
    match v
    case Dict(entries) => Some(key in entries)
    case Lst(items) => Some(Str(key) in items)
    case Str(s) => Some(FindFrom(s, key, 0).Some?)
    case _ => None
  }

  /** Lines 78-87: the defaults filled in for the fields the request leaves out or leaves falsy. */
  function Record(payload: map<Text, Value>): (r: LogRecord)
    ensures r.channel == (if Truthy(Get(payload, CHANNEL(), Null)) then payload[CHANNEL()] else Str(Lit("cli")))
    ensures r.question == (if Truthy(Get(payload, QUESTION(), Null)) then payload[QUESTION()] else Str([]))
    ensures r.answer == (if Truthy(Get(payload, ANSWER(), Null)) then payload[ANSWER()] else Str([]))
    ensures r.latencyMs == (if Truthy(Get(payload, LATENCY_MS(), Null)) then payload[LATENCY_MS()] else Int(0))
    ensures r.numContexts == (if Truthy(Get(payload, NUM_CONTEXTS(), Null)) then payload[NUM_CONTEXTS()] else Int(0))
    ensures r.topScore == (if Truthy(Get(payload, TOP_SCORE(), Null)) then payload[TOP_SCORE()] else Int(0))
    ensures SUCCESS() !in payload ==> r.success
    ensures SUCCESS() in payload ==> r.success == Truthy(payload[SUCCESS()])
    ensures r.errorType == (if ERROR_TYPE() in payload then payload[ERROR_TYPE()] else Null)
    ensures r.sessionId == (if SESSION_ID() in payload then payload[SESSION_ID()] else Null)
    ensures r.metadata == (if Truthy(Get(payload, METADATA(), Null)) then payload[METADATA()] else Dict(map[]))
  {
    LogRecord(
      channel := Or(Get(payload, CHANNEL(), Null), Str(Lit("cli"))),
      question := Or(Get(payload, QUESTION(), Null), Str([])),
      answer := Or(Get(payload, ANSWER(), Null), Str([])),
      latencyMs := Or(Get(payload, LATENCY_MS(), Null), Int(0)),
      numContexts := Or(Get(payload, NUM_CONTEXTS(), Null), Int(0)),
      topScore := Or(Get(payload, TOP_SCORE(), Null), Int(0)),
      success := Truthy(Get(payload, SUCCESS(), Bool(true))),
      errorType := Get(payload, ERROR_TYPE(), Null),
      sessionId := Get(payload, SESSION_ID(), Null),
      metadata := Or(Get(payload, METADATA(), Null), Dict(map[])))
  }

  /**
    `analytics_log` on a request method and body: `parseJson` is `json.loads` (`None` on
    a decoding error) and `create` is the insert (`None` when it raises, the new id
    otherwise).
   */
  function AnalyticsLog(httpMethod: Text, body: Text, parseJson: Text -> Option<Value>,
                        create: LogRecord -> Option<int>): LogReply
  {
    if httpMethod != POST() then Rejected(405, Lit("POST required"))
    else
      var rawBody := Strip(body);
      if rawBody == [] then Rejected(400, Lit("Empty JSON body"))
      else
        match parseJson(rawBody)
        case None => Rejected(400, Lit("Invalid JSON format"))
        case Some(payload) =>
          match Contains(payload, QUESTION())
          case None => Crashed
          case Some(hasQuestion) =>
            if !hasQuestion then Rejected(400, Lit("Missing field: question"))
            else
              match Contains(payload, ANSWER())
              case None => Crashed
              case Some(hasAnswer) =>
                if !hasAnswer then Rejected(400, Lit("Missing field: answer"))
                else if !payload.Dict? then Crashed
                else
                  match create(Record(payload.entries))
                  case None => Rejected(500, Lit("Internal server error"))
                  case Some(id) => Saved(id)
  }

  /** The checks of `analytics_log`, each one reached only when the earlier ones pass. */
  lemma AnalyticsLogLadder(httpMethod: Text, body: Text, parseJson: Text -> Option<Value>,
                           create: LogRecord -> Option<int>)
    ensures var r := AnalyticsLog(httpMethod, body, parseJson, create);
            && (httpMethod != POST() ==> r == Rejected(405, Lit("POST required")))
            && (httpMethod == POST() && Strip(body) == [] ==> r == Rejected(400, Lit("Empty JSON body")))
            && (httpMethod == POST() && Strip(body) != [] && parseJson(Strip(body)).None? ==>
                  r == Rejected(400, Lit("Invalid JSON format")))
            && (httpMethod == POST() && Strip(body) != [] && parseJson(Strip(body)) == Some(Dict(map[])) ==>
                  r == Rejected(400, Lit("Missing field: question")))
  {
  }

  /** A body decoding to an object is rejected for the first of `question`, `answer` it lacks. */
  lemma AnalyticsLogMissingField(httpMethod: Text, body: Text, parseJson: Text -> Option<Value>,
                                 create: LogRecord -> Option<int>, fields: map<Text, Value>)
    requires httpMethod == POST() && Strip(body) != [] && parseJson(Strip(body)) == Some(Dict(fields))
    ensures QUESTION() !in fields ==>
              AnalyticsLog(httpMethod, body, parseJson, create) == Rejected(400, Lit("Missing field: question"))
    ensures QUESTION() in fields && ANSWER() !in fields ==>
              AnalyticsLog(httpMethod, body, parseJson, create) == Rejected(400, Lit("Missing field: answer"))
    ensures QUESTION() in fields && ANSWER() in fields ==>
              AnalyticsLog(httpMethod, body, parseJson, create)
                == match create(Record(fields)) case None => Rejected(500, Lit("Internal server error")) case Some(id) => Saved(id)
  {
  }

  /**
    An event is saved only from a POST whose body decodes to an object with both
    `question` and `answer`, and what is saved carries the defaults of `Record`.
   */
  lemma AnalyticsLogSaved(httpMethod: Text, body: Text, parseJson: Text -> Option<Value>,
                          create: LogRecord -> Option<int>)
    requires AnalyticsLog(httpMethod, body, parseJson, create).Saved?
    ensures httpMethod == POST() && Strip(body) != []
    ensures parseJson(Strip(body)).Some? && parseJson(Strip(body)).value.Dict?
    ensures var fields := parseJson(Strip(body)).value.entries;
            && QUESTION() in fields && ANSWER() in fields
            && create(Record(fields)) == Some(AnalyticsLog(httpMethod, body, parseJson, create).id)
  {
  }

  /**
    A body that decodes to anything but an object is never saved: a number, boolean or
    `null` raises at the first membership test, and an array or string that passes both
    tests raises at the `payload.get` after them.
   */
  lemma AnalyticsLogNonObject(body: Text, parseJson: Text -> Option<Value>, create: LogRecord -> Option<int>)
    requires Strip(body) != [] && parseJson(Strip(body)).Some? && !parseJson(Strip(body)).value.Dict?
    ensures var r := AnalyticsLog(POST(), body, parseJson, create);
            r == Crashed || r == Rejected(400, Lit("Missing field: question")) || r == Rejected(400, Lit("Missing field: answer"))
    ensures var payload := parseJson(Strip(body)).value;
            (payload.Lst? || payload.Str?) && Contains(payload, QUESTION()) == Some(true) && Contains(payload, ANSWER()) == Some(true)
            ==> AnalyticsLog(POST(), body, parseJson, create) == Crashed
  {
  }

  /* ---------------------------------------------------------------------------------
     `analytics_daily` (lines 131-156)
     --------------------------------------------------------------------------------- */

  /** A day's counters. */
  datatype Counts = Counts(total: nat, success: nat, failed: nat)

  /** One row of the result: `{"day": k, **v}`. */
  datatype DayRow = DayRow(day: int, counts: Counts)

  /** The counter update of one event (lines 146-150). */
  function Bump(c: Counts, success: bool): Counts
  {
    if success then Counts(c.total + 1, c.success + 1, c.failed)
    else Counts(c.total + 1, c.success, c.failed + 1)
  }

  /** The counters of `day` after the events, a day without events counting zero. */
  function Tally(events: seq<Event>, day: int): Counts
  {
    if events == [] then Counts(0, 0, 0)
    else
      var last := events[|events| - 1];
      var before := Tally(events[..|events| - 1], day);
      if last.day == day then Bump(before, last.success) else before
  }

  /** The days of the events in first-appearance order: the keys of `daily_data`. */
  function Days(events: seq<Event>): (r: seq<int>)
    ensures forall d :: d in r <==> exists k :: 0 <= k < |events| && events[k].day == d
  {
    if events == [] then []
    else
      var before := Days(events[..|events| - 1]);
      var last := events[|events| - 1];
      assert forall k :: 0 <= k < |events| - 1 ==> events[..|events| - 1][k] == events[k];
      if last.day in before then before else before + [last.day]
  }

  predicate Distinct(s: seq<int>) {
    forall i, j :: 0 <= i < j < |s| ==> s[i] != s[j]
  }

  predicate StrictlyAscending(s: seq<int>) {
    forall i, j :: 0 <= i < j < |s| ==> s[i] < s[j]
  }

  lemma {:induction false} DaysDistinct(events: seq<Event>)
    ensures Distinct(Days(events))
  {
    if events != [] {
      DaysDistinct(events[..|events| - 1]);
    }
  }

  /** `x` put in its place in an ascending sequence. */
  function Insert(x: int, s: seq<int>): (r: seq<int>)
    requires StrictlyAscending(s) && x !in s
    ensures StrictlyAscending(r)
    ensures |r| == |s| + 1
    ensures forall y :: y in r <==> y == x || y in s
  {
    if s == [] then [x]
    else if x < s[0] then
      assert forall k :: 0 <= k < |s| ==> s[0] <= s[k];
      [x] + s
    else
      var rest := Insert(x, s[1..]);
      assert forall k :: 0 < k < |s| ==> s[0] < s[k];
      assert forall k :: 0 <= k < |rest| ==> rest[k] in rest;
      assert forall k :: 0 <= k < |rest| ==> s[0] < rest[k];
      [s[0]] + rest
  }

  /** `sorted` on the keys of a dictionary, which are distinct. */
  function SortDays(s: seq<int>): (r: seq<int>)
    requires Distinct(s)
    ensures StrictlyAscending(r)
    ensures |r| == |s|
    ensures forall y :: y in r <==> y in s
  {
    if s == [] then []
    else
      assert forall i, j :: 0 <= i < j < |s| - 1 ==> s[1..][i] == s[i + 1] && s[1..][j] == s[j + 1];
      Insert(s[0], SortDays(s[1..]))
  }

  /** The result of `analytics_daily` on a filtered queryset. */
  function DailyRows(events: seq<Event>): seq<DayRow>
  {
    DaysDistinct(events);
    var days := SortDays(Days(events));
    seq(|days|, j requires 0 <= j < |days| => DayRow(days[j], Tally(events, days[j])))
  }

  /** The counters of one more event. */
  lemma TallySnoc(events: seq<Event>, i: nat, day: int)
    requires i < |events|
    ensures Tally(events[..i + 1], day) == if events[i].day == day then Bump(Tally(events[..i], day), events[i].success) else Tally(events[..i], day)
    ensures Days(events[..i + 1]) == if events[i].day in Days(events[..i]) then Days(events[..i]) else Days(events[..i]) + [events[i].day]
  {
    assert events[..i + 1][..i] == events[..i];
  }

  /** Lines 139-150: `daily_data` and its keys in insertion order. */
  method CountByDay(qs: seq<Event>) returns (daily: map<int, Counts>, keys: seq<int>)
    ensures keys == Days(qs)
    ensures forall d :: d in daily <==> d in keys
    ensures forall d :: d in daily ==> daily[d] == Tally(qs, d)
  {
    daily := map[];
    keys := [];
    for i := 0 to |qs|
      invariant keys == Days(qs[..i])
      invariant forall d :: d in daily <==> d in keys
      invariant forall d :: d in daily ==> daily[d] == Tally(qs[..i], d)
      invariant forall d :: d !in daily ==> Tally(qs[..i], d) == Counts(0, 0, 0)
    {
      var event := qs[i];
      var day := event.day;
      if day !in daily {
        daily := daily[day := Counts(0, 0, 0)];
        keys := keys + [day];
      }
      var c := daily[day];
      c := c.(total := c.total + 1);
      if event.success {
        c := c.(success := c.success + 1);
      } else {
        c := c.(failed := c.failed + 1);
      }
      assert c == Bump(daily[day], event.success);
      daily := daily[day := c];
      forall d ensures Tally(qs[..i + 1], d) == if qs[i].day == d then Bump(Tally(qs[..i], d), qs[i].success) else Tally(qs[..i], d) {
        TallySnoc(qs, i, d);
      }
      TallySnoc(qs, i, day);
    }
    assert qs[..|qs|] == qs;
  }

  /** `analytics_daily`: the per-day counters of the filtered events, sorted by day. */
  method AnalyticsDaily(httpMethod: Text, events: seq<Event>, q: Query, parseDay: Text -> int)
    returns (r: Reply<seq<DayRow>>)
    ensures httpMethod != GET() ==> r == Fail(405, Lit("GET required"))
    ensures httpMethod == GET() ==> r == Ok(DailyRows(FilterEvents(events, q, parseDay)))
  {
    if httpMethod != GET() {
      return Fail(405, Lit("GET required"));
    }
    var qs := FilterEvents(events, q, parseDay);
    var daily, keys := CountByDay(qs);
    DaysDistinct(qs);
    var days := SortDays(keys);
    assert forall j :: 0 <= j < |days| ==> days[j] in days;
    var rows := seq(|days|, j requires 0 <= j < |days| => DayRow(days[j], daily[days[j]]));
    assert days == SortDays(Days(qs));
    assert |DailyRows(qs)| == |days|;
    assert forall j :: 0 <= j < |days| ==> rows[j] == DailyRows(qs)[j];
    assert rows == DailyRows(qs);
    r := Ok(rows);
  }

  /** Every counter the loop keeps has `total == success + failed`. */
  lemma {:induction false} TallyAddsUp(events: seq<Event>, day: int)
    ensures Tally(events, day).total == Tally(events, day).success + Tally(events, day).failed
  {
    if events != [] {
      TallyAddsUp(events[..|events| - 1], day);
    }
  }

  /** A day without events has no counts. */
  lemma {:induction false} TallyOfAbsentDay(events: seq<Event>, day: int)
    requires forall k :: 0 <= k < |events| ==> events[k].day != day
    ensures Tally(events, day) == Counts(0, 0, 0)
  {
    if events != [] {
      assert forall k :: 0 <= k < |events| - 1 ==> events[..|events| - 1][k] == events[k];
      TallyOfAbsentDay(events[..|events| - 1], day);
    }
  }

  /** The days of the rows, in order. */
  function RowDays(rows: seq<DayRow>): (r: seq<int>)
    ensures |r| == |rows| && forall j :: 0 <= j < |rows| ==> r[j] == rows[j].day
  {
    seq(|rows|, j requires 0 <= j < |rows| => rows[j].day)
  }

  /**
    The rows are in strictly ascending day order (so each day appears once), there is a
    row for a day exactly when some event falls on it, and every row adds up.
   */
  lemma DailyRowsShape(events: seq<Event>)
    ensures StrictlyAscending(RowDays(DailyRows(events)))
    ensures forall d :: d in RowDays(DailyRows(events)) <==> exists k :: 0 <= k < |events| && events[k].day == d
    ensures forall j :: 0 <= j < |DailyRows(events)| ==>
              var c := DailyRows(events)[j].counts; c.total == c.success + c.failed && c.total >= 1
  {
    DaysDistinct(events);
    var days := SortDays(Days(events));
    var rows := DailyRows(events);
    assert RowDays(rows) == days;
    forall j | 0 <= j < |rows| ensures rows[j].counts.total == rows[j].counts.success + rows[j].counts.failed && rows[j].counts.total >= 1 {
      TallyAddsUp(events, days[j]);
      assert days[j] in days;
      if Tally(events, days[j]).total == 0 {
        TallyZero(events, days[j]);
      }
    }
  }

  /** A day with no counts has no events. */
  lemma {:induction false} TallyZero(events: seq<Event>, day: int)
    requires Tally(events, day).total == 0
    ensures forall k :: 0 <= k < |events| ==> events[k].day != day
  {
    if events != [] {
      var init := events[..|events| - 1];
      TallyZero(init, day);
      assert forall k :: 0 <= k < |events| - 1 ==> init[k] == events[k];
    }
  }

  /** How often `x` occurs in `ds`. */
  function Occurrences(ds: seq<int>, x: int): nat
  {
    if ds == [] then 0 else (if ds[0] == x then 1 else 0) + Occurrences(ds[1..], x)
  }

  lemma {:induction false} OccursOnce(ds: seq<int>, x: int)
    requires Distinct(ds) && x in ds
    ensures Occurrences(ds, x) == 1
  {
    if ds[0] != x {
      OccursOnce(ds[1..], x);
    } else {
      OccursNever(ds[1..], x);
    }
  }

  lemma {:induction false} OccursNever(ds: seq<int>, x: int)
    requires x !in ds
    ensures Occurrences(ds, x) == 0
  {
    if ds != [] {
      OccursNever(ds[1..], x);
    }
  }

  /** The sum of the day totals over `ds`. */
  function SumTotals(events: seq<Event>, ds: seq<int>): nat
  {
    if ds == [] then 0 else Tally(events, ds[0]).total + SumTotals(events, ds[1..])
  }

  /** One more event adds one to the total of each occurrence of its day. */
  lemma {:induction false} SumTotalsSnoc(events: seq<Event>, e: Event, ds: seq<int>)
    ensures SumTotals(events + [e], ds) == SumTotals(events, ds) + Occurrences(ds, e.day)
  {
    assert (events + [e])[..|events|] == events;
    if ds != [] {
      SumTotalsSnoc(events, e, ds[1..]);
    }
  }

  /** Over distinct days that include every event's day, the totals add up to the events. */
  lemma {:induction false} SumTotalsCount(events: seq<Event>, ds: seq<int>)
    requires Distinct(ds)
    requires forall k :: 0 <= k < |events| ==> events[k].day in ds
    ensures SumTotals(events, ds) == |events|
  {
    if events == [] {
      SumTotalsEmpty(ds);
    } else {
      var init := events[..|events| - 1];
      var e := events[|events| - 1];
      assert init + [e] == events;
      assert forall k :: 0 <= k < |init| ==> init[k] == events[k];
      SumTotalsCount(init, ds);
      SumTotalsSnoc(init, e, ds);
      OccursOnce(ds, e.day);
    }
  }

  lemma {:induction false} SumTotalsEmpty(ds: seq<int>)
    ensures SumTotals([], ds) == 0
  {
    if ds != [] {
      SumTotalsEmpty(ds[1..]);
    }
  }

  /** The sum of the row totals of `rows`. */
  function RowTotals(rows: seq<DayRow>): nat
  {
    if rows == [] then 0 else rows[0].counts.total + RowTotals(rows[1..])
  }

  lemma {:induction false} RowTotalsAre(events: seq<Event>, days: seq<int>, rows: seq<DayRow>)
    requires |rows| == |days| && forall j :: 0 <= j < |days| ==> rows[j] == DayRow(days[j], Tally(events, days[j]))
    ensures RowTotals(rows) == SumTotals(events, days)
  {
    if days != [] {
      RowTotalsAre(events, days[1..], rows[1..]);
    }
  }

  /** The row totals add up to the number of events counted. */
  lemma DailyRowsCountAll(events: seq<Event>)
    ensures RowTotals(DailyRows(events)) == |events|
  {
    DaysDistinct(events);
    var days := SortDays(Days(events));
    RowTotalsAre(events, days, DailyRows(events));
    assert forall k :: 0 <= k < |events| ==> events[k].day in days;
    SumTotalsCount(events, days);
  }
}
