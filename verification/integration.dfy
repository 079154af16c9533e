/** The data integration hub (question-4-integration/script.js): the registry of
    data sources with their connection status, the auto-refresh timer
    bookkeeping, the 20-point rolling chart, the status counts shown in the
    header, and the integer time formatting.

    Each registered source is a mutable object that `refreshSource` updates in
    place, so sources are a class. The clock, the fetched payload, its chart value
    and the timer handles are parameters or counters: the model does not run a
    network call or a timer. */
module Integration {
  import opened Text

  /** A source's `status` string: 'connecting', 'loading', 'connected', 'error'. */
  datatype Status = Connecting | Loading | Connected | Failed

  /** The `config` object passed to `addDataSource`. */
  datatype Config = Config(id: string, name: string, url: string, kind: string, interval: int, mock: bool)

  /** What a fetch returns: a parsed JSON value or a response body. Only its
      JavaScript truthiness matters here. */
  datatype Payload = JsonValue(truthy: bool) | TextBody(body: string)

  predicate IsTruthy(p: Payload) {
    match p
    case JsonValue(t) => t
    case TextBody(b) => b != []
  }

  /** The result of the awaited fetch in `refreshSource`. */
  datatype FetchOutcome = Fetched(payload: Payload) | FetchFailed(message: string)

  /** A snapshot of one source object's fields. */
  datatype SourceState = SourceState(config: Config, status: Status, lastUpdate: Option<int>,
                                     responseTime: int, data: Option<Payload>, error: Option<string>)

  /** One entry of `dataSources`. */
  class Source {
    const config: Config
    var status: Status
    var lastUpdate: Option<int>
    var responseTime: int
    var data: Option<Payload>
    var error: Option<string>

    /** The entry `addDataSource` stores: connecting, no data, no error. */
    constructor (config: Config)
      ensures State() == SourceState(config, Connecting, None, 0, None, None)
    {
      this.config := config;
      status := Connecting;
      lastUpdate := None;
      responseTime := 0;
      data := None;
      error := None;
    }

    function State(): SourceState
      reads this
    {
      SourceState(config, status, lastUpdate, responseTime, data, error)
    }

    /** The success branch of `refreshSource`. */
    method Succeed(payload: Payload, now: int, elapsed: int)
      modifies this
      ensures State() == old(State()).(status := Connected, data := Some(payload),
                                       lastUpdate := Some(now), responseTime := elapsed, error := None)
    {
      data := Some(payload);
      lastUpdate := Some(now);
      responseTime := elapsed;
      status := Connected;
      error := None;
    }

    /** The failure branch of `refreshSource`. */
    method Fail(message: string, elapsed: int)
      modifies this
      ensures State() == old(State()).(status := Failed, error := Some(message), responseTime := elapsed)
    {
      status := Failed;
      error := Some(message);
      responseTime := elapsed;
    }
  }

  // ------------------------------------------------------------ header counts

  /** The ids of the sources whose state passes `p`. */
  function IdsWhere(snap: map<string, SourceState>, p: SourceState -> bool): (ids: set<string>)
    ensures ids <= snap.Keys
    ensures forall id :: id in ids <==> id in snap && p(snap[id])
  {
    set id | id in snap && p(snap[id])
  }

  predicate IsConnected(s: SourceState) { s.status == Connected }

  /** `s.data ? 1 : 0`: the source holds a truthy payload. */
  predicate HoldsData(s: SourceState) { s.data.Some? && IsTruthy(s.data.value) }

  /** `activeAPIs`: the number of sources whose status is 'connected'. */
  function ActiveApis(snap: map<string, SourceState>): (n: nat)
    ensures n <= |snap|
  {
    SubsetCard(IdsWhere(snap, IsConnected), snap.Keys);
    |IdsWhere(snap, IsConnected)|
  }

  /** `totalDataPoints`: the number of sources holding data (shown multiplied by 156). */
  function DataPoints(snap: map<string, SourceState>): (n: nat)
    ensures n <= |snap|
  {
    SubsetCard(IdsWhere(snap, HoldsData), snap.Keys);
    |IdsWhere(snap, HoldsData)|
  }

  lemma SubsetCard<T>(a: set<T>, b: set<T>)
    requires a <= b
    ensures |a| <= |b|
  {
    assert b == a + (b - a);
  }

  /** Replacing one source's state moves a count by at most one, in the
      direction of the change in that source's state. */
  lemma CountAfterUpdate(snap: map<string, SourceState>, id: string, st: SourceState, p: SourceState -> bool)
    ensures |IdsWhere(snap[id := st], p)| ==
      |IdsWhere(snap, p)|
      - (if id in snap && p(snap[id]) then 1 else 0)
      + (if p(st) then 1 else 0)
  {
    var before := IdsWhere(snap, p);
    var after := IdsWhere(snap[id := st], p);
    SameOutside(snap, id, st, p);
    SplitOff(before, id);
    SplitOff(after, id);
  }

  lemma SameOutside(snap: map<string, SourceState>, id: string, st: SourceState, p: SourceState -> bool)
    ensures IdsWhere(snap[id := st], p) - {id} == IdsWhere(snap, p) - {id}
    ensures id in IdsWhere(snap[id := st], p) <==> p(st)
  {
    var before := IdsWhere(snap, p);
    var after := IdsWhere(snap[id := st], p);
    forall k | k != id ensures k in after <==> k in before {
    }
  }

  lemma SplitOff<T>(a: set<T>, x: T)
    ensures |a| == |a - {x}| + (if x in a then 1 else 0)
  {
    if x in a {
      assert a == (a - {x}) + {x};
    } else {
      assert a == a - {x};
    }
  }

  /** The header indicator chosen by `updateConnectionStatus`. */
  datatype Connection = AllOnline | SomeConnected(active: nat, total: nat) | NoneConnected

  function ConnectionOf(snap: map<string, SourceState>): (c: Connection)
    ensures c == AllOnline <==> ActiveApis(snap) == |snap|
    ensures c == NoneConnected <==> ActiveApis(snap) == 0 && |snap| > 0
    ensures c.SomeConnected? ==> 0 < c.active < c.total && c.total == |snap|
    ensures |snap| == 0 ==> c == AllOnline
  {
    var active := ActiveApis(snap);
    if active == |snap| then AllOnline
    else if active > 0 then SomeConnected(active, |snap|)
    else NoneConnected
  }

  /** The text next to the indicator. */
  function ConnectionText(c: Connection): string {
    match c
    case AllOnline => "All Systems Online"
    case SomeConnected(k, n) => NatToString(k) + "/" + NatToString(n) + " Connected"
    case NoneConnected => "Connecting..."
  }

  // ------------------------------------------------------------ time formatting

  /** What `getTimeAgo` shows for a difference in milliseconds. */
  datatype Ago = JustNow | MinutesAgo(minutes: nat) | HoursAgo(hours: nat)

  /** `getTimeAgo`: whole hours if at least one, else whole minutes if at least
      one, else "Just now"; a negative difference (a date in the future) is
      "Just now" because `Math.floor` rounds it below zero. */
  function AgoOf(diff: int): (a: Ago)
    ensures a == JustNow <==> diff < 60000
    ensures a.MinutesAgo? ==>
      1 <= a.minutes < 60 && a.minutes * 60000 <= diff < (a.minutes + 1) * 60000
    ensures a.HoursAgo? ==>
      1 <= a.hours && a.hours * 3600000 <= diff < (a.hours + 1) * 3600000
  {
    var minutes := diff / 60000;
    var hours := diff / 3600000;
    if hours > 0 then HoursAgo(hours)
    else if minutes > 0 then MinutesAgo(minutes)
    else JustNow
  }

  function AgoText(a: Ago): string {
    match a
    case HoursAgo(h) => NatToString(h) + "h ago"
    case MinutesAgo(m) => NatToString(m) + "m ago"
    case JustNow => "Just now"
  }

  /** The number in "Nh ago" / "Nm ago" is the count it was made from. */
  lemma AgoTextReadsBack(a: Ago)
    requires !a.JustNow?
    ensures var t := AgoText(a); var n := if a.HoursAgo? then a.hours else a.minutes;
      |t| > 5 && AllDigits(t[..|t| - 5]) && DigitsValue(t[..|t| - 5]) == n
  {
    var n := if a.HoursAgo? then a.hours else a.minutes;
    var t := AgoText(a);
    assert t[..|t| - 5] == NatToString(n);
    NatToStringRoundTrip(n);
  }

  /** The uptime split shown as H:MM:SS. */
  datatype Clock = Clock(hours: nat, minutes: nat, seconds: nat)

  /** The hours, minutes and seconds of an uptime in milliseconds: minutes and
      seconds are below 60 and the three together give the uptime truncated to
      whole seconds. */
  function UptimeClock(uptime: nat): (c: Clock)
    ensures c.minutes < 60 && c.seconds < 60
    ensures var total := c.hours * 3600000 + c.minutes * 60000 + c.seconds * 1000;
      total <= uptime < total + 1000
  {
    var hours := uptime / 3600000;
    var minutes := (uptime % 3600000) / 60000;
    var seconds := (uptime % 60000) / 1000;
    UptimeSplit(uptime);
    Clock(hours, minutes, seconds)
  }

  lemma UptimeSplit(u: nat)
    ensures var h, r := u / 3600000, u % 3600000;
      var m, r2 := r / 60000, r % 60000;
      u == h * 3600000 + m * 60000 + r2 && r2 == u % 60000 && m < 60
  {
    var h, r := u / 3600000, u % 3600000;
    var m, r2 := r / 60000, r % 60000;
    assert u == h * 3600000 + r;
    assert r == m * 60000 + r2;
    assert u == (h * 60 + m) * 60000 + r2;
    assert r2 == u % 60000;
  }

  /** `${h.padStart(2,'0')}:${m.padStart(2,'0')}:${s.padStart(2,'0')}` */
  function ClockText(c: Clock): string {
    PadStart2(NatToString(c.hours)) + ":" + PadStart2(NatToString(c.minutes)) + ":"
      + PadStart2(NatToString(c.seconds))
  }

  lemma SmallNatToString(n: nat)
    requires n < 100
    ensures |NatToString(n)| <= 2
  {
  }

  /** The text is at least eight characters: hours of two or more digits, then
      ":MM:SS"; each field reads back as its number. */
  lemma ClockTextFields(c: Clock)
    requires c.minutes < 60 && c.seconds < 60
    ensures var t := ClockText(c);
      && |t| >= 8 && t[|t| - 3] == ':' && t[|t| - 6] == ':'
      && AllDigits(t[..|t| - 6]) && DigitsValue(t[..|t| - 6]) == c.hours
      && AllDigits(t[|t| - 5..|t| - 3]) && DigitsValue(t[|t| - 5..|t| - 3]) == c.minutes
      && AllDigits(t[|t| - 2..]) && DigitsValue(t[|t| - 2..]) == c.seconds
  {
    var h := PadStart2(NatToString(c.hours));
    var m := PadStart2(NatToString(c.minutes));
    var s := PadStart2(NatToString(c.seconds));
    PaddedReadsBack(c.hours);
    PaddedReadsBack(c.minutes);
    PaddedReadsBack(c.seconds);
    ColonParts(h, m, s);
    assert ClockText(c) == h + ":" + m + ":" + s;
  }

  /** A padded field reads back as the number it was made from; below 100 it
      is exactly two digits. */
  lemma PaddedReadsBack(n: nat)
    ensures var p := PadStart2(NatToString(n));
      |p| >= 2 && AllDigits(p) && DigitsValue(p) == n && (n < 100 ==> |p| == 2)
  {
    if n < 100 {
      SmallNatToString(n);
    }
    PadStart2Value(NatToString(n));
    NatToStringRoundTrip(n);
  }

  /** Where the three parts of `h:m:s` sit when the last two have two characters. */
  lemma ColonParts(h: string, m: string, s: string)
    requires |m| == 2 && |s| == 2
    ensures var t := h + ":" + m + ":" + s;
      && |t| == |h| + 6 && t[|t| - 3] == ':' && t[|t| - 6] == ':'
      && t[..|t| - 6] == h && t[|t| - 5..|t| - 3] == m && t[|t| - 2..] == s
  {
  }

  // ------------------------------------------------------------ the hub

  class Hub {
    /** `dataSources`: id to source object. */
    var sources: map<string, Source>
    /** `updateIntervals`: id to the handle of its running interval. */
    var intervals: map<string, nat>
    /** The interval handles not yet cleared. */
    var running: set<nat>
    /** The handle the next `setInterval` returns. */
    var nextHandle: nat
    /** `chartData`, the object the chart draws from. */
    const chart: ChartData
    const startTime: int

    /** Each source object is registered under one id; every running interval is
        the one recorded for some id, one per id, so none is leaked; the chart
        holds the last 20 points pushed. */
    ghost predicate Valid()
      reads this, chart
    {
      SourcesDistinct() && TimersValid() && chart.Valid()
    }

    ghost predicate SourcesDistinct()
      reads this`sources
    {
      forall a, b :: a in sources && b in sources && a != b ==> sources[a] != sources[b]
    }

    ghost predicate TimersValid()
      reads this`intervals, this`running, this`nextHandle
    {
      && running == intervals.Values
      && (forall a, b :: a in intervals && b in intervals && a != b ==> intervals[a] != intervals[b])
      && (forall h :: h in running ==> h < nextHandle)
    }

    /** The fields of every registered source. */
    function Snapshot(): map<string, SourceState>
      reads this`sources, sources.Values
    {
      map id | id in sources :: sources[id].State()
    }

    constructor (now: int)
      ensures Valid() && startTime == now
      ensures sources == map[] && intervals == map[] && running == {}
      ensures fresh(chart) && chart.labels == [] && chart.values == []
    {
      sources := map[];
      intervals := map[];
      running := {};
      nextHandle := 1;
      chart := new ChartData();
      startTime := now;
    }

    /** `addDataSource`: registers a new source object under the config's id,
        replacing any earlier one, and starts its auto-refresh when the interval
        is truthy (non-zero). */
    method AddDataSource(config: Config) returns (source: Source)
      requires Valid()
      modifies this
      ensures Valid() && fresh(source)
      ensures source.State() == SourceState(config, Connecting, None, 0, None, None)
      ensures sources == old(sources)[config.id := source]
      ensures config.interval != 0 ==>
        && intervals == old(intervals)[config.id := old(nextHandle)]
        && running == old(running) - (if config.id in old(intervals) then {old(intervals)[config.id]} else {})
                                   + {old(nextHandle)}
      ensures config.interval == 0 ==> intervals == old(intervals) && running == old(running)
    {
      source := new Source(config);
      sources := sources[config.id := source];
      if config.interval != 0 {
        StartAutoRefresh(config.id);
      }
    }

    /** `startAutoRefresh`: clears the interval already running for the id, if
        any, and records a new one. */
    method StartAutoRefresh(id: string)
      requires Valid()
      modifies this
      ensures Valid()
      ensures sources == old(sources)
      ensures nextHandle == old(nextHandle) + 1
      ensures intervals == old(intervals)[id := old(nextHandle)]
      ensures running == old(running) - (if id in old(intervals) then {old(intervals)[id]} else {})
                                      + {old(nextHandle)}
    {
      HandleUpdate(intervals, id, nextHandle);
      if id in intervals {
        running := running - {intervals[id]};
      }
      var handle := nextHandle;
      nextHandle := nextHandle + 1;
      intervals := intervals[id := handle];
      running := running + {handle};
    }

    /** The synchronous start of `refreshSource`: an unknown id does nothing;
        otherwise the source object is marked loading and returned, to be
        completed by `FinishRefresh` once the fetch settles. */
    method BeginRefresh(id: string) returns (source: Option<Source>)
      requires Valid()
      modifies if id in sources then {sources[id]} else {}
      ensures id !in sources ==> source == None
      ensures id in sources ==>
        && source == Some(sources[id])
        && sources[id].State() == old(sources[id].State()).(status := Loading)
    {
      if id !in sources {
        return None;
      }
      var s := sources[id];
      s.status := Loading;
      source := Some(s);
    }

    /** The rest of `refreshSource` on the source object it started with (which
        may no longer be registered if the id was re-added meanwhile): the
        awaited fetch either succeeded or threw. */
    method FinishRefresh(source: Source, outcome: FetchOutcome, now: int, elapsed: int,
                         stamp: string, value: int)
      requires Valid()
      modifies chart, source
      ensures Valid()
      ensures source !in sources.Values ==> Snapshot() == old(Snapshot())
      ensures forall id :: id in sources && sources[id] == source ==>
        Snapshot() == old(Snapshot())[id := source.State()]
      ensures outcome.Fetched? ==>
        && source.State() == old(source.State()).(status := Connected, data := Some(outcome.payload),
                                                   lastUpdate := Some(now), responseTime := elapsed,
                                                   error := None)
        && chart.pushedLabels == old(chart.pushedLabels) + [stamp]
        && chart.pushedValues == old(chart.pushedValues) + [value]
      ensures outcome.FetchFailed? ==>
        && source.State() == old(source.State()).(status := Failed, error := Some(outcome.message),
                                                   responseTime := elapsed)
        && unchanged(chart)
    {
      ghost var before := Snapshot();
      match outcome {
        case Fetched(payload) =>
        RefreshSucceeded(source, payload, now, elapsed, stamp, value);
        case FetchFailed(message) =>
        RefreshFailed(source, message, elapsed);
      }
      SnapshotAfter(source, before);
    }

    /** The success path: the data, update time and response time are stored, the
        status becomes connected with no error, and a chart point is pushed. */
    method RefreshSucceeded(source: Source, payload: Payload, now: int, elapsed: int,
                            stamp: string, value: int)
      requires Valid()
      modifies chart, source
      ensures Valid()
      ensures source.State() == old(source.State()).(status := Connected, data := Some(payload),
                                                     lastUpdate := Some(now), responseTime := elapsed,
                                                     error := None)
      ensures chart.pushedLabels == old(chart.pushedLabels) + [stamp]
      ensures chart.pushedValues == old(chart.pushedValues) + [value]
    {
      source.Succeed(payload, now, elapsed);
      chart.Update(stamp, value);
    }

    /** The failure path: the status becomes error with the thrown message. */
    method RefreshFailed(source: Source, message: string, elapsed: int)
      requires Valid()
      modifies source
      ensures Valid()
      ensures source.State() == old(source.State()).(status := Failed, error := Some(message),
                                                     responseTime := elapsed)
    {
      source.Fail(message, elapsed);
    }

    /** Only `source` changed since `before` was taken. */
    lemma SnapshotAfter(source: Source, before: map<string, SourceState>)
      requires Valid()
      requires before.Keys == sources.Keys
      requires forall id :: id in sources && sources[id] != source ==> before[id] == sources[id].State()
      ensures source !in sources.Values ==> Snapshot() == before
      ensures forall id :: id in sources && sources[id] == source ==>
        Snapshot() == before[id := source.State()]
    {
    }

  }

  /** `chartData`: the labels and the values of the one dataset, updated in
      place by `updateChartData`. */
  class ChartData {
    var labels: seq<string>
    var values: seq<int>
    /** Every point ever pushed, oldest first. */
    ghost var pushedLabels: seq<string>
    ghost var pushedValues: seq<int>

    /** The chart holds the last 20 points pushed. */
    ghost predicate Valid()
      reads this
    {
      && |pushedLabels| == |pushedValues|
      && labels == LastPoints(pushedLabels)
      && values == LastPoints(pushedValues)
    }

    constructor ()
      ensures Valid() && labels == [] && values == [] && pushedLabels == [] && pushedValues == []
    {
      labels := [];
      values := [];
      pushedLabels := [];
      pushedValues := [];
    }

    /** `updateChartData`: drops the oldest point when 20 are shown, then appends. */
    method Update(stamp: string, value: int)
      requires Valid()
      modifies this
      ensures Valid()
      ensures pushedLabels == old(pushedLabels) + [stamp]
      ensures pushedValues == old(pushedValues) + [value]
      ensures labels == Slide(old(labels), stamp) && values == Slide(old(values), value)
    {
      var newLabels, newValues := labels, values;
      if |newLabels| >= 20 {
        newLabels := newLabels[1..];
        newValues := newValues[1..];
      }
      newLabels := newLabels + [stamp];
      newValues := newValues + [value];
      assert newLabels == Slide(labels, stamp) && newValues == Slide(values, value);
      ghost var historyLabels, historyValues := pushedLabels + [stamp], pushedValues + [value];
      LastPointsPush(pushedLabels, stamp);
      LastPointsPush(pushedValues, value);
      assert newLabels == LastPoints(historyLabels) && newValues == LastPoints(historyValues);
      labels, values := newLabels, newValues;
      pushedLabels, pushedValues := historyLabels, historyValues;
    }
  }

  /** Recording a new handle for `id` in a map whose handles are distinct
      replaces that id's old handle, if any, and keeps handles distinct. */
  lemma HandleUpdate(m: map<string, nat>, id: string, h: nat)
    requires forall a, b :: a in m && b in m && a != b ==> m[a] != m[b]
    requires h !in m.Values
    ensures m[id := h].Values == m.Values - (if id in m then {m[id]} else {}) + {h}
    ensures var u := m[id := h]; forall a, b :: a in u && b in u && a != b ==> u[a] != u[b]
  {
    var u := m[id := h];
    var gone := if id in m then {m[id]} else {};
    forall x | x in u.Values ensures x in m.Values - gone + {h} {
      if x != h {
        var a :| a in u && u[a] == x;
        assert a != id && a in m && m[a] == x;
        assert x in m.Values;
        assert x !in gone;
      }
    }
    forall x | x in m.Values - gone + {h} ensures x in u.Values {
      if x != h {
        var a :| a in m && m[a] == x;
        assert a != id;
        assert u[a] == x;
      } else {
        assert u[id] == h;
      }
    }
  }

  /** The last 20 points of a history, as the chart shows them. */
  function LastPoints<T>(s: seq<T>): (r: seq<T>)
    ensures |r| == if |s| < 20 then |s| else 20
  {
    if |s| <= 20 then s else s[|s| - 20..]
  }

  /** The window is the most recent part of the history, in order. */
  lemma LastPointsSuffix<T>(s: seq<T>)
    ensures var r := LastPoints(s); forall i :: 0 <= i < |r| ==> r[i] == s[|s| - |r| + i]
  {
  }

  /** One step of the chart window: the oldest point leaves when 20 are shown,
      and the new point is appended. */
  function Slide<T>(w: seq<T>, x: T): (r: seq<T>)
    ensures |r| == if |w| >= 20 then |w| else |w| + 1
    ensures r[|r| - 1] == x
  {
    if |w| >= 20 then w[1..] + [x] else w + [x]
  }

  /** Sliding the window kept for a history gives the window of the history
      extended by the new point. */
  lemma LastPointsPush<T>(s: seq<T>, x: T)
    ensures LastPoints(s + [x]) == Slide(LastPoints(s), x)
  {
    var t := s + [x];
    if |s| >= 20 {
      assert t[|t| - 20..] == s[|s| - 20..][1..] + [x];
    }
  }

}
