/**
 * The search-analytics plugin for the Orama search engine: it checks its options when it is set
 * up, binds a collector when a search index is created, and hands the collector one event per
 * search. The collector itself (its buffering and sending) and the default values it is
 * configured with are not part of this model: the collector is a sink that records the events it
 * receives, and the defaults are a parameter.
 */
module AnalyticsPlugin {
  import opened Wrappers

  const PluginName: string := "plugin-analytics"

  // ---------------------------------------------------------------------------------------------
  // Options

  /** The plugin's options; an option left out is `None`. */
  datatype Params = Params(
    apiKey: Option<string>,
    indexId: Option<string>,
    enabled: Option<bool>,
    deploymentId: Option<string>,
    oramaId: Option<string>,
    endpoint: Option<string>,
    flushInterval: Option<int>,
    flushSize: Option<int>)

  /** The default values the plugin falls back to. */
  datatype Defaults = Defaults(flushInterval: int, flushSize: int, endpoint: string, deploymentId: string, oramaVersion: string)

  /** The options in force once the checks have passed. */
  datatype Settings = Settings(apiKey: string, indexId: string, endpoint: string, deploymentId: string, flushInterval: int, flushSize: int)

  /** A string option is truthy when it is present and not empty. */
  predicate PresentString(v: Option<string>) {
    v.Some? && v.value != []
  }

  /** `v || d` for a string option. */
  function OrString(v: Option<string>, d: string): (r: string)
    ensures PresentString(v) ==> r == v.value
    ensures !PresentString(v) ==> r == d
  {
    if PresentString(v) then v.value else d
  }

  /** `v || d` for a numeric option: 0 is falsy, so it too gives the default. */
  function OrNumber(v: Option<int>, d: int): (r: int)
    ensures v.Some? && v.value != 0 ==> r == v.value
    ensures v.None? || v.value == 0 ==> r == d
  {
    if v.Some? && v.value != 0 then v.value else d
  }

  /** What setting the plugin up gives: a plugin without hooks, one with hooks, or an error. */
  datatype Setup = Inert | Active(settings: Settings) | Thrown(message: string)

  /** The plugin's option checks and defaults; the API key is checked before the index id. */
  function Configure(p: Params, defaults: Defaults): (r: Setup)
    ensures r.Inert? <==> p.enabled == Some(false)
    ensures r == Thrown("Missing apiKey for plugin-analytics") <==> p.enabled != Some(false) && !PresentString(p.apiKey)
    ensures r == Thrown("Missing indexId for plugin-analytics") <==>
              p.enabled != Some(false) && PresentString(p.apiKey) && !PresentString(p.indexId)
    ensures r.Active? <==> p.enabled != Some(false) && PresentString(p.apiKey) && PresentString(p.indexId)
    ensures r.Active? ==> r.settings.apiKey == p.apiKey.value && r.settings.indexId == p.indexId.value
    ensures r.Active? ==> r.settings.endpoint == OrString(p.endpoint, defaults.endpoint)
    ensures r.Active? ==> r.settings.deploymentId == OrString(p.deploymentId, defaults.deploymentId)
    ensures r.Active? ==> r.settings.flushInterval == OrNumber(p.flushInterval, defaults.flushInterval)
    ensures r.Active? ==> r.settings.flushSize == OrNumber(p.flushSize, defaults.flushSize)
  {
    if p.enabled == Some(false) then Inert
    else if !PresentString(p.apiKey) then Thrown("Missing apiKey for plugin-analytics")
    else if !PresentString(p.indexId) then Thrown("Missing indexId for plugin-analytics")
    else Active(Settings(
      p.apiKey.value, p.indexId.value,
      OrString(p.endpoint, defaults.endpoint), OrString(p.deploymentId, defaults.deploymentId),
      OrNumber(p.flushInterval, defaults.flushInterval), OrNumber(p.flushSize, defaults.flushSize)))
  }

  /** A disabled plugin ignores every other option: nothing is checked and no default is read. */
  lemma DisabledIgnoresOptions(p: Params, q: Params, d1: Defaults, d2: Defaults)
    requires p.enabled == Some(false) && q.enabled == Some(false)
    ensures Configure(p, d1) == Configure(q, d2) == Inert
  {
  }

  /** A zero flush interval or size is replaced by the default, exactly as a missing one is. */
  lemma ZeroTakesDefault(p: Params, d: Defaults)
    requires Configure(p, d).Active?
    requires p.flushInterval == Some(0) && p.flushSize == Some(0)
    ensures Configure(p, d).settings.flushInterval == Configure(p.(flushInterval := None), d).settings.flushInterval == d.flushInterval
    ensures Configure(p, d).settings.flushSize == Configure(p.(flushSize := None), d).settings.flushSize == d.flushSize
  {
  }

  // ---------------------------------------------------------------------------------------------
  // Events

  /** The search parameters passed to the engine; `term` is the raw search string. */
  datatype SearchParams = SearchParams(term: Option<string>, properties: seq<string>, limit: Option<int>)

  /** One hit as the engine returns it: id, score and the matched document. */
  datatype EngineHit = EngineHit(id: string, score: real, document: string)

  /** The engine's results; `elapsedRaw` is the search time in nanoseconds. */
  datatype Results = Results(count: int, elapsedRaw: int, hits: Option<seq<EngineHit>>)

  /** One hit as reported: id and score only. */
  datatype ReportedHit = ReportedHit(id: string, score: real)

  /** One analytics event. `searchedAt` is the wall-clock time of the search in milliseconds. */
  datatype Event = Event(
    query: SearchParams,
    resultsCount: int,
    roundTripTime: int,
    searchedAt: int,
    cached: bool,
    rawSearchString: Option<string>,
    results: Option<seq<ReportedHit>>)

  /** `Math.round(raw / 1_000_000)`: nanoseconds to whole milliseconds, halves rounded up. */
  function RoundTripMs(raw: int): (ms: int)
    ensures ms * 1000000 - 500000 <= raw < ms * 1000000 + 500000
  {
    (raw + 500000) / 1000000
  }

  /** The rounding is the nearest whole millisecond, and exact on whole milliseconds. */
  lemma RoundTripNearest(raw: int, m: int)
    requires m * 1000000 - 500000 <= raw < m * 1000000 + 500000
    ensures RoundTripMs(raw) == m
  {
    var r := RoundTripMs(raw);
    assert (r - m) * 1000000 < 1000000 && (m - r) * 1000000 < 1000000;
  }

  /** `results.hits?.map(hit => ({ id: hit.id, score: hit.score }))`. */
  function Reported(hits: Option<seq<EngineHit>>): (r: Option<seq<ReportedHit>>)
    ensures r.Some? <==> hits.Some?
    ensures r.Some? ==> |r.value| == |hits.value|
    ensures r.Some? ==> forall i | 0 <= i < |r.value| :: r.value[i].id == hits.value[i].id && r.value[i].score == hits.value[i].score
  {
    match hits
    case None => None
    case Some(hs) => Some(seq(|hs|, i requires 0 <= i < |hs| => ReportedHit(hs[i].id, hs[i].score)))
  }

  /** The event `afterSearch` hands to the collector. */
  function SearchEvent(params: SearchParams, results: Results, now: int): (e: Event)
    ensures e.query == params && e.rawSearchString == params.term
    ensures e.resultsCount == results.count && !e.cached && e.searchedAt == now
    ensures e.roundTripTime * 1000000 - 500000 <= results.elapsedRaw < e.roundTripTime * 1000000 + 500000
    ensures e.results == Reported(results.hits)
  {
    Event(params, results.count, RoundTripMs(results.elapsedRaw), now, false, params.term, Reported(results.hits))
  }

  // ---------------------------------------------------------------------------------------------
  // The collector and the hooks

  /** What the collector is created with. */
  datatype CollectorConfig = CollectorConfig(
    endpoint: string,
    indexId: string,
    deploymentId: string,
    oramaId: string,
    oramaVersion: string,
    apiKey: string,
    flushSize: int,
    flushInterval: int)

  /** The event sink: it records, in order, the events handed to it. */
  class Collector {
    const config: CollectorConfig
    ghost var received: seq<Event>

    constructor (config: CollectorConfig)
      ensures this.config == config && received == []
    {
      this.config := config;
      received := [];
    }

    method Add(e: Event)
      modifies this
      ensures received == old(received) + [e]
    {
      received := received + [e];
    }
  }

  /** The created search index, as the plugin sees it. */
  datatype Orama = Orama(id: string, version: Option<string>)

  /** A registered plugin: its name, whether it has hooks, and the collector its hooks share. */
  class Plugin {
    const name: string
    const hooked: bool
    const settings: Settings
    const defaults: Defaults
    var collector: Collector?

    constructor (hooked: bool, settings: Settings, defaults: Defaults)
      ensures name == PluginName && this.hooked == hooked && this.settings == settings && this.defaults == defaults
      ensures collector == null
    {
      name := PluginName;
      this.hooked := hooked;
      this.settings := settings;
      this.defaults := defaults;
      collector := null;
    }

    /** The collector's configuration for a newly created index. */
    function CollectorConfigFor(orama: Orama): (c: CollectorConfig)
      ensures c.oramaId == orama.id && c.oramaVersion == OrString(orama.version, defaults.oramaVersion)
      ensures c.apiKey == settings.apiKey && c.indexId == settings.indexId
      ensures c.endpoint == settings.endpoint && c.deploymentId == settings.deploymentId
      ensures c.flushSize == settings.flushSize && c.flushInterval == settings.flushInterval
    {
      CollectorConfig(settings.endpoint, settings.indexId, settings.deploymentId, orama.id,
                      OrString(orama.version, defaults.oramaVersion), settings.apiKey, settings.flushSize, settings.flushInterval)
    }

    /** `afterCreate`: a new collector replaces any earlier one. */
    method AfterCreate(orama: Orama)
      requires hooked
      modifies this
      ensures collector != null && fresh(collector)
      ensures collector.config == CollectorConfigFor(orama) && collector.received == []
    {
      collector := new Collector(CollectorConfigFor(orama));
    }

    /**
     * `afterSearch`: the current collector, if there is one, receives the search's event; before
     * any `afterCreate` the event is dropped. No other collector is touched.
     */
    method AfterSearch(params: SearchParams, results: Results, now: int)
      requires hooked
      modifies collector
      ensures collector == old(collector)
      ensures collector != null ==> collector.received == old(collector.received) + [SearchEvent(params, results, now)]
    {
      if collector != null {
        collector.Add(SearchEvent(params, results, now));
      }
    }
  }

  /** `pluginAnalytics`: the plugin for the given options, or the error it throws. */
  method PluginAnalytics(p: Params, defaults: Defaults) returns (plugin: Plugin?, error: Option<string>)
    ensures Configure(p, defaults).Thrown? <==> error.Some?
    ensures error.Some? ==> plugin == null && error.value == Configure(p, defaults).message
    ensures error.None? ==> plugin != null && fresh(plugin) && plugin.name == PluginName && plugin.collector == null
    ensures error.None? ==> (plugin.hooked <==> Configure(p, defaults).Active?)
    ensures error.None? && plugin.hooked ==> plugin.settings == Configure(p, defaults).settings
  {
    match Configure(p, defaults) {
      case Inert =>
        plugin := new Plugin(false, Settings([], [], [], [], 0, 0), defaults);
        error := None;
      case Thrown(m) =>
        plugin := null;
        error := Some(m);
      case Active(s) =>
        plugin := new Plugin(true, s, defaults);
        error := None;
    }
  }

  /**
   * Only the newest collector receives events: after a second `afterCreate`, a search reaches the
   * new collector and leaves the first one as it was.
   */
  method SearchAfterRecreate(plugin: Plugin, first: Orama, second: Orama, params: SearchParams, results: Results, now: int)
    returns (old1: Collector, new1: Collector)
    requires plugin.hooked
    modifies plugin
    ensures old1 != new1 && new1 == plugin.collector
    ensures old1.received == [] && new1.received == [SearchEvent(params, results, now)]
  {
    plugin.AfterCreate(first);
    old1 := plugin.collector;
    plugin.AfterCreate(second);
    new1 := plugin.collector;
    plugin.AfterSearch(params, results, now);
  }
}
