/** The relay map: what the settings ask for, and how a change reaches the live endpoint. */
module RelayMap {
  import opened Basics

  type Url = string

  datatype RelayServer = RelayServer(url: string, token: Option<string>)

  datatype RelayPolicy = Preferred | Only

  datatype RelaySettings = RelaySettings(servers: seq<RelayServer>, mode: RelayPolicy)

  datatype RelayConfig = RelayConfig(url: Url, token: Option<string>)

  datatype RelayError = InvalidUrl | DuplicateUrl | BadToken

  datatype Result<T> = Ok(value: T) | Err(error: RelayError)

  /** URL parsing and the public relays, which the model does not look into. */
  datatype Platform = Platform(parse: string -> Option<Url>, defaults: seq<RelayConfig>)

  ghost predicate DistinctUrls(cfgs: seq<RelayConfig>) {
    forall i, j :: 0 <= i < j < |cfgs| ==> cfgs[i].url != cfgs[j].url
  }

  /** The public relay map is not empty and lists no URL twice. */
  ghost predicate Sane(pf: Platform) {
    pf.defaults != [] && DistinctUrls(pf.defaults)
  }

  /** A token that can travel in an HTTP header: not empty, printable ASCII, no spaces. */
  predicate TokenOk(token: string) {
    token != "" && forall c :: c in token ==> '\U{21}' <= c <= '\U{7e}'
  }

  /** What is wrong with server `i`, if anything, given the ones before it. */
  ghost function FaultAt(pf: Platform, servers: seq<RelayServer>, i: nat): Option<RelayError>
    requires i < |servers|
  {
    var url := pf.parse(servers[i].url);
    if url.None? then Some(InvalidUrl)
    else if exists j :: 0 <= j < i && pf.parse(servers[j].url) == url then Some(DuplicateUrl)
    else if servers[i].token.Some? && !TokenOk(servers[i].token.value) then Some(BadToken)
    else None
  }

  ghost predicate WellFormed(pf: Platform, servers: seq<RelayServer>) {
    forall i :: 0 <= i < |servers| ==> FaultAt(pf, servers, i).None?
  }

  ghost predicate IsConfigOf(pf: Platform, s: RelayServer, c: RelayConfig) {
    pf.parse(s.url) == Some(c.url) && c.token == s.token
  }

  /** The configs of well-formed servers, one each, in order. */
  ghost function Configs(pf: Platform, servers: seq<RelayServer>): (cfgs: seq<RelayConfig>)
    requires WellFormed(pf, servers)
    ensures |cfgs| == |servers|
    ensures forall i :: 0 <= i < |servers| ==> IsConfigOf(pf, servers[i], cfgs[i])
  {
    if servers == [] then []
    else
      var n := |servers| - 1;
      FrontWellFormed(pf, servers);
      Configs(pf, servers[..n]) + [RelayConfig(pf.parse(servers[n].url).value, servers[n].token)]
  }

  lemma FrontWellFormed(pf: Platform, servers: seq<RelayServer>)
    requires servers != [] && WellFormed(pf, servers)
    ensures WellFormed(pf, servers[..|servers| - 1]) && pf.parse(servers[|servers| - 1].url).Some?
  {
    var n := |servers| - 1;
    assert FaultAt(pf, servers, n).None?;
    forall i | 0 <= i < n
      ensures FaultAt(pf, servers[..n], i).None?
    {
      assert FaultAt(pf, servers, i).None?;
    }
  }

  function Urls(cfgs: seq<RelayConfig>): set<Url> {
    set c | c in cfgs :: c.url
  }

  lemma UrlAt(cfgs: seq<RelayConfig>, i: nat)
    requires i < |cfgs|
    ensures cfgs[i].url in Urls(cfgs)
  {
  }

  lemma UrlFrom(cfgs: seq<RelayConfig>, u: Url) returns (i: nat)
    requires u in Urls(cfgs)
    ensures i < |cfgs| && cfgs[i].url == u
  {
    i :| 0 <= i < |cfgs| && cfgs[i].url == u;
  }

  lemma ConfigsDistinct(pf: Platform, servers: seq<RelayServer>)
    requires WellFormed(pf, servers)
    ensures DistinctUrls(Configs(pf, servers))
  {
    forall i, j | 0 <= i < j < |servers|
      ensures Configs(pf, servers)[i].url != Configs(pf, servers)[j].url
    {
      assert FaultAt(pf, servers, i).None? && FaultAt(pf, servers, j).None?;
      assert IsConfigOf(pf, servers[i], Configs(pf, servers)[i]) && IsConfigOf(pf, servers[j], Configs(pf, servers)[j]);
    }
  }

  ghost predicate IsFirstFault(pf: Platform, servers: seq<RelayServer>, i: nat, error: RelayError)
    requires i < |servers|
  {
    FaultAt(pf, servers, i) == Some(error) && forall j :: 0 <= j < i ==> FaultAt(pf, servers, j).None?
  }

  /** Configs are determined one by one by the servers. */
  lemma ConfigsAre(pf: Platform, servers: seq<RelayServer>, cfgs: seq<RelayConfig>)
    requires WellFormed(pf, servers) && |cfgs| == |servers|
    requires forall i :: 0 <= i < |servers| ==> IsConfigOf(pf, servers[i], cfgs[i])
    ensures cfgs == Configs(pf, servers)
  {
    forall i | 0 <= i < |servers|
      ensures cfgs[i] == Configs(pf, servers)[i]
    {
      assert IsConfigOf(pf, servers[i], Configs(pf, servers)[i]);
    }
  }

  /** `relay_configs`: parse and validate, stopping at the first fault. */
  method RelayConfigs(pf: Platform, servers: seq<RelayServer>) returns (res: Result<seq<RelayConfig>>)
    ensures res.Ok? <==> WellFormed(pf, servers)
    ensures res.Ok? ==> res.value == Configs(pf, servers)
    ensures res.Err? ==> exists i :: 0 <= i < |servers| && IsFirstFault(pf, servers, i, res.error)
  {
    var seen: set<Url> := {};
    var out: seq<RelayConfig> := [];
    for i := 0 to |servers|
      invariant forall j :: 0 <= j < i ==> FaultAt(pf, servers, j).None?
      invariant |out| == i && forall j :: 0 <= j < i ==> IsConfigOf(pf, servers[j], out[j])
      invariant forall u :: u in seen <==> exists j :: 0 <= j < i && pf.parse(servers[j].url) == Some(u)
    {
      var s := servers[i];
      var url := pf.parse(s.url);
      if url.None? {
        assert IsFirstFault(pf, servers, i, InvalidUrl);
        return Err(InvalidUrl);
      }
      if url.value in seen {
        assert IsFirstFault(pf, servers, i, DuplicateUrl);
        return Err(DuplicateUrl);
      }
      seen := seen + {url.value};
      if s.token.Some? && !TokenOk(s.token.value) {
        assert IsFirstFault(pf, servers, i, BadToken);
        return Err(BadToken);
      }
      assert FaultAt(pf, servers, i).None?;
      out := out + [RelayConfig(url.value, s.token)];
    }
    ConfigsAre(pf, servers, out);
    return Ok(out);
  }

  /** The defaults that are not among `urls`, in order. */
  ghost function DefaultsBeyond(defaults: seq<RelayConfig>, urls: set<Url>): seq<RelayConfig> {
    if defaults == [] then []
    else
      var n := |defaults| - 1;
      DefaultsBeyond(defaults[..n], urls) + if defaults[n].url in urls then [] else [defaults[n]]
  }

  /** The relays the settings ask for. */
  ghost function Desired(pf: Platform, settings: RelaySettings): seq<RelayConfig>
    requires WellFormed(pf, settings.servers)
  {
    var custom := Configs(pf, settings.servers);
    if custom == [] then pf.defaults
    else if settings.mode.Only? then custom
    else custom + DefaultsBeyond(pf.defaults, Urls(custom))
  }

  lemma {:induction false} BeyondHas(defaults: seq<RelayConfig>, urls: set<Url>, c: RelayConfig)
    ensures c in DefaultsBeyond(defaults, urls) <==> c in defaults && c.url !in urls
  {
    if defaults != [] {
      var n := |defaults| - 1;
      BeyondHas(defaults[..n], urls, c);
      assert defaults == defaults[..n] + [defaults[n]];
    }
  }

  lemma {:induction false} BeyondDistinct(defaults: seq<RelayConfig>, urls: set<Url>)
    requires DistinctUrls(defaults)
    ensures DistinctUrls(DefaultsBeyond(defaults, urls))
  {
    if defaults != [] {
      var n := |defaults| - 1;
      var rest := DefaultsBeyond(defaults[..n], urls);
      BeyondDistinct(defaults[..n], urls);
      forall i | 0 <= i < |rest|
        ensures rest[i].url != defaults[n].url
      {
        BeyondHas(defaults[..n], urls, rest[i]);
        var j :| 0 <= j < n && defaults[..n][j] == rest[i];
        assert defaults[j] == rest[i];
      }
    }
  }

  lemma BeyondUrls(defaults: seq<RelayConfig>, urls: set<Url>)
    ensures Urls(DefaultsBeyond(defaults, urls)) == Urls(defaults) - urls
  {
    forall c
      ensures c in DefaultsBeyond(defaults, urls) <==> c in defaults && c.url !in urls
    {
      BeyondHas(defaults, urls, c);
    }
  }

  /** The desired relays have distinct URLs. Custom relays are all there, with their own
      tokens. `Preferred` holds every public relay as well; `Only` holds no other. */
  lemma DesiredFacts(pf: Platform, settings: RelaySettings)
    requires Sane(pf) && WellFormed(pf, settings.servers)
    ensures Desired(pf, settings) != [] && DistinctUrls(Desired(pf, settings))
    ensures forall c :: c in Configs(pf, settings.servers) ==> c in Desired(pf, settings)
    ensures Urls(Desired(pf, settings)) ==
            if settings.servers == [] then Urls(pf.defaults)
            else if settings.mode.Only? then Urls(Configs(pf, settings.servers))
            else Urls(Configs(pf, settings.servers)) + Urls(pf.defaults)
  {
    var custom := Configs(pf, settings.servers);
    var extra := DefaultsBeyond(pf.defaults, Urls(custom));
    ConfigsDistinct(pf, settings.servers);
    BeyondDistinct(pf.defaults, Urls(custom));
    BeyondUrls(pf.defaults, Urls(custom));
    if custom != [] && settings.mode.Preferred? {
      UrlsOfSum(custom, extra);
      forall i, j | 0 <= i < |custom| && 0 <= j < |extra|
        ensures custom[i].url != extra[j].url
      {
        UrlAt(custom, i);
        UrlAt(extra, j);
      }
    }
  }

  lemma UrlsOfSum(a: seq<RelayConfig>, b: seq<RelayConfig>)
    ensures Urls(a + b) == Urls(a) + Urls(b)
  {
    forall c
      ensures c in a + b <==> c in a || c in b
    {
    }
  }

  /** `desired_relay_configs`. */
  method DesiredRelayConfigs(pf: Platform, settings: RelaySettings) returns (res: Result<seq<RelayConfig>>)
    ensures res.Ok? <==> WellFormed(pf, settings.servers)
    ensures res.Ok? ==> res.value == Desired(pf, settings)
  {
    var custom := RelayConfigs(pf, settings.servers);
    if custom.Err? {
      return custom;
    }
    if custom.value == [] {
      return Ok(pf.defaults);
    }
    var out := custom.value;
    var urls := Urls(out);
    if settings.mode.Preferred? {
      for i := 0 to |pf.defaults|
        invariant out == custom.value + DefaultsBeyond(pf.defaults[..i], urls)
      {
        assert pf.defaults[..i + 1][..i] == pf.defaults[..i];
        if pf.defaults[i].url !in urls {
          out := out + [pf.defaults[i]];
        }
      }
      assert pf.defaults[..|pf.defaults|] == pf.defaults;
    }
    return Ok(out);
  }

  // ----- maps -----

  /** The relay map holding the given configs. */
  ghost function MapOf(cfgs: seq<RelayConfig>): map<Url, RelayConfig> {
    if cfgs == [] then map[]
    else MapOf(cfgs[..|cfgs| - 1])[cfgs[|cfgs| - 1].url := cfgs[|cfgs| - 1]]
  }

  lemma {:induction false} MapOfKeys(cfgs: seq<RelayConfig>)
    ensures MapOf(cfgs).Keys == Urls(cfgs)
  {
    if cfgs != [] {
      var n := |cfgs| - 1;
      MapOfKeys(cfgs[..n]);
      assert cfgs == cfgs[..n] + [cfgs[n]];
      assert Urls(cfgs) == Urls(cfgs[..n]) + {cfgs[n].url};
    }
  }

  /** The map a node binds at startup: the desired one, or the public relays if the
      saved settings are broken. */
  ghost function BootMap(pf: Platform, settings: RelaySettings): map<Url, RelayConfig> {
    if WellFormed(pf, settings.servers) then MapOf(Desired(pf, settings)) else MapOf(pf.defaults)
  }

  /** The custom relays of saved settings; broken settings count as none. */
  ghost function CustomConfigs(pf: Platform, settings: RelaySettings): seq<RelayConfig> {
    if WellFormed(pf, settings.servers) then Configs(pf, settings.servers) else []
  }

  ghost function CustomUrls(pf: Platform, settings: RelaySettings): set<Url> {
    Urls(CustomConfigs(pf, settings))
  }

  /** What a live change may have to take out: every public relay and every old custom
      one that is not wanted any more. */
  ghost function Stale(pf: Platform, prior: RelaySettings, desired: seq<RelayConfig>): set<Url> {
    Urls(pf.defaults) + CustomUrls(pf, prior) - Urls(desired)
  }

  /** A state of the live map in the middle of a pass: some of the inserts done, or all
      of them and some of the removals. */
  ghost predicate MidPass(live: map<Url, RelayConfig>, desired: seq<RelayConfig>, stale: set<Url>,
                          m: map<Url, RelayConfig>) {
    || (exists k :: 0 <= k <= |desired| && m == live + MapOf(desired[..k]))
    || (exists removed :: removed <= stale && m == live + MapOf(desired) - removed)
  }

  /** Inserting before removing: the map is never empty on the way. */
  lemma NeverEmptyMidPass(live: map<Url, RelayConfig>, desired: seq<RelayConfig>, stale: set<Url>,
                          m: map<Url, RelayConfig>)
    requires live != map[] && desired != [] && stale !! Urls(desired) && MidPass(live, desired, stale, m)
    ensures m != map[]
  {
    MapOfKeys(desired);
    var u :| u in live;
    UrlAt(desired, 0);
    assert desired[0].url in live + MapOf(desired) - stale;
    if k :| 0 <= k <= |desired| && m == live + MapOf(desired[..k]) {
      assert u in m;
    } else {
      var removed :| removed <= stale && m == live + MapOf(desired) - removed;
      assert desired[0].url in m;
    }
  }

  lemma BootIsNotEmpty(pf: Platform, settings: RelaySettings)
    requires Sane(pf)
    ensures BootMap(pf, settings) != map[]
  {
    if WellFormed(pf, settings.servers) {
      DesiredFacts(pf, settings);
      MapOfKeys(Desired(pf, settings));
      UrlAt(Desired(pf, settings), 0);
    } else {
      MapOfKeys(pf.defaults);
      UrlAt(pf.defaults, 0);
    }
  }

  lemma OverwriteAndTrim(live: map<Url, RelayConfig>, m: map<Url, RelayConfig>, stale: set<Url>)
    requires live.Keys <= stale + m.Keys && stale !! m.Keys
    ensures live + m - stale == m
  {
  }

  /** A full pass turns the map of the old settings into exactly the map of the new
      ones, tokens included; run again, it changes nothing. */
  lemma PassReachesDesired(pf: Platform, before: RelaySettings, live: map<Url, RelayConfig>,
                           after: RelaySettings, desired: seq<RelayConfig>, stale: set<Url>)
    requires Sane(pf) && live == BootMap(pf, before)
    requires WellFormed(pf, after.servers) && desired == Desired(pf, after) && stale == Stale(pf, before, desired)
    ensures live + MapOf(desired) - stale == MapOf(desired)
    ensures MapOf(desired) + MapOf(desired) - stale == MapOf(desired)
    ensures live != map[] && desired != [] && stale !! Urls(desired)
  {
    MapOfKeys(desired);
    BootKeys(pf, before);
    BootIsNotEmpty(pf, before);
    DesiredFacts(pf, after);
    OverwriteAndTrim(live, MapOf(desired), stale);
    OverwriteAndTrim(MapOf(desired), MapOf(desired), stale);
  }

  /** Whatever the old settings put into the map is a candidate for removal. */
  lemma BootKeys(pf: Platform, settings: RelaySettings)
    requires Sane(pf)
    ensures BootMap(pf, settings).Keys <= Urls(pf.defaults) + CustomUrls(pf, settings)
  {
    MapOfKeys(pf.defaults);
    if WellFormed(pf, settings.servers) {
      MapOfKeys(Desired(pf, settings));
      DesiredFacts(pf, settings);
    }
  }

  /** `token_change_needs_rebind`: the change adds or alters a token. */
  predicate NeedsRebind(known: seq<RelayConfig>, custom: seq<RelayConfig>) {
    exists c :: c in custom && c.token.Some? && c !in known
  }

  // ----- tokens of running relay connections -----

  /** Every running connection to a relay for which `cfgs` has a token was started with
      that token. `actors` maps the relays with a running connection to the token it was
      started with, which it keeps for life. */
  ghost predicate UpToDate(cfgs: seq<RelayConfig>, actors: map<Url, Option<string>>) {
    forall c :: c in cfgs && c.token.Some? && c.url in actors ==> actors[c.url] == c.token
  }

  /** Whatever connections may be running under the known relays, they are good for the
      new ones too. */
  ghost predicate LiveRouteIsSafe(known: seq<RelayConfig>, custom: seq<RelayConfig>) {
    forall actors :: UpToDate(known, actors) ==> UpToDate(custom, actors)
  }

  /** The rebind test is exact: changing the map under running connections is safe if and
      only if it asks for no rebind. */
  lemma RebindExactlyWhenUnsafe(known: seq<RelayConfig>, custom: seq<RelayConfig>)
    requires DistinctUrls(known)
    ensures LiveRouteIsSafe(known, custom) <==> !NeedsRebind(known, custom)
  {
    if NeedsRebind(known, custom) {
      var c :| c in custom && c.token.Some? && c !in known;
      var actors := StaleConnection(known, c);
      assert !UpToDate(custom, actors);
    }
  }

  /** A connection that the known relays allow and `c` makes out of date. */
  lemma StaleConnection(known: seq<RelayConfig>, c: RelayConfig) returns (actors: map<Url, Option<string>>)
    requires DistinctUrls(known) && c.token.Some? && c !in known
    ensures UpToDate(known, actors) && c.url in actors && actors[c.url] != c.token
  {
    if c.url in Urls(known) {
      var i := UrlFrom(known, c.url);
      actors := map[c.url := known[i].token];
      assert known[i] in known;
      forall d | d in known && d.url == c.url
        ensures d == known[i]
      {
        var j :| 0 <= j < |known| && known[j] == d;
      }
    } else {
      actors := map[c.url := None];
    }
  }

  lemma {:induction false} MapOfHas(cfgs: seq<RelayConfig>, c: RelayConfig)
    requires DistinctUrls(cfgs) && c in cfgs
    ensures c.url in MapOf(cfgs) && MapOf(cfgs)[c.url] == c
  {
    var n := |cfgs| - 1;
    var i :| 0 <= i < |cfgs| && cfgs[i] == c;
    if i < n {
      assert cfgs[..n][i] == c;
      MapOfHas(cfgs[..n], c);
    }
  }

  /** The map of the settings holds the custom relays with their own tokens. */
  lemma BootHasCustom(pf: Platform, settings: RelaySettings, c: RelayConfig)
    requires Sane(pf) && c in CustomConfigs(pf, settings)
    ensures c.url in BootMap(pf, settings) && BootMap(pf, settings)[c.url] == c
  {
    DesiredFacts(pf, settings);
    MapOfHas(Desired(pf, settings), c);
  }

  // ----- the running endpoint -----

  /** The relay part of a running node. A settings change is applied in full before the
      next one. */
  class Endpoint {
    const pf: Platform
    var settings: RelaySettings
    var preferred: set<Url>
    var live: map<Url, RelayConfig>
    var actors: map<Url, Option<string>>

    /** The live map is the one the saved settings ask for, the selector prefers the
        custom relays, and no running connection uses an outdated token. */
    ghost predicate Valid()
      reads this
    {
      && Sane(pf)
      && live == BootMap(pf, settings)
      && preferred == CustomUrls(pf, settings)
      && UpToDate(CustomConfigs(pf, settings), actors)
    }

    /** Startup: bind with whatever settings are on disk. */
    constructor (pf: Platform, saved: RelaySettings)
      requires Sane(pf)
      ensures Valid() && this.pf == pf && settings == saved
      ensures !WellFormed(pf, saved.servers) ==> live == MapOf(pf.defaults) && preferred == {}
      ensures WellFormed(pf, saved.servers) ==>
                live == MapOf(Desired(pf, saved)) && preferred == Urls(Configs(pf, saved.servers))
    {
      this.pf := pf;
      settings := saved;
      var desired := DesiredRelayConfigs(pf, saved);
      var custom := RelayConfigs(pf, saved.servers);
      var bound := BuildMap(if desired.Ok? then desired.value else pf.defaults);
      live := bound;
      preferred := if custom.Ok? then Urls(custom.value) else {};
      actors := map[];
    }

    /** A connection to a relay is started, with the token the live map has for it: for
        our own use, or because a peer advertised a relay we never configured. */
    method StartRelayConnection(url: Url)
      requires Valid()
      modifies this`actors
      ensures Valid() && url in actors
      ensures url in old(actors) ==> actors == old(actors)
      ensures url !in old(actors) ==>
        actors == old(actors)[url := if url in live then live[url].token else None]
    {
      if url !in actors {
        forall c | c in CustomConfigs(pf, settings)
          ensures c.url in live && live[c.url] == c
        {
          BootHasCustom(pf, settings, c);
        }
        actors := actors[url := if url in live then live[url].token else None];
      }
    }

    /** A connection to a relay comes to its end. */
    method EndRelayConnection(url: Url)
      requires Valid()
      modifies this`actors
      ensures Valid() && actors == old(actors) - {url}
    {
      actors := actors - {url};
    }

    /** `set_relay_settings`, with the applier it spawns run to its end. Invalid settings
        change nothing; valid ones end with exactly the desired map live. */
    method SetRelaySettings(next: RelaySettings) returns (ok: bool)
      requires Valid()
      modifies this
      ensures Valid() && (ok <==> WellFormed(pf, next.servers))
      ensures ok ==> settings == next && live == MapOf(Desired(pf, next))
      ensures ok ==>
                actors == if NeedsRebind(CustomConfigs(pf, old(settings)), Configs(pf, next.servers)) then map[]
                          else old(actors)
      ensures !ok ==> settings == old(settings) && live == old(live)
      ensures !ok ==> preferred == old(preferred) && actors == old(actors)
    {
      var desired := DesiredRelayConfigs(pf, next);
      if desired.Err? {
        return false;
      }
      var custom := RelayConfigs(pf, next.servers);
      var before := RelayConfigs(pf, settings.servers);
      var known := if before.Ok? then before.value else [];
      ghost var prior := settings;
      preferred := Urls(custom.value);
      settings := next;
      ChangeMap(known, custom.value, desired.value, prior, next);
      return true;
    }

    /** The two ways to bring a change about: a rebind, which starts over with the new map
        and no connections, or a pass over the live map. */
    method ChangeMap(known: seq<RelayConfig>, custom: seq<RelayConfig>, desired: seq<RelayConfig>,
                     ghost prior: RelaySettings, ghost next: RelaySettings)
      requires Sane(pf) && live == BootMap(pf, prior) && UpToDate(known, actors)
      requires known == CustomConfigs(pf, prior) && WellFormed(pf, next.servers)
      requires custom == Configs(pf, next.servers) && desired == Desired(pf, next)
      modifies this`live, this`actors
      ensures live == MapOf(desired) && UpToDate(custom, actors)
      ensures actors == if NeedsRebind(known, custom) then map[] else old(actors)
    {
      if NeedsRebind(known, custom) {
        live := BuildMap(desired);
        actors := map[];
      } else {
        var stale := Urls(pf.defaults) + Urls(known) - Urls(desired);
        PassReachesDesired(pf, prior, live, next, desired, stale);
        ghost var trail := ApplyRelayMap(desired, stale);
      }
    }

    /** One pass of `apply_relay_map`: every insert, then every removal. `trail` are the
        maps the endpoint goes through, call by call: never an empty one. */
    method ApplyRelayMap(desired: seq<RelayConfig>, stale: set<Url>) returns (ghost trail: seq<map<Url, RelayConfig>>)
      requires live != map[] && desired != [] && stale !! Urls(desired)
      modifies this`live
      ensures live == old(live) + MapOf(desired) - stale
      ensures IsTrail(trail, old(live), live) && forall i :: 0 <= i < |trail| ==> trail[i] != map[]
    {
      ghost var start := live;
      trail := [live];
      for i := 0 to |desired|
        invariant live == start + MapOf(desired[..i]) && live != map[]
        invariant IsTrail(trail, start, live) && forall k :: 0 <= k < |trail| ==> trail[k] != map[]
      {
        assert desired[..i + 1][..i] == desired[..i];
        TrailGrows(trail, start, live, desired[i].url, live[desired[i].url := desired[i]]);
        live := live[desired[i].url := desired[i]];
        assert MidPass(start, desired, stale, start + MapOf(desired[..i + 1]));
        NeverEmptyMidPass(start, desired, stale, start + MapOf(desired[..i + 1]));
        trail := trail + [live];
      }
      assert desired[..|desired|] == desired;
      trail := RemoveStale(desired, stale, start, trail);
    }

    /** The removals of a pass. */
    method RemoveStale(desired: seq<RelayConfig>, stale: set<Url>, ghost start: map<Url, RelayConfig>,
                       ghost before: seq<map<Url, RelayConfig>>)
      returns (ghost trail: seq<map<Url, RelayConfig>>)
      requires start != map[] && desired != [] && stale !! Urls(desired) && live == start + MapOf(desired)
      requires IsTrail(before, start, live) && forall i :: 0 <= i < |before| ==> before[i] != map[]
      modifies this`live
      ensures live == start + MapOf(desired) - stale
      ensures IsTrail(trail, start, live) && forall i :: 0 <= i < |trail| ==> trail[i] != map[]
    {
      trail := before;
      var rest := stale;
      while rest != {}
        invariant rest <= stale
        invariant live == start + MapOf(desired) - (stale - rest)
        invariant IsTrail(trail, start, live) && forall k :: 0 <= k < |trail| ==> trail[k] != map[]
        decreases rest
      {
        var url :| url in rest;
        TrailGrows(trail, start, live, url, live - {url});
        live := live - {url};
        rest := rest - {url};
        assert live == start + MapOf(desired) - (stale - rest);
        assert MidPass(start, desired, stale, start + MapOf(desired) - (stale - rest));
        NeverEmptyMidPass(start, desired, stale, live);
        trail := trail + [live];
      }
    }
  }

  /** `m'` differs from `m` at one URL at most. */
  ghost predicate OneCall(m: map<Url, RelayConfig>, m': map<Url, RelayConfig>) {
    exists u :: m' - {u} == m - {u}
  }

  /** A way from one map to another, one call at a time. */
  ghost predicate IsTrail(trail: seq<map<Url, RelayConfig>>, from: map<Url, RelayConfig>, to: map<Url, RelayConfig>) {
    && trail != [] && trail[0] == from && trail[|trail| - 1] == to
    && forall i :: 0 <= i < |trail| - 1 ==> OneCall(trail[i], trail[i + 1])
  }

  lemma TrailGrows(trail: seq<map<Url, RelayConfig>>, from: map<Url, RelayConfig>, to: map<Url, RelayConfig>,
                   u: Url, next: map<Url, RelayConfig>)
    requires IsTrail(trail, from, to) && next - {u} == to - {u}
    ensures IsTrail(trail + [next], from, next)
  {
    var longer := trail + [next];
    forall i | 0 <= i < |longer| - 1
      ensures OneCall(longer[i], longer[i + 1])
    {
      if i < |trail| - 1 {
        assert OneCall(trail[i], trail[i + 1]);
      } else {
        assert longer[i] == to;
      }
    }
  }

  /** `RelayMap::from_iter`. */
  method BuildMap(cfgs: seq<RelayConfig>) returns (m: map<Url, RelayConfig>)
    ensures m == MapOf(cfgs)
  {
    m := map[];
    for i := 0 to |cfgs|
      invariant m == MapOf(cfgs[..i])
    {
      assert cfgs[..i + 1][..i] == cfgs[..i];
      m := m[cfgs[i].url := cfgs[i]];
    }
    assert cfgs[..|cfgs|] == cfgs;
  }

  // ----- what is accepted -----

  predicate PrintableAscii(token: string) {
    |token| > 0 && forall k :: 0 <= k < |token| ==> 0x21 <= token[k] as int <= 0x7e
  }

  lemma TokenOkMeans(token: string)
    ensures TokenOk(token) <==> PrintableAscii(token)
  {
    if TokenOk(token) {
      assert forall k :: 0 <= k < |token| ==> token[k] in token;
    }
  }

  /** Settings are accepted exactly if all URLs parse and differ, and all tokens are non-empty
      printable ASCII without spaces. */
  lemma AcceptedExactly(pf: Platform, servers: seq<RelayServer>)
    ensures WellFormed(pf, servers) <==>
            && (forall i :: 0 <= i < |servers| ==> pf.parse(servers[i].url).Some?)
            && (forall i, j :: 0 <= i < j < |servers| ==> pf.parse(servers[i].url) != pf.parse(servers[j].url))
            && (forall i :: 0 <= i < |servers| && servers[i].token.Some? ==> PrintableAscii(servers[i].token.value))
  {
    forall i | 0 <= i < |servers|
      ensures FaultAt(pf, servers, i).None? <==> IsFine(pf, servers, i)
    {
      FineMeans(pf, servers, i);
    }
    if WellFormed(pf, servers) {
      forall i | 0 <= i < |servers|
        ensures IsFine(pf, servers, i)
      {
        assert FaultAt(pf, servers, i).None?;
      }
      forall i, j | 0 <= i < j < |servers|
        ensures pf.parse(servers[i].url) != pf.parse(servers[j].url)
      {
        assert IsFine(pf, servers, j);
      }
      forall i | 0 <= i < |servers|
        ensures pf.parse(servers[i].url).Some?
        ensures servers[i].token.Some? ==> PrintableAscii(servers[i].token.value)
      {
        assert IsFine(pf, servers, i);
      }
    }
  }

  predicate IsFine(pf: Platform, servers: seq<RelayServer>, i: nat)
    requires i < |servers|
  {
    && pf.parse(servers[i].url).Some?
    && (forall j :: 0 <= j < i ==> pf.parse(servers[j].url) != pf.parse(servers[i].url))
    && (servers[i].token.Some? ==> PrintableAscii(servers[i].token.value))
  }

  lemma FineMeans(pf: Platform, servers: seq<RelayServer>, i: nat)
    requires i < |servers|
    ensures FaultAt(pf, servers, i).None? <==> IsFine(pf, servers, i)
  {
    if servers[i].token.Some? {
      TokenOkMeans(servers[i].token.value);
    }
  }

  /** What is reported of a faulty server: its URL first, then its token. */
  lemma FaultMeans(pf: Platform, servers: seq<RelayServer>, i: nat)
    requires i < |servers|
    ensures FaultAt(pf, servers, i) == Some(InvalidUrl) <==> pf.parse(servers[i].url).None?
    ensures FaultAt(pf, servers, i) == Some(DuplicateUrl) <==>
            pf.parse(servers[i].url).Some?
            && exists j :: 0 <= j < i && pf.parse(servers[j].url) == pf.parse(servers[i].url)
  {
  }
}
