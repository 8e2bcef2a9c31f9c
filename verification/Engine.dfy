/**
 One request, several dimensions: the engine builds a key per configured dimension, asks the
 store about each, and allows the request if all of them do. Tool and prompt requests share
 the store; prompts skip the per-server quota.
 */
module Engine {
  import opened Outcomes
  import Arithmetic
  import opened Text
  import opened RateConfig
  import opened Histories
  import opened KeyMachine
  import opened Sweeping
  import opened MemoryStore
  import opened WindowBounds
  import opened BucketBounds
  import opened Aggregation
  import opened Keys

  datatype EngineConfig = EngineConfig(
    byUser: Option<RateLimit>,
    byUserPerServer: Option<RateLimit>,
    byTenant: Option<RateLimit>,
    byTool: map<string, RateLimit>,
    algorithm: Algorithm)

  datatype Identity = Identity(
    user: string, tenant: Option<string>, tool: string, prefix: Option<string>, serverId: Option<string>)

  datatype ServerIdError = Missing | TooLong | BadCharacter

  datatype Dimension = Dimension(key: string, rate: RateLimit)

  function ForPrompts(cfg: EngineConfig): EngineConfig {
    cfg.(byUserPerServer := None)
  }

  predicate ServerIdChar(c: char) {
    'a' <= c <= 'z' || 'A' <= c <= 'Z' || '0' <= c <= '9' || c == '-' || c == '_' || c == '.'
  }

  lemma ServerIdCharIff(c: char)
    ensures ServerIdChar(c) <==> c in UPPER_CASE || c in LOWER_CASE || c in DIGITS || c in {'-', '_', '.'}
  {
    CapitalIff(c);
    SmallIff(c);
    DigitIff(c);
  }

  predicate ValidServerId(id: string) {
    id != [] && Bytes(id) <= 128 && forall i :: 0 <= i < |id| ==> ServerIdChar(id[i])
  }

  function ValidatedServerId(cfg: EngineConfig, serverId: Option<string>): (r: Result<Option<string>, ServerIdError>)
    ensures cfg.byUserPerServer.None? ==> r == Ok(None)
    ensures cfg.byUserPerServer.Some? ==> (r.Ok? <==> serverId.Some? && ValidServerId(Trim(serverId.value)))
    ensures cfg.byUserPerServer.Some? && (serverId.None? || Trim(serverId.value) == "") ==> r == Err(Missing)
    ensures cfg.byUserPerServer.Some? && serverId.Some? && Bytes(Trim(serverId.value)) > 128 ==>
              r == Err(if Trim(serverId.value) == "" then Missing else TooLong)
    ensures r == Err(TooLong) ==> serverId.Some? && Bytes(Trim(serverId.value)) > 128
    ensures r == Err(Missing) ==> serverId.None? || Trim(serverId.value) == ""
    ensures cfg.byUserPerServer.Some? && r.Ok? ==> r.value == Some(Trim(serverId.value)) && ColonFree(r.value.value)
  {
    if cfg.byUserPerServer.None? then Ok(None)
    else
      var id := if serverId.Some? then Trim(serverId.value) else [];
      if id == [] then Err(Missing)
      else if Bytes(id) > 128 then Err(TooLong)
      else if exists i :: 0 <= i < |id| && !ServerIdChar(id[i]) then Err(BadCharacter)
      else Ok(Some(id))
  }

  function Prefixed(prefix: Option<string>, rest: string): string {
    if prefix.None? || prefix.value == "" then rest else prefix.value + ":" + rest
  }

  const SLOTS: nat := 4

  /** The rate checked in the given place, if it is configured and the request has what it needs. */
  function SlotRate(cfg: EngineConfig, id: Identity, server: Option<string>, n: nat): Option<RateLimit> {
    match n
    case 0 => cfg.byUser
    case 1 => if server.Some? then cfg.byUserPerServer else None
    case 2 => if id.tenant.Some? then cfg.byTenant else None
    case 3 => if id.tool in cfg.byTool then Some(cfg.byTool[id.tool]) else None
    case _ => None
  }

  function Slot(cfg: EngineConfig, id: Identity, server: Option<string>, n: nat): Option<Dimension> {
    var rate := SlotRate(cfg, id, server, n);
    if rate.Some? then Some(Dimension(Prefixed(id.prefix, SlotText(id, server, n)), rate.value)) else None
  }

  function SlotText(id: Identity, server: Option<string>, n: nat): string {
    match n
    case 0 => "user:" + id.user
    case 1 => "user:" + id.user + ":server:" + (if server.Some? then server.value else "")
    case 2 => "tenant:" + (if id.tenant.Some? then id.tenant.value else "")
    case _ => "tool:" + id.tool
  }

  function Collect(cfg: EngineConfig, id: Identity, server: Option<string>, n: nat): seq<Dimension>
    decreases SLOTS - n
  {
    if n >= SLOTS then []
    else
      var slot := Slot(cfg, id, server, n);
      (if slot.Some? then [slot.value] else []) + Collect(cfg, id, server, n + 1)
  }

  /** The checks of one request; `server` is the validated server id. */
  function Dimensions(cfg: EngineConfig, id: Identity, server: Option<string>): seq<Dimension> {
    Collect(cfg, id, server, 0)
  }

  // ---- What is checked ----

  function PrefixText(prefix: Option<string>): string {
    if prefix.Some? && prefix.value != "" then prefix.value + ":" else ""
  }

  function UserKey(id: Identity): string {
    PrefixText(id.prefix) + "user:" + id.user
  }

  function ServerKey(id: Identity, server: string): string {
    PrefixText(id.prefix) + "user:" + id.user + ":server:" + server
  }

  function TenantKey(id: Identity, tenant: string): string {
    PrefixText(id.prefix) + "tenant:" + tenant
  }

  function ToolKey(id: Identity): string {
    PrefixText(id.prefix) + "tool:" + id.tool
  }

  function One(check: bool, key: string, rate: Option<RateLimit>): seq<Dimension> {
    if check && rate.Some? then [Dimension(key, rate.value)] else []
  }

  function ToolRate(cfg: EngineConfig, tool: string): Option<RateLimit> {
    if tool in cfg.byTool then Some(cfg.byTool[tool]) else None
  }

  /** Every configured limit whose subject the request names is checked, at its own rate, in this order. */
  lemma DimensionsAre(cfg: EngineConfig, id: Identity, server: Option<string>)
    ensures Dimensions(cfg, id, server)
         == One(true, UserKey(id), cfg.byUser)
            + One(server.Some?, if server.Some? then ServerKey(id, server.value) else "", cfg.byUserPerServer)
            + One(id.tenant.Some?, if id.tenant.Some? then TenantKey(id, id.tenant.value) else "", cfg.byTenant)
            + One(true, ToolKey(id), ToolRate(cfg, id.tool))
  {
    hide SlotText, Prefixed, Slot, One, UserKey, ServerKey, TenantKey, ToolKey;
    var a, b, c, d := SlotIs(cfg, id, server);
    assert Collect(cfg, id, server, 4) == [];
    CollectStep(cfg, id, server, 3);
    CollectStep(cfg, id, server, 2);
    CollectStep(cfg, id, server, 1);
    CollectStep(cfg, id, server, 0);
    FourTogether(a, b, c, d);
  }

  lemma FourTogether<T>(a: seq<T>, b: seq<T>, c: seq<T>, d: seq<T>)
    ensures a + (b + (c + (d + []))) == a + b + c + d
  {
  }

  function SlotList(cfg: EngineConfig, id: Identity, server: Option<string>, n: nat): seq<Dimension> {
    if Slot(cfg, id, server, n).Some? then [Slot(cfg, id, server, n).value] else []
  }

  lemma SlotIs(cfg: EngineConfig, id: Identity, server: Option<string>)
    returns (a: seq<Dimension>, b: seq<Dimension>, c: seq<Dimension>, d: seq<Dimension>)
    ensures a == SlotList(cfg, id, server, 0) == One(true, UserKey(id), cfg.byUser)
    ensures b == SlotList(cfg, id, server, 1)
              == One(server.Some?, if server.Some? then ServerKey(id, server.value) else "", cfg.byUserPerServer)
    ensures c == SlotList(cfg, id, server, 2)
              == One(id.tenant.Some?, if id.tenant.Some? then TenantKey(id, id.tenant.value) else "", cfg.byTenant)
    ensures d == SlotList(cfg, id, server, 3) == One(true, ToolKey(id), ToolRate(cfg, id.tool))
  {
    hide SlotText, Prefixed, UserKey, ServerKey, TenantKey, ToolKey;
    SlotKeys(id, server);
    a, b := SlotList(cfg, id, server, 0), SlotList(cfg, id, server, 1);
    c, d := SlotList(cfg, id, server, 2), SlotList(cfg, id, server, 3);
  }

  lemma CollectStep(cfg: EngineConfig, id: Identity, server: Option<string>, n: nat)
    requires n < SLOTS
    ensures Collect(cfg, id, server, n) == SlotList(cfg, id, server, n) + Collect(cfg, id, server, n + 1)
  {
  }

  /** A dimension is checked exactly in one of four cases. */
  lemma CheckedIff(cfg: EngineConfig, id: Identity, server: Option<string>, d: Dimension)
    ensures d in Dimensions(cfg, id, server) <==>
              || (cfg.byUser.Some? && d == Dimension(UserKey(id), cfg.byUser.value))
              || (cfg.byUserPerServer.Some? && server.Some?
                  && d == Dimension(ServerKey(id, server.value), cfg.byUserPerServer.value))
              || (cfg.byTenant.Some? && id.tenant.Some?
                  && d == Dimension(TenantKey(id, id.tenant.value), cfg.byTenant.value))
              || (id.tool in cfg.byTool && d == Dimension(ToolKey(id), cfg.byTool[id.tool]))
  {
    hide Dimensions, UserKey, ServerKey, TenantKey, ToolKey;
    DimensionsAre(cfg, id, server);
  }

  lemma SlotKeys(id: Identity, server: Option<string>)
    ensures Prefixed(id.prefix, SlotText(id, server, 0)) == UserKey(id)
    ensures server.Some? ==> Prefixed(id.prefix, SlotText(id, server, 1)) == ServerKey(id, server.value)
    ensures id.tenant.Some? ==> Prefixed(id.prefix, SlotText(id, server, 2)) == TenantKey(id, id.tenant.value)
    ensures Prefixed(id.prefix, SlotText(id, server, 3)) == ToolKey(id)
  {
    PrefixedText(id.prefix, "user:", id.user);
    if server.Some? {
      PrefixedText(id.prefix, "user:", id.user + ":server:" + server.value);
      assert "user:" + id.user + ":server:" + server.value == "user:" + (id.user + ":server:" + server.value);
      assert PrefixText(id.prefix) + "user:" + (id.user + ":server:" + server.value) == ServerKey(id, server.value);
    }
    if id.tenant.Some? {
      PrefixedText(id.prefix, "tenant:", id.tenant.value);
    }
    PrefixedText(id.prefix, "tool:", id.tool);
  }

  lemma PrefixedText(prefix: Option<string>, tag: string, subject: string)
    ensures Prefixed(prefix, tag + subject) == PrefixText(prefix) + tag + subject
  {
    if prefix.Some? && prefix.value != "" {
      assert prefix.value + ":" + (tag + subject) == PrefixText(prefix) + tag + subject;
    } else {
      assert [] + tag + subject == tag + subject;
    }
  }

  /** Does the run of this key admit a call made now? */
  ghost predicate Admits(ps: Policies, k: string, callsOn: string -> History<Stamp>, at: Stamp)
    requires ValidPolicies(ps)
  {
    SoloResult(ps(k), callsOn(k), at).allowed
  }

  /** Does the run of every configured subject of the request? */
  ghost predicate EverySubjectAdmits(ps: Policies, cfg: EngineConfig, id: Identity, server: Option<string>,
                                     callsOn: string -> History<Stamp>, at: Stamp)
    requires ValidPolicies(ps)
  {
    && (cfg.byUser.Some? ==> Admits(ps, UserKey(id), callsOn, at))
    && (cfg.byUserPerServer.Some? && server.Some? ==> Admits(ps, ServerKey(id, server.value), callsOn, at))
    && (cfg.byTenant.Some? && id.tenant.Some? ==> Admits(ps, TenantKey(id, id.tenant.value), callsOn, at))
    && (id.tool in cfg.byTool ==> Admits(ps, ToolKey(id), callsOn, at))
  }

  /** A request is allowed exactly if the run of every configured subject it names admits it. */
  lemma AllowedIff(ps: Policies, cfg: EngineConfig, id: Identity, server: Option<string>,
                   callsOn: string -> History<Stamp>, at: Stamp)
    requires ValidPolicies(ps)
    ensures FromDims(Answers(ps, Dimensions(cfg, id, server), callsOn, at)).allowed
       <==> EverySubjectAdmits(ps, cfg, id, server, callsOn, at)
  {
    hide FromDims, UserKey, ServerKey, TenantKey, ToolKey, Dimensions, SoloResult;
    VerdictMeaning(ps, Dimensions(cfg, id, server), callsOn, at);
    forall d
      ensures d in Dimensions(cfg, id, server) ==>
                (EverySubjectAdmits(ps, cfg, id, server, callsOn, at) ==> Admits(ps, d.key, callsOn, at))
    {
      CheckedIff(cfg, id, server, d);
    }
    SubjectsChecked(cfg, id, server);
    AllAdmitIff(ps, Dimensions(cfg, id, server), callsOn, at);
  }

  lemma SubjectsChecked(cfg: EngineConfig, id: Identity, server: Option<string>)
    ensures cfg.byUser.Some? ==> Dimension(UserKey(id), cfg.byUser.value) in Dimensions(cfg, id, server)
    ensures cfg.byUserPerServer.Some? && server.Some? ==>
              Dimension(ServerKey(id, server.value), cfg.byUserPerServer.value) in Dimensions(cfg, id, server)
    ensures cfg.byTenant.Some? && id.tenant.Some? ==>
              Dimension(TenantKey(id, id.tenant.value), cfg.byTenant.value) in Dimensions(cfg, id, server)
    ensures id.tool in cfg.byTool ==> Dimension(ToolKey(id), cfg.byTool[id.tool]) in Dimensions(cfg, id, server)
  {
    hide Dimensions, UserKey, ServerKey, TenantKey, ToolKey;
    if cfg.byUser.Some? {
      CheckedIff(cfg, id, server, Dimension(UserKey(id), cfg.byUser.value));
    }
    if cfg.byUserPerServer.Some? && server.Some? {
      CheckedIff(cfg, id, server, Dimension(ServerKey(id, server.value), cfg.byUserPerServer.value));
    }
    if cfg.byTenant.Some? && id.tenant.Some? {
      CheckedIff(cfg, id, server, Dimension(TenantKey(id, id.tenant.value), cfg.byTenant.value));
    }
    if id.tool in cfg.byTool {
      CheckedIff(cfg, id, server, Dimension(ToolKey(id), cfg.byTool[id.tool]));
    }
  }

  lemma AllAdmitIff(ps: Policies, dims: seq<Dimension>, callsOn: string -> History<Stamp>, at: Stamp)
    requires ValidPolicies(ps)
    ensures (forall i :: 0 <= i < |dims| ==> SoloResult(ps(dims[i].key), callsOn(dims[i].key), at).allowed)
       <==> forall d :: d in dims ==> Admits(ps, d.key, callsOn, at)
  {
    hide SoloResult;
  }

  // ---- Keys ----

  ghost predicate DistinctKeys(dims: seq<Dimension>) {
    forall i, j :: 0 <= i < j < |dims| ==> dims[i].key != dims[j].key
  }

  lemma PrefixedInjective(prefix: Option<string>, a: string, b: string)
    requires a != b
    ensures Prefixed(prefix, a) != Prefixed(prefix, b)
  {
    if prefix.Some? && prefix.value != "" {
      var p := prefix.value + ":";
      assert (p + a)[|p|..] == a && (p + b)[|p|..] == b;
    }
  }

  lemma SlotTextsDiffer(id: Identity, server: Option<string>, m: nat, n: nat)
    requires m < n < SLOTS
    ensures SlotText(id, server, m) != SlotText(id, server, n)
  {
    var a, b := SlotText(id, server, m), SlotText(id, server, n);
    if n == 1 {
      assert |a| < |b|;
    } else if m == 2 {
      assert a[1] == 'e' && b[1] == 'o';
    } else {
      assert a[0] == 'u' && b[0] == 't';
    }
  }

  lemma {:induction false} CollectedFrom(cfg: EngineConfig, id: Identity, server: Option<string>, n: nat, d: Dimension)
    returns (m: nat)
    requires d in Collect(cfg, id, server, n)
    ensures n <= m < SLOTS && Slot(cfg, id, server, m) == Some(d)
    decreases SLOTS - n
  {
    hide Slot;
    if Slot(cfg, id, server, n) == Some(d) {
      m := n;
    } else {
      m := CollectedFrom(cfg, id, server, n + 1, d);
    }
  }

  lemma SlotKeysDiffer(cfg: EngineConfig, id: Identity, server: Option<string>, m: nat, n: nat)
    requires m < n < SLOTS && Slot(cfg, id, server, m).Some? && Slot(cfg, id, server, n).Some?
    ensures Slot(cfg, id, server, m).value.key != Slot(cfg, id, server, n).value.key
  {
    hide SlotText, Prefixed, SlotRate;
    SlotTextsDiffer(id, server, m, n);
    PrefixedInjective(id.prefix, SlotText(id, server, m), SlotText(id, server, n));
  }

  lemma {:induction false} CollectDistinct(cfg: EngineConfig, id: Identity, server: Option<string>, n: nat)
    ensures DistinctKeys(Collect(cfg, id, server, n))
    decreases SLOTS - n
  {
    hide Slot;
    if n < SLOTS {
      CollectDistinct(cfg, id, server, n + 1);
      var slot, rest := Slot(cfg, id, server, n), Collect(cfg, id, server, n + 1);
      if slot.Some? {
        forall j | 0 <= j < |rest|
          ensures rest[j].key != slot.value.key
        {
          var m := CollectedFrom(cfg, id, server, n + 1, rest[j]);
          SlotKeysDiffer(cfg, id, server, n, m);
        }
      }
    }
  }

  /** A request never asks about the same key twice. */
  lemma KeysDistinct(cfg: EngineConfig, id: Identity, server: Option<string>)
    ensures DistinctKeys(Dimensions(cfg, id, server))
  {
    CollectDistinct(cfg, id, server, 0);
  }

  function WindowText(rate: RateLimit): string {
    Decimal(rate.windowNanos / NANOS_PER_SEC)
  }

  function RedisKey(prefix: string, d: Dimension): string {
    prefix + ":" + d.key + ":" + WindowText(d.rate)
  }

  /** The prefix, the dimension key and the window in seconds. */
  lemma RedisKeyIs(prefix: string, d: Dimension)
    requires ValidRate(d.rate)
    ensures RedisKey(prefix, d)
         == prefix + ":" + d.key + (if d.rate.windowNanos == 1_000_000_000 then ":1"
                                    else if d.rate.windowNanos == 60_000_000_000 then ":60" else ":3600")
  {
    WindowWords();
    assert prefix + ":" + d.key + ":" + WindowText(d.rate) == prefix + ":" + d.key + (":" + WindowText(d.rate));
  }

  lemma WindowWords()
    ensures Decimal(1) == "1" && Decimal(60) == "60" && Decimal(3600) == "3600"
  {
    assert Decimal(3) == "3" && Decimal(6) == "6";
    assert Decimal(36) == Decimal(3) + "6" == "36";
    assert Decimal(360) == Decimal(36) + "0" == "360";
    assert Decimal(3600) == Decimal(360) + "0";
    assert Decimal(60) == Decimal(6) + "0";
  }

  lemma WindowTextInjective(a: RateLimit, b: RateLimit)
    requires WindowText(a) == WindowText(b)
    ensures a.windowNanos / NANOS_PER_SEC == b.windowNanos / NANOS_PER_SEC
    ensures ValidRate(a) && ValidRate(b) ==> a.windowNanos == b.windowNanos
  {
    DecimalValue(a.windowNanos / NANOS_PER_SEC);
    DecimalValue(b.windowNanos / NANOS_PER_SEC);
  }

  /** The Redis key keeps dimensions apart, and windows of one dimension too. */
  lemma RedisKeyInjective(prefix: string, d: Dimension, e: Dimension)
    requires RedisKey(prefix, d) == RedisKey(prefix, e)
    ensures d.key == e.key
    ensures d.rate.windowNanos / NANOS_PER_SEC == e.rate.windowNanos / NANOS_PER_SEC
    ensures ValidRate(d.rate) && ValidRate(e.rate) ==> d.rate.windowNanos == e.rate.windowNanos
  {
    LastPart(prefix + ":" + d.key, WindowText(d.rate), prefix + ":" + e.key, WindowText(e.rate));
    var p := prefix + ":";
    assert (p + d.key)[|p|..] == d.key && (p + e.key)[|p|..] == e.key;
    WindowTextInjective(d.rate, e.rate);
  }

  // ---- Requests ----

  /** The answers of the store's dimensions, asked in order, given the calls made on each key so far. */
  ghost function Answers(ps: Policies, dims: seq<Dimension>, callsOn: string -> History<Stamp>,
                         at: Stamp): seq<DimResult>
    requires ValidPolicies(ps)
  {
    seq(|dims|, i requires 0 <= i < |dims| => SoloResult(ps(dims[i].key), callsOn(dims[i].key), at))
  }

  predicate Carries(dims: seq<Dimension>, k: string) {
    exists i :: 0 <= i < |dims| && dims[i].key == k
  }

  ghost predicate Configured(ps: Policies, dims: seq<Dimension>, algorithm: Algorithm) {
    forall i :: 0 <= i < |dims| ==> ps(dims[i].key) == Policy(dims[i].rate, algorithm)
  }

  /** No key of these was last locked at a later reading. */
  ghost predicate InTime(store: Store, dims: seq<Dimension>, nowMono: nat)
    requires ValidPolicies(store.policies)
    reads store
  {
    forall i :: 0 <= i < |dims| ==> KeyClock(store.policies, store.events, dims[i].key) <= nowMono
  }

  class RateLimiter {
    const config: EngineConfig
    const store: Store
    /** The requests that reached the store, with the dimensions each carried. */
    ghost var served: History<Served>

    ghost predicate Valid()
      reads this, store
    {
      && store.Valid()
      && forall k :: CallsOn(store.events, k) == RequestsOn(served, k)
    }

    constructor (config: EngineConfig, ghost policies: Policies)
      requires ValidPolicies(policies)
      ensures Valid() && fresh(store) && store.policies == policies && this.config == config && served == Start
    {
      this.config := config;
      store := new Store(policies);
      served := Start;
    }

    /** Asks the store about each dimension in turn. */
    method AskAll(checks: seq<Dimension>, nowMono: nat, nowUnix: int) returns (answers: seq<DimResult>)
      requires Valid() && InTime(store, checks, nowMono) && nowMono < MONO_LIMIT
      requires DistinctKeys(checks) && Configured(store.policies, checks, config.algorithm)
      modifies this, store
      ensures Valid() && served == Then(old(served), Served(checks, Stamp(nowMono, nowUnix)))
      ensures answers == Answers(store.policies, checks, k => RequestsOn(old(served), k), Stamp(nowMono, nowUnix))
    {
      hide Evaluate;
      ghost var at, before := Stamp(nowMono, nowUnix), served;
      answers := [];
      for i := 0 to |checks|
        invariant store.Valid() && InTime(store, checks, nowMono) && served == before
        invariant forall k :: CallsOn(store.events, k) == WithCalls(before, checks[..i], at, k)
        invariant answers == Answers(store.policies, checks[..i], k => RequestsOn(before, k), at)
      {
        var d := checks[i];
        ghost var events0 := store.events;
        assert !Carries(checks[..i], d.key);
        var answer, contended :=
          store.CheckAndIncrement(d.key, d.rate.count, d.rate.windowNanos, config.algorithm, nowMono, nowUnix);
        answers := answers + [answer];
        forall j | 0 <= j < |checks|
          ensures KeyClock(store.policies, store.events, checks[j].key) <= nowMono
        {
          ClockWithin(store.policies, events0, d.key, at, contended, checks[j].key);
        }
        forall k
          ensures CallsOn(store.events, k) == WithCalls(before, checks[..i + 1], at, k)
        {
          assert CallsOn(store.events, k) == if k == d.key then Then(CallsOn(events0, k), at) else CallsOn(events0, k);
          CarriesOneMore(checks, i, k);
        }
      }
      assert checks[..|checks|] == checks;
      served := Then(served, Served(checks, at));
    }

    /**
     Asks every dimension of one request, as a tool call or as a prompt. The verdict is that of
     the never-evicting runs of the request's keys, and each key gains exactly this one call.
     */
    method Check(id: Identity, forPrompt: bool, nowMono: nat, nowUnix: int)
      returns (r: Result<EvalResult, ServerIdError>, ghost dims: seq<Dimension>)
      requires Valid() && nowMono < MONO_LIMIT
      requires var cfg := if forPrompt then ForPrompts(config) else config;
               var server := ValidatedServerId(cfg, id.serverId);
               server.Ok? ==>
                 && Configured(store.policies, Dimensions(cfg, id, server.value), config.algorithm)
                 && InTime(store, Dimensions(cfg, id, server.value), nowMono)
      modifies this, store
      ensures Valid()
      ensures var cfg := if forPrompt then ForPrompts(config) else config;
              var server := ValidatedServerId(cfg, id.serverId);
              match server
              case Err(e) => r == Err(e) && served == old(served)
              case Ok(sid) =>
                && dims == Dimensions(cfg, id, sid)
                && served == Then(old(served), Served(dims, Stamp(nowMono, nowUnix)))
                && r == Ok(FromDims(Answers(store.policies, dims, k => RequestsOn(old(served), k),
                                            Stamp(nowMono, nowUnix))))
                && (r.value.allowed <==>
                      EverySubjectAdmits(store.policies, config, id, sid, k => RequestsOn(old(served), k),
                                         Stamp(nowMono, nowUnix)))
      ensures forPrompt ==>
                && r.Ok?
                && (r.value.allowed <==>
                      EverySubjectAdmits(store.policies, config, id, None, k => RequestsOn(old(served), k),
                                         Stamp(nowMono, nowUnix)))
    {
      dims := [];
      var cfg := if forPrompt then ForPrompts(config) else config;
      var server := ValidatedServerId(cfg, id.serverId);
      if server.Err? {
        return Err(server.error), dims;
      }
      var checks := Dimensions(cfg, id, server.value);
      dims := checks;
      KeysDistinct(cfg, id, server.value);
      var answers := AskAll(checks, nowMono, nowUnix);
      AllowedIff(store.policies, cfg, id, server.value, k => RequestsOn(old(served), k), Stamp(nowMono, nowUnix));
      r := Ok(FromDims(answers));
    }
  }

  /** The calls on `k` once a request made at `at` has asked about `asked`. */
  function WithCalls(served: History<Served>, asked: seq<Dimension>, at: Stamp, k: string): History<Stamp> {
    if Carries(asked, k) then Then(RequestsOn(served, k), at) else RequestsOn(served, k)
  }

  lemma CarriesOneMore(dims: seq<Dimension>, i: nat, k: string)
    requires i < |dims|
    ensures Carries(dims[..i + 1], k) <==> Carries(dims[..i], k) || dims[i].key == k
  {
    if Carries(dims[..i], k) {
      var j :| 0 <= j < i && dims[..i][j].key == k;
      assert dims[..i + 1][j].key == k;
    }
    if dims[i].key == k {
      assert dims[..i + 1][i].key == k;
    }
    if Carries(dims[..i + 1], k) && dims[i].key != k {
      var j :| 0 <= j < i + 1 && dims[..i + 1][j].key == k;
      assert dims[..i][j].key == k;
    }
  }

  datatype Served = Served(dims: seq<Dimension>, at: Stamp)

  /** The calls one key received: one per request that carried it. */
  function RequestsOn(served: History<Served>, k: string): History<Stamp> {
    match served
    case Start => Start
    case Then(before, s) => if Carries(s.dims, k) then Then(RequestsOn(before, k), s.at) else RequestsOn(before, k)
  }

  /** Times of the allowed requests that carried a key. */
  ghost function AllowedOn(ps: Policies, served: History<Served>, k: string): History<nat>
    requires ValidPolicies(ps)
  {
    match served
    case Start => Start
    case Then(before, s) =>
      var earlier := AllowedOn(ps, before, k);
      if Carries(s.dims, k) && FromDims(Answers(ps, s.dims, key => RequestsOn(before, key), s.at)).allowed
      then Then(earlier, s.at.mono) else earlier
  }

  lemma SoloAnswersWell(p: Policy, calls: History<Stamp>, at: Stamp)
    requires ValidRate(p.rate)
    ensures SoloResult(p, calls, at).allowed <==> SoloResult(p, calls, at).retryAfter.None?
  {
  }

  /**
   A request is allowed iff every key it carries admits it; a denial reports the shortest wait among
   the blocked keys.
   */
  lemma VerdictMeaning(ps: Policies, dims: seq<Dimension>, callsOn: string -> History<Stamp>, at: Stamp)
    requires ValidPolicies(ps)
    ensures var answers := Answers(ps, dims, callsOn, at);
            var verdict := FromDims(answers);
            && (verdict.allowed <==>
                  forall i :: 0 <= i < |dims| ==> SoloResult(ps(dims[i].key), callsOn(dims[i].key), at).allowed)
            && (!verdict.allowed ==>
                  && verdict.retryAfter.Some?
                  && (exists i :: 0 <= i < |dims| && !answers[i].allowed && answers[i].retryAfter == verdict.retryAfter)
                  && (forall i :: 0 <= i < |dims| && !answers[i].allowed ==>
                        answers[i].retryAfter.Some? && verdict.retryAfter.value <= answers[i].retryAfter.value))
  {
    hide Evaluate, FromDims;
    var answers := Answers(ps, dims, callsOn, at);
    forall i | 0 <= i < |dims|
      ensures answers[i].allowed <==> answers[i].retryAfter.None?
    {
      SoloAnswersWell(ps(dims[i].key), callsOn(dims[i].key), at);
    }
    AggregateMeaning(answers);
    assert forall i :: 0 <= i < |dims| ==> answers[i] in answers;
    assert forall i :: 0 <= i < |dims| ==> answers[i] == SoloResult(ps(dims[i].key), callsOn(dims[i].key), at);
  }

  /** An allowed request was admitted by every key it carried. */
  lemma {:induction false} AllowedIsAdmitted(ps: Policies, served: History<Served>, k: string, lo: int, hi: int)
    requires ValidPolicies(ps)
    ensures Count(AllowedOn(ps, served, k), lo, hi) <= Count(Admitted(ps(k), RequestsOn(served, k)), lo, hi)
  {
    hide Evaluate;
    if served.Then? {
      var before, s := served.before, served.last;
      AllowedIsAdmitted(ps, before, k, lo, hi);
      if Carries(s.dims, k) {
        var i :| 0 <= i < |s.dims| && s.dims[i].key == k;
        var answers := Answers(ps, s.dims, key => RequestsOn(before, key), s.at);
        BlockedAndPassed(answers);
        assert answers[i] == SoloResult(ps(k), RequestsOn(before, k), s.at);
      }
    }
  }

  /**
   Whatever else a request carries, and whether it came from a tool or a prompt, the allowed
   requests carrying one key obey that key's limit in every interval.
   */
  lemma RequestBound(ps: Policies, served: History<Served>, k: string, lo: int, hi: int)
    requires ValidPolicies(ps) && Ordered(RequestsOn(served, k)) && lo <= hi
    ensures var n, rate, w := Count(AllowedOn(ps, served, k), lo, hi), ps(k).rate, ps(k).rate.windowNanos;
            match ps(k).algorithm
            case FixedWindow => hi == lo + w - 1 ==> n <= 2 * rate.count - 1
            case SlidingWindow => hi == lo + w - 1 && Positive(RequestsOn(served, k)) ==> n <= rate.count
            case TokenBucket => n * w <= rate.count * w + rate.count * (hi - lo)
  {
    hide Evaluate;
    var p, calls := ps(k), RequestsOn(served, k);
    AllowedIsAdmitted(ps, served, k, lo, hi);
    match p.algorithm {
      case FixedWindow => FixedBound(p, calls, lo);
      case SlidingWindow =>
        if Positive(calls) {
          SlidingBound(p, calls, lo);
        }
      case TokenBucket =>
        BucketBound(p, calls, lo, hi);
        Arithmetic.MulMono(
          Count(AllowedOn(ps, served, k), lo, hi), Count(Admitted(p, calls), lo, hi), p.rate.windowNanos);
    }
  }
}
