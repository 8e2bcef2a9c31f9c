/**
 When dimension keys of different requests coincide. Keys are colon-joined text and nothing
 escapes colons, so exactly how requests can share a counter has to be worked out.
 */
module KeyCollisions {
  import opened Outcomes
  import opened RateConfig
  import opened KeyMachine
  import opened Sweeping
  import opened Keys
  import opened Engine

  // ---- Colon-free identities ----

  function SlotParts(id: Identity, server: Option<string>, n: nat): seq<string> {
    match n
    case 0 => ["user", id.user]
    case 1 => ["user", id.user, "server", if server.Some? then server.value else ""]
    case 2 => ["tenant", if id.tenant.Some? then id.tenant.value else ""]
    case _ => ["tool", id.tool]
  }

  /** The parts of a key. */
  function Parts(id: Identity, server: Option<string>, n: nat): seq<string> {
    if id.prefix.None? || id.prefix.value == "" then SlotParts(id, server, n)
    else [id.prefix.value] + SlotParts(id, server, n)
  }

  lemma JoinSlot(id: Identity, server: Option<string>, n: nat)
    ensures Join(SlotParts(id, server, n)) == SlotText(id, server, n)
  {
    if n == 1 {
      var parts := SlotParts(id, server, n);
      var s := parts[3];
      assert parts[1..] == [id.user, "server", s] && [id.user, "server", s][1..] == ["server", s];
      assert ["server", s][1..] == [s];
      assert Join(["server", s]) == "server:" + s;
      assert Join([id.user, "server", s]) == id.user + ":" + ("server:" + s);
      assert "user:" + (id.user + ":" + ("server:" + s)) == SlotText(id, server, n);
    }
  }

  lemma JoinParts(id: Identity, server: Option<string>, n: nat)
    ensures Join(Parts(id, server, n)) == Prefixed(id.prefix, SlotText(id, server, n))
  {
    JoinSlot(id, server, n);
    if id.prefix.Some? && id.prefix.value != "" {
      assert ([id.prefix.value] + SlotParts(id, server, n))[1..] == SlotParts(id, server, n);
    }
  }

  ghost predicate ColonFreeIdentity(id: Identity, server: Option<string>) {
    && ColonFree(id.user) && ColonFree(id.tool)
    && (id.tenant.Some? ==> ColonFree(id.tenant.value))
    && (id.prefix.Some? ==> ColonFree(id.prefix.value))
    && (server.Some? ==> ColonFree(server.value))
  }

  lemma PartsColonFree(id: Identity, server: Option<string>, n: nat)
    requires ColonFreeIdentity(id, server)
    ensures Parts(id, server, n) != [] && AllColonFree(Parts(id, server, n))
  {
  }

  /** Among colon-free identities a key determines its rate, across tools and prompts and all requests. */
  lemma KeyDeterminesRate(cfg: EngineConfig, id1: Identity, server1: Option<string>, d1: Dimension,
                          id2: Identity, server2: Option<string>, d2: Dimension)
    requires ColonFreeIdentity(id1, server1) && ColonFreeIdentity(id2, server2)
    requires d1 in Dimensions(cfg, id1, server1) && d2 in Dimensions(cfg, id2, server2) && d1.key == d2.key
    ensures d1.rate == d2.rate
  {
    hide SlotText, Prefixed, Collect, Parts;
    var m := CollectedFrom(cfg, id1, server1, 0, d1);
    var n := CollectedFrom(cfg, id2, server2, 0, d2);
    JoinParts(id1, server1, m);
    JoinParts(id2, server2, n);
    PartsColonFree(id1, server1, m);
    PartsColonFree(id2, server2, n);
    JoinInjective(Parts(id1, server1, m), Parts(id2, server2, n));
    SameParts(id1, server1, m, id2, server2, n);
  }

  /** Equal parts come from the same slot, and for tools from the same tool. */
  lemma SameParts(id1: Identity, server1: Option<string>, m: nat, id2: Identity, server2: Option<string>, n: nat)
    requires m < SLOTS && n < SLOTS && Parts(id1, server1, m) == Parts(id2, server2, n)
    ensures m == n && (m == 3 ==> id1.tool == id2.tool)
  {
    var p, q := Parts(id1, server1, m), Parts(id2, server2, n);
    var a, b := SlotParts(id1, server1, m), SlotParts(id2, server2, n);
    assert p[|p| - 1] == a[|a| - 1] && p[|p| - 2] == a[|a| - 2];
    assert q[|q| - 1] == b[|b| - 1] && q[|q| - 2] == b[|b| - 2];
  }

  /** With a colon in a user name it need not: a user limit and another user's server limit can share a counter. */
  lemma ColonCollision(cfg: EngineConfig)
    requires cfg.byUser.Some? && cfg.byUserPerServer.Some? && cfg.byUser != cfg.byUserPerServer
    ensures var odd := Identity("a:server:s", None, "t", None, Some("x"));
            var plain := Identity("a", None, "t", None, Some("s"));
            var d, e := Slot(cfg, odd, Some("x"), 0), Slot(cfg, plain, Some("s"), 1);
            d.Some? && e.Some? && d.value.key == e.value.key && d.value.rate != e.value.rate
  {
    assert "user:" + "a" + ":server:" + "s" == "user:" + "a:server:s";
  }

  // ---- Any identities under one prefix ----

  function PrefixOf(id: Identity): string {
    if id.prefix.Some? then id.prefix.value else ""
  }

  /** The first user name continues the second one's with that server. */
  predicate Nested(user: string, other: string, server: Option<string>) {
    server.Some? && user == other + ":server:" + server.value
  }

  predicate ServerColonFree(server: Option<string>) {
    server.Some? ==> ColonFree(server.value)
  }

  lemma SameTail(tag: string, a: string, b: string)
    ensures tag + a == tag + b <==> a == b
  {
    if tag + a == tag + b {
      assert (tag + a)[|tag|..] == a && (tag + b)[|tag|..] == b;
    }
  }

  lemma SameServerKey(user1: string, server1: string, user2: string, server2: string)
    requires ColonFree(server1) && ColonFree(server2)
    ensures "user:" + user1 + ":server:" + server1 == "user:" + user2 + ":server:" + server2
       <==> user1 == user2 && server1 == server2
  {
    var a, b := "user:" + user1 + ":server", "user:" + user2 + ":server";
    assert a + ":" + server1 == "user:" + user1 + ":server:" + server1;
    assert b + ":" + server2 == "user:" + user2 + ":server:" + server2;
    if a + ":" + server1 == b + ":" + server2 {
      LastPart(a, server1, b, server2);
      assert |user1| == |user2| && a[5..5 + |user1|] == user1 && b[5..5 + |user2|] == user2;
    }
  }

  lemma TagsDiffer(id1: Identity, server1: Option<string>, m: nat, id2: Identity, server2: Option<string>, n: nat)
    requires m < n < SLOTS && n >= 2
    ensures SlotText(id1, server1, m) != SlotText(id2, server2, n)
  {
    var a, b := SlotText(id1, server1, m), SlotText(id2, server2, n);
    if m == 2 {
      assert a[1] == 'e' && b[1] == 'o';
    } else {
      assert a[0] == 'u' && b[0] == 't';
    }
  }

  /**
   Two slots have one text exactly when they are the same slot of the same subject, or a user nests
   in a user with a server.
   */
  lemma SlotTextIff(id1: Identity, server1: Option<string>, m: nat, id2: Identity, server2: Option<string>, n: nat)
    requires m <= n < SLOTS && ServerColonFree(server1) && ServerColonFree(server2)
    requires (m == 1 ==> server1.Some?) && (n == 1 ==> server2.Some?)
    ensures SlotText(id1, server1, m) == SlotText(id2, server2, n) <==>
              || (m == n && SlotParts(id1, server1, m) == SlotParts(id2, server2, n))
              || (m == 0 && n == 1 && Nested(id1.user, id2.user, server2))
  {
    if m < n && n >= 2 {
      TagsDiffer(id1, server1, m, id2, server2, n);
    } else if m == 0 && n == 1 {
      var u := id2.user + ":server:" + server2.value;
      assert SlotText(id2, server2, 1) == "user:" + u;
      SameTail("user:", id1.user, u);
    } else if m == 0 {
      SameTail("user:", id1.user, id2.user);
    } else if m == 1 {
      SameServerKey(id1.user, server1.value, id2.user, server2.value);
    } else if m == 2 {
      SameTail("tenant:", SlotParts(id1, server1, m)[1], SlotParts(id2, server2, n)[1]);
    } else {
      SameTail("tool:", id1.tool, id2.tool);
    }
  }

  lemma PrefixedIff(id1: Identity, id2: Identity, a: string, b: string)
    requires PrefixOf(id1) == PrefixOf(id2)
    ensures Prefixed(id1.prefix, a) == Prefixed(id2.prefix, b) <==> a == b
  {
    SameTail(PrefixOf(id1) + ":", a, b);
  }

  /** Under one prefix, two dimensions share a key exactly in the cases of `SlotTextIff`. */
  lemma SameKeyIff(cfg: EngineConfig, id1: Identity, server1: Option<string>, m: nat,
                   id2: Identity, server2: Option<string>, n: nat)
    requires PrefixOf(id1) == PrefixOf(id2) && ServerColonFree(server1) && ServerColonFree(server2)
    requires m <= n < SLOTS && Slot(cfg, id1, server1, m).Some? && Slot(cfg, id2, server2, n).Some?
    ensures Slot(cfg, id1, server1, m).value.key == Slot(cfg, id2, server2, n).value.key <==>
              || (m == n && SlotParts(id1, server1, m) == SlotParts(id2, server2, n))
              || (m == 0 && n == 1 && Nested(id1.user, id2.user, server2))
  {
    hide SlotText, Prefixed, SlotParts;
    SlotTextIff(id1, server1, m, id2, server2, n);
    PrefixedIff(id1, id2, SlotText(id1, server1, m), SlotText(id2, server2, n));
  }

  /** The two user limits differ and one request's user name nests in the other request's user and server. */
  predicate RatesClash(cfg: EngineConfig, id1: Identity, server1: Option<string>,
                       id2: Identity, server2: Option<string>) {
    && cfg.byUser.Some? && cfg.byUserPerServer.Some? && cfg.byUser != cfg.byUserPerServer
    && (Nested(id1.user, id2.user, server2) || Nested(id2.user, id1.user, server1))
  }

  lemma {:induction false} SlotCollected(cfg: EngineConfig, id: Identity, server: Option<string>, from: nat, n: nat)
    requires from <= n < SLOTS && Slot(cfg, id, server, n).Some?
    ensures Slot(cfg, id, server, n).value in Collect(cfg, id, server, from)
    decreases n - from
  {
    hide Slot;
    if from < n {
      SlotCollected(cfg, id, server, from + 1, n);
    }
  }

  /** One key for two rates: does some dimension of each request share its key but not its rate? */
  ghost predicate OneKeyTwoRates(cfg: EngineConfig, id1: Identity, server1: Option<string>,
                                 id2: Identity, server2: Option<string>) {
    exists d, e :: d in Dimensions(cfg, id1, server1) && e in Dimensions(cfg, id2, server2)
                   && d.key == e.key && d.rate != e.rate
  }

  lemma SlotsClash(cfg: EngineConfig, id1: Identity, server1: Option<string>, m: nat,
                   id2: Identity, server2: Option<string>, n: nat)
    requires PrefixOf(id1) == PrefixOf(id2) && ServerColonFree(server1) && ServerColonFree(server2)
    requires m <= n < SLOTS && Slot(cfg, id1, server1, m).Some? && Slot(cfg, id2, server2, n).Some?
    requires Slot(cfg, id1, server1, m).value.key == Slot(cfg, id2, server2, n).value.key
    requires Slot(cfg, id1, server1, m).value.rate != Slot(cfg, id2, server2, n).value.rate
    ensures m == 0 && n == 1 && cfg.byUser != cfg.byUserPerServer && Nested(id1.user, id2.user, server2)
  {
    SameKeyIff(cfg, id1, server1, m, id2, server2, n);
  }

  /** Under one prefix, requests share a counter between different rates exactly when their user limits clash. */
  lemma TwoRatesIff(cfg: EngineConfig, id1: Identity, server1: Option<string>, id2: Identity, server2: Option<string>)
    requires PrefixOf(id1) == PrefixOf(id2) && ServerColonFree(server1) && ServerColonFree(server2)
    ensures OneKeyTwoRates(cfg, id1, server1, id2, server2) <==> RatesClash(cfg, id1, server1, id2, server2)
  {
    hide Slot, Collect, Nested;
    if d, e :| d in Dimensions(cfg, id1, server1) && e in Dimensions(cfg, id2, server2)
               && d.key == e.key && d.rate != e.rate {
      var m := CollectedFrom(cfg, id1, server1, 0, d);
      var n := CollectedFrom(cfg, id2, server2, 0, e);
      SlotConfigured(cfg, id1, server1, m);
      SlotConfigured(cfg, id2, server2, n);
      if m <= n {
        SlotsClash(cfg, id1, server1, m, id2, server2, n);
      } else {
        SlotsClash(cfg, id2, server2, n, id1, server1, m);
      }
    }
    if RatesClash(cfg, id1, server1, id2, server2) {
      if Nested(id1.user, id2.user, server2) {
        NestedShares(cfg, id1, server1, id2, server2);
      } else {
        NestedShares(cfg, id2, server2, id1, server1);
      }
    }
  }

  lemma SlotConfigured(cfg: EngineConfig, id: Identity, server: Option<string>, n: nat)
    requires Slot(cfg, id, server, n).Some?
    ensures n == 0 ==> cfg.byUser.Some?
    ensures n == 1 ==> cfg.byUserPerServer.Some?
  {
  }

  lemma NestedShares(cfg: EngineConfig, id1: Identity, server1: Option<string>, id2: Identity, server2: Option<string>)
    requires PrefixOf(id1) == PrefixOf(id2) && ServerColonFree(server1) && ServerColonFree(server2)
    requires cfg.byUser.Some? && cfg.byUserPerServer.Some? && cfg.byUser != cfg.byUserPerServer
    requires Nested(id1.user, id2.user, server2)
    ensures OneKeyTwoRates(cfg, id1, server1, id2, server2) && OneKeyTwoRates(cfg, id2, server2, id1, server1)
  {
    hide Collect;
    SameKeyIff(cfg, id1, server1, 0, id2, server2, 1);
    SlotCollected(cfg, id1, server1, 0, 0);
    SlotCollected(cfg, id2, server2, 0, 1);
    var d, e := Slot(cfg, id1, server1, 0).value, Slot(cfg, id2, server2, 1).value;
    assert d.key == e.key && d.rate != e.rate;
  }

  // ---- Different prefixes ----

  function WithPrefix(p: string, text: string): string {
    if p == "" then text else p + ":" + text
  }

  /** The longer prefix `q` continues the shorter one, `p`, into its text. */
  predicate Reaches(p: string, a: string, q: string, b: string) {
    if p == "" then a == q + ":" + b
    else |p| < |q| && q[..|p| + 1] == p + ":" && a == q[|p| + 1..] + ":" + b
  }

  /** Under different prefixes two keys are equal exactly when the longer prefix reaches into the other text. */
  lemma UnequalPrefixesIff(p: string, a: string, q: string, b: string)
    requires p != q && |p| <= |q|
    ensures WithPrefix(p, a) == WithPrefix(q, b) <==> Reaches(p, a, q, b)
  {
    if p != "" {
      var s, t := p + ":" + a, q + ":" + b;
      if s == t {
        assert s[..|p|] == p && t[..|p|] == q[..|p|];
        assert s[..|p| + 1] == p + ":";
        assert |p| < |q| ==> t[..|p| + 1] == q[..|p| + 1];
        assert s[|p| + 1..] == a;
        assert |p| < |q| ==> t[|p| + 1..] == q[|p| + 1..] + ":" + b;
      }
      if Reaches(p, a, q, b) {
        assert q == q[..|p| + 1] + q[|p| + 1..];
        assert p + ":" + a == t;
      }
    }
  }

  /** Do these slots share a key? */
  predicate SlotsShare(id1: Identity, server1: Option<string>, m: nat, id2: Identity, server2: Option<string>, n: nat) {
    var p, q := PrefixOf(id1), PrefixOf(id2);
    var a, b := SlotText(id1, server1, m), SlotText(id2, server2, n);
    if p == q then a == b else if |p| <= |q| then Reaches(p, a, q, b) else Reaches(q, b, p, a)
  }

  lemma SlotsShareIff(cfg: EngineConfig, id1: Identity, server1: Option<string>, m: nat,
                      id2: Identity, server2: Option<string>, n: nat)
    requires Slot(cfg, id1, server1, m).Some? && Slot(cfg, id2, server2, n).Some?
    ensures Slot(cfg, id1, server1, m).value.key == Slot(cfg, id2, server2, n).value.key
       <==> SlotsShare(id1, server1, m, id2, server2, n)
  {
    hide SlotText, Reaches, SlotRate;
    var p, q := PrefixOf(id1), PrefixOf(id2);
    var a, b := SlotText(id1, server1, m), SlotText(id2, server2, n);
    if p == q {
      PrefixedIff(id1, id2, a, b);
    } else if |p| <= |q| {
      UnequalPrefixesIff(p, a, q, b);
    } else {
      UnequalPrefixesIff(q, b, p, a);
    }
  }

  /** Do two configured slots with different rates share a key? */
  predicate Clash(cfg: EngineConfig, id1: Identity, server1: Option<string>, id2: Identity, server2: Option<string>) {
    exists m, n :: 0 <= m < SLOTS && 0 <= n < SLOTS && SlotsClashAt(cfg, id1, server1, m, id2, server2, n)
  }

  predicate SlotsClashAt(cfg: EngineConfig, id1: Identity, server1: Option<string>, m: nat,
                         id2: Identity, server2: Option<string>, n: nat) {
    && SlotRate(cfg, id1, server1, m).Some? && SlotRate(cfg, id2, server2, n).Some?
    && SlotRate(cfg, id1, server1, m) != SlotRate(cfg, id2, server2, n)
    && SlotsShare(id1, server1, m, id2, server2, n)
  }

  /** Under any prefixes, one key has two rates exactly when two slots with different rates share it. */
  lemma TwoRatesAnyPrefixIff(cfg: EngineConfig, id1: Identity, server1: Option<string>,
                             id2: Identity, server2: Option<string>)
    ensures OneKeyTwoRates(cfg, id1, server1, id2, server2) <==> Clash(cfg, id1, server1, id2, server2)
  {
    hide SlotText, SlotsShare, Collect, SlotRate, Prefixed;
    if d, e :| d in Dimensions(cfg, id1, server1) && e in Dimensions(cfg, id2, server2)
               && d.key == e.key && d.rate != e.rate {
      var m := CollectedFrom(cfg, id1, server1, 0, d);
      var n := CollectedFrom(cfg, id2, server2, 0, e);
      SlotsShareIff(cfg, id1, server1, m, id2, server2, n);
      assert SlotsClashAt(cfg, id1, server1, m, id2, server2, n);
    }
    if m, n :| 0 <= m < SLOTS && 0 <= n < SLOTS && SlotsClashAt(cfg, id1, server1, m, id2, server2, n) {
      SlotsShareIff(cfg, id1, server1, m, id2, server2, n);
      SlotCollected(cfg, id1, server1, 0, m);
      SlotCollected(cfg, id2, server2, 0, n);
    }
  }

  /**
   Across prefixes too there are collisions: an unprefixed user "tool:t", and the tool "t" under the
   prefix "user".
   */
  lemma PrefixCollision(cfg: EngineConfig, user: string)
    requires cfg.byUser.Some? && "t" in cfg.byTool && cfg.byTool["t"] != cfg.byUser.value
    ensures var odd := Identity("tool:t", None, "x", None, None);
            var plain := Identity(user, None, "t", Some("user"), None);
            OneKeyTwoRates(cfg, odd, None, plain, None)
  {
    var odd := Identity("tool:t", None, "x", None, None);
    var plain := Identity(user, None, "t", Some("user"), None);
    assert "user:" + "tool:t" == "user" + ":" + ("tool:" + "t");
    assert SlotsClashAt(cfg, odd, None, 0, plain, None, 3);
    TwoRatesAnyPrefixIff(cfg, odd, None, plain, None);
  }

  predicate Continues(q: string, p: string) {
    |p| < |q| && q[..|p| + 1] == p + ":"
  }

  /** Prefixes that cannot be confused: neither is empty and neither continues the other. */
  predicate PrefixesApart(p: string, q: string) {
    p != q && p != "" && q != "" && !Continues(q, p) && !Continues(p, q)
  }

  lemma ApartNeverShare(p: string, a: string, q: string, b: string)
    requires PrefixesApart(p, q)
    ensures WithPrefix(p, a) != WithPrefix(q, b)
  {
    if |p| <= |q| {
      UnequalPrefixesIff(p, a, q, b);
    } else {
      UnequalPrefixesIff(q, b, p, a);
    }
  }

  // ---- One policy a key ----

  datatype Request = Request(id: Identity, server: Option<string>)

  predicate ConfigValid(cfg: EngineConfig) {
    && (cfg.byUser.Some? ==> ValidRate(cfg.byUser.value))
    && (cfg.byUserPerServer.Some? ==> ValidRate(cfg.byUserPerServer.value))
    && (cfg.byTenant.Some? ==> ValidRate(cfg.byTenant.value))
    && forall tool :: tool in cfg.byTool ==> ValidRate(cfg.byTool[tool])
  }

  /** No key has two rates between these requests; a caller can check this of the identities alone. */
  predicate Compatible(cfg: EngineConfig, r: Request, s: Request) {
    !Clash(cfg, r.id, r.server, s.id, s.server)
  }

  ghost predicate CarriedBy(cfg: EngineConfig, r: Request, d: Dimension) {
    d in Dimensions(cfg, r.id, r.server)
  }

  /** Each key's policy is that of any request that carries it. */
  ghost function PoliciesFor(cfg: EngineConfig, requests: set<Request>): Policies {
    k =>
      if exists r, d :: r in requests && CarriedBy(cfg, r, d) && d.key == k then
        var r, d :| r in requests && CarriedBy(cfg, r, d) && d.key == k;
        Policy(d.rate, cfg.algorithm)
      else Policy(RateLimit(1, NANOS_PER_SEC), cfg.algorithm)
  }

  lemma CarriedValid(cfg: EngineConfig, r: Request, d: Dimension)
    requires ConfigValid(cfg) && CarriedBy(cfg, r, d)
    ensures ValidRate(d.rate)
  {
    hide Collect, Prefixed, SlotText;
    var _ := CollectedFrom(cfg, r.id, r.server, 0, d);
  }

  lemma CompatibleAgree(cfg: EngineConfig, r: Request, d: Dimension, s: Request, e: Dimension)
    requires Compatible(cfg, r, s) && CarriedBy(cfg, r, d) && CarriedBy(cfg, s, e) && d.key == e.key
    ensures d.rate == e.rate
  {
    hide Clash;
    TwoRatesAnyPrefixIff(cfg, r.id, r.server, s.id, s.server);
  }

  /** The policy of a key some request carries is that of such a request. */
  lemma PolicyOfCarried(cfg: EngineConfig, requests: set<Request>, r: Request, d: Dimension)
    returns (s: Request, e: Dimension)
    requires r in requests && CarriedBy(cfg, r, d)
    ensures s in requests && CarriedBy(cfg, s, e) && e.key == d.key
    ensures PoliciesFor(cfg, requests)(d.key) == Policy(e.rate, cfg.algorithm)
  {
    hide CarriedBy;
    s, e :| s in requests && CarriedBy(cfg, s, e) && e.key == d.key
            && PoliciesFor(cfg, requests)(d.key) == Policy(e.rate, cfg.algorithm);
  }

  lemma PolicyValid(cfg: EngineConfig, requests: set<Request>, k: string)
    requires ConfigValid(cfg)
    ensures ValidRate(PoliciesFor(cfg, requests)(k).rate)
  {
    hide CarriedBy;
    DefaultValid();
    if r, d :| r in requests && CarriedBy(cfg, r, d) && d.key == k {
      var s, e := PolicyOfCarried(cfg, requests, r, d);
      CarriedValid(cfg, s, e);
    }
  }

  /** For pairwise compatible requests there are policies under which every check of theirs may be made. */
  lemma PoliciesExist(cfg: EngineConfig, requests: set<Request>)
    requires ConfigValid(cfg)
    requires forall r, s :: r in requests && s in requests ==> Compatible(cfg, r, s)
    ensures ValidPolicies(PoliciesFor(cfg, requests))
    ensures forall r :: r in requests ==>
              Configured(PoliciesFor(cfg, requests), Dimensions(cfg, r.id, r.server), cfg.algorithm)
  {
    hide Compatible, ValidRate, PoliciesFor, Dimensions;
    forall k
      ensures ValidRate(PoliciesFor(cfg, requests)(k).rate)
    {
      PolicyValid(cfg, requests, k);
    }
    forall r, i | r in requests && 0 <= i < |Dimensions(cfg, r.id, r.server)|
      ensures var d := Dimensions(cfg, r.id, r.server)[i];
              PoliciesFor(cfg, requests)(d.key) == Policy(d.rate, cfg.algorithm)
    {
      var d := Dimensions(cfg, r.id, r.server)[i];
      assert CarriedBy(cfg, r, d);
      var s, e := PolicyOfCarried(cfg, requests, r, d);
      CompatibleAgree(cfg, r, d, s, e);
    }
  }

  /** Policies under which all of these requests may be checked. */
  ghost predicate Serve(ps: Policies, cfg: EngineConfig, requests: set<Request>) {
    ValidPolicies(ps)
    && forall r :: r in requests ==> Configured(ps, Dimensions(cfg, r.id, r.server), cfg.algorithm)
  }

  /** They exist exactly when the requests are pairwise compatible. */
  lemma PoliciesExistIff(cfg: EngineConfig, requests: set<Request>)
    requires ConfigValid(cfg)
    ensures (exists ps :: Serve(ps, cfg, requests))
       <==> forall r, s :: r in requests && s in requests ==> Compatible(cfg, r, s)
  {
    hide Clash, Configured;
    if forall r, s :: r in requests && s in requests ==> Compatible(cfg, r, s) {
      PoliciesExist(cfg, requests);
      assert Serve(PoliciesFor(cfg, requests), cfg, requests);
    }
    if ps :| Serve(ps, cfg, requests) {
      forall r, s | r in requests && s in requests
        ensures Compatible(cfg, r, s)
      {
        ServedAgree(ps, cfg, r, s);
      }
    }
  }

  lemma ServedAgree(ps: Policies, cfg: EngineConfig, r: Request, s: Request)
    requires Configured(ps, Dimensions(cfg, r.id, r.server), cfg.algorithm)
    requires Configured(ps, Dimensions(cfg, s.id, s.server), cfg.algorithm)
    ensures Compatible(cfg, r, s)
  {
    hide Clash, Collect;
    TwoRatesAnyPrefixIff(cfg, r.id, r.server, s.id, s.server);
  }

  /** Identities without colons are always compatible, under any prefixes. */
  lemma ColonFreeCompatible(cfg: EngineConfig, r: Request, s: Request)
    requires ColonFreeIdentity(r.id, r.server) && ColonFreeIdentity(s.id, s.server)
    ensures Compatible(cfg, r, s)
  {
    hide Clash, Collect;
    TwoRatesAnyPrefixIff(cfg, r.id, r.server, s.id, s.server);
    if d, e :| d in Dimensions(cfg, r.id, r.server) && e in Dimensions(cfg, s.id, s.server)
               && d.key == e.key && d.rate != e.rate {
      KeyDeterminesRate(cfg, r.id, r.server, d, s.id, s.server, e);
      assert false;
    }
  }

  lemma DefaultValid()
    ensures ValidRate(RateLimit(1, NANOS_PER_SEC))
  {
  }

  /** A prompt carries what a tool call without a server would: policies for that serve it too. */
  lemma {:induction false} PromptDimensions(cfg: EngineConfig, id: Identity, n: nat)
    ensures Collect(ForPrompts(cfg), id, None, n) == Collect(cfg, id, None, n)
    decreases SLOTS - n
  {
    if n < SLOTS {
      PromptDimensions(cfg, id, n + 1);
    }
  }
}
