/**
 * The tenant service: the paginated and filtered tenant list, lookups, tenant update and
 * creation, creating, toggling and deleting links between tenants, and the synthesized
 * member list of a tenant, which writes every generated account into the account map.
 * `Date.now()` is the parameter `now`; the random id suffix and the random member
 * counts, device counts, IMEI numbers and LINE coin flips are parameters too.
 */
module Tenants {
  import opened Wrappers
  import opened JsText
  import opened OrderedMaps
  import opened Entities
  import opened MockData
  import Seqs
  import Base64

  // ---------------------------------------------------------------------------
  // getTenants: filter, then slice by offset
  // ---------------------------------------------------------------------------

  /**
   * The optional parameters of `getTenants`. An absent `limit`, `nextToken` or `nameCont`
   * is `None`; the empty strings and the limit 0 are falsy in JavaScript and behave like
   * absent ones.
   */
  datatype TenantQuery = TenantQuery(
    limit: Option<nat>,
    nextToken: Option<JsString>,
    nameCont: Option<JsString>,
    excludeTest: bool)

  datatype TenantPage = TenantPage(tenants: seq<Tenant>, nextToken: Option<JsString>)

  const DefaultLimit: nat := 30

  /** `params?.limit || 30`. */
  function Limit(q: TenantQuery): (l: nat)
    ensures l > 0
    ensures q.limit.Some? && q.limit.value > 0 ==> l == q.limit.value
    ensures q.limit.None? || q.limit.value == 0 ==> l == DefaultLimit
  {
    if q.limit.Some? && q.limit.value > 0 then q.limit.value else DefaultLimit
  }

  /** A token is a decimal offset, as the service hands them out. */
  predicate TokenOk(q: TenantQuery)
  {
    q.nextToken.Some? ==> AllDigits(q.nextToken.value)
  }

  /** `params?.nextToken ? parseInt(params.nextToken, 10) : 0`. */
  function Start(q: TenantQuery): nat
    requires TokenOk(q)
  {
    if q.nextToken.Some? && q.nextToken.value != [] then DigitsValue(q.nextToken.value) else 0
  }

  function MatchesName(needle: JsString): Tenant -> bool
  {
    (t: Tenant) => Includes(Lower(t.name), Lower(needle))
  }

  function IsNotTest(t: Tenant): bool
  {
    !Includes(Lower(t.name), Js("test"))
  }

  /** Whether `getTenants` keeps tenant `t` under query `q`. */
  predicate Keeps(q: TenantQuery, t: Tenant)
  {
    && (q.nameCont.Some? ==> Includes(Lower(t.name), Lower(q.nameCont.value)))
    && (q.excludeTest ==> IsNotTest(t))
  }

  function KeepsFn(q: TenantQuery): Tenant -> bool
  {
    (t: Tenant) => Keeps(q, t)
  }

  /** The two successive `filter` calls of `getTenants`. */
  function FilterTenants(all: seq<Tenant>, q: TenantQuery): seq<Tenant>
  {
    var named := if q.nameCont.Some? && q.nameCont.value != [] then Seqs.Filter(all, MatchesName(q.nameCont.value)) else all;
    if q.excludeTest then Seqs.Filter(named, IsNotTest) else named
  }

  /**
   * Filtering keeps exactly the tenants matching both conditions, in store order: it is
   * one `filter` by the combined condition.
   */
  lemma FilterTenantsSpec(all: seq<Tenant>, q: TenantQuery)
    ensures FilterTenants(all, q) == Seqs.Filter(all, KeepsFn(q))
    ensures forall t :: t in FilterTenants(all, q) <==> t in all && Keeps(q, t)
  {
    var keep := KeepsFn(q);
    var isNotTest := IsNotTest;
    if q.nameCont.Some? && q.nameCont.value == [] {
      forall t: Tenant ensures Includes(Lower(t.name), Lower(q.nameCont.value)) {
        IncludesEmpty(Lower(t.name));
      }
    }
    if q.nameCont.Some? && q.nameCont.value != [] {
      var byName := MatchesName(q.nameCont.value);
      if q.excludeTest {
        Seqs.FilterFilter(all, byName, isNotTest, keep);
      } else {
        Seqs.FilterFilter(all, byName, (t: Tenant) => true, keep);
        Seqs.FilterAll(Seqs.Filter(all, byName), (t: Tenant) => true);
      }
    } else {
      if q.excludeTest {
        Seqs.FilterFilter(all, (t: Tenant) => true, isNotTest, keep);
        Seqs.FilterAll(all, (t: Tenant) => true);
      } else {
        Seqs.FilterAll(all, keep);
      }
    }
    FilterMembership(all, keep);
  }

  lemma {:induction false} FilterMembership(s: seq<Tenant>, p: Tenant -> bool)
    ensures forall t :: t in Seqs.Filter(s, p) <==> t in s && p(t)
  {
    if s != [] {
      FilterMembership(s[1..], p);
      assert forall t :: t in s <==> t == s[0] || t in s[1..];
    }
  }

  /** The filtered list of three consecutive parts is the three filtered parts in a row. */
  lemma FilterTenantsSplit(a: seq<Tenant>, b: seq<Tenant>, c: seq<Tenant>, q: TenantQuery)
    ensures FilterTenants(a + b + c, q) == FilterTenants(a, q) + FilterTenants(b, q) + FilterTenants(c, q)
  {
    FilterTenantsSpec(a + b + c, q);
    FilterTenantsSpec(a, q);
    FilterTenantsSpec(b, q);
    FilterTenantsSpec(c, q);
    Seqs.FilterAppend(a + b, c, KeepsFn(q));
    Seqs.FilterAppend(a, b, KeepsFn(q));
  }

  /**
   * An update of the tenant stored at position `p` changes only that slot of the list
   * `getTenants` filters: the filtered tenants before and after it stay as they were, in
   * the same order.
   */
  lemma FilterAfterUpdate(m: OrderedMap<Tenant>, id: JsString, t: Tenant, q: TenantQuery) returns (p: nat)
    requires m.Valid() && m.Has(id)
    ensures p < |m.keys| && m.keys[p] == id
    ensures m.Set(id, t).Values() == m.Values()[..p] + [t] + m.Values()[p + 1..]
    ensures FilterTenants(m.Values(), q) ==
      FilterTenants(m.Values()[..p], q) + FilterTenants([m.Values()[p]], q) + FilterTenants(m.Values()[p + 1..], q)
    ensures FilterTenants(m.Set(id, t).Values(), q) ==
      FilterTenants(m.Values()[..p], q) + FilterTenants([t], q) + FilterTenants(m.Values()[p + 1..], q)
  {
    p := SetPresentSplice(m, id, t);
    var vs := m.Values();
    assert vs == vs[..p] + [vs[p]] + vs[p + 1..];
    FilterTenantsSplit(vs[..p], [vs[p]], vs[p + 1..], q);
    FilterTenantsSplit(vs[..p], [t], vs[p + 1..], q);
  }

  /**
   * `filtered.slice(start, start + limit)` with `nextToken = String(start + limit)` when
   * tenants remain after the page.
   */
  function PageAt(filtered: seq<Tenant>, start: nat, limit: nat): (p: TenantPage)
    ensures |p.tenants| <= limit
    ensures |p.tenants| == if start >= |filtered| then 0 else Min(limit, |filtered| - start)
    ensures forall i :: 0 <= i < |p.tenants| ==> p.tenants[i] == filtered[start + i]
    ensures p.nextToken.Some? <==> start + limit < |filtered|
    ensures p.nextToken.Some? ==> AllDigits(p.nextToken.value) && DigitsValue(p.nextToken.value) == start + limit
  {
    var n := |filtered|;
    var end := start + limit;
    DigitsValueOfDecimal(end);
    TenantPage(filtered[Min(start, n)..Min(end, n)], if end < n then Some(Decimal(end)) else None)
  }

  /** The page `getTenants` returns for query `q` over the store snapshot `all`. */
  function QueryPage(all: seq<Tenant>, q: TenantQuery): TenantPage
    requires TokenOk(q)
  {
    PageAt(FilterTenants(all, q), Start(q), Limit(q))
  }

  /**
   * A page holds at most `limit` tenants, each one of the snapshot that passes the filter,
   * and hands out the next offset exactly when tenants remain after it.
   */
  lemma QueryPageSpec(all: seq<Tenant>, q: TenantQuery)
    requires TokenOk(q)
    ensures |QueryPage(all, q).tenants| <= Limit(q)
    ensures forall t :: t in QueryPage(all, q).tenants ==> t in all && Keeps(q, t)
    ensures QueryPage(all, q).nextToken.Some? <==> Start(q) + Limit(q) < |FilterTenants(all, q)|
    ensures QueryPage(all, q).nextToken.Some? ==>
      AllDigits(QueryPage(all, q).nextToken.value) && DigitsValue(QueryPage(all, q).nextToken.value) == Start(q) + Limit(q)
  {
    var filtered := FilterTenants(all, q);
    FilterTenantsSpec(all, q);
    var p := QueryPage(all, q);
    forall t | t in p.tenants ensures t in filtered {
      var i :| 0 <= i < |p.tenants| && p.tenants[i] == t;
      assert filtered[Start(q) + i] == t;
    }
  }

  /** `getTenants(params)`: the page of the filtered store snapshot at the token's offset. */
  function GetTenants(store: MockStore, q: TenantQuery): (p: TenantPage)
    reads store
    requires store.Valid() && TokenOk(q)
    ensures |p.tenants| <= Limit(q)
    ensures forall t :: t in p.tenants ==> store.GetTenant(t.id) == Some(t) && Keeps(q, t)
  {
    var all := store.GetAllTenants();
    QueryPageSpec(all, q);
    assert forall t :: t in all ==> store.GetTenant(t.id) == Some(t) by {
      forall t | t in all ensures store.GetTenant(t.id) == Some(t) {
        var i :| 0 <= i < |all| && all[i] == t;
      }
    }
    QueryPage(all, q)
  }

  /**
   * Calling `getTenants` again with the returned `nextToken` and the other parameters
   * unchanged gives the page at offset start + limit, which is the next page a client
   * following the tokens sees.
   */
  lemma NextTokenQuery(all: seq<Tenant>, q: TenantQuery)
    requires TokenOk(q) && QueryPage(all, q).nextToken.Some?
    ensures TokenOk(q.(nextToken := QueryPage(all, q).nextToken))
    ensures Start(q.(nextToken := QueryPage(all, q).nextToken)) == Start(q) + Limit(q)
    ensures QueryPage(all, q.(nextToken := QueryPage(all, q).nextToken)) ==
      PageAt(FilterTenants(all, q), Start(q) + Limit(q), Limit(q))
    ensures FollowTokens(FilterTenants(all, q), Start(q), Limit(q)) ==
      [QueryPage(all, q).tenants] + FollowTokens(FilterTenants(all, q), Start(q) + Limit(q), Limit(q))
  {
    var next := q.(nextToken := QueryPage(all, q).nextToken);
    assert FilterTenants(all, next) == FilterTenants(all, q);
    assert Limit(next) == Limit(q);
  }

  /** The pages a client sees by following `nextToken` from offset `start`. */
  function FollowTokens(filtered: seq<Tenant>, start: nat, limit: nat): (pages: seq<seq<Tenant>>)
    requires limit > 0
    ensures |pages| >= 1
    decreases |filtered| - start
  {
    var p := PageAt(filtered, start, limit);
    if p.nextToken.None? then [p.tenants]
    else [p.tenants] + FollowTokens(filtered, DigitsValue(p.nextToken.value), limit)
  }

  /** The pages at offsets `start`, `start + limit`, …: the walk the tokens are meant to drive. */
  function Walk(filtered: seq<Tenant>, start: nat, limit: nat): (pages: seq<seq<Tenant>>)
    requires limit > 0
    decreases |filtered| - start
  {
    if start + limit < |filtered| then [filtered[start..start + limit]] + Walk(filtered, start + limit, limit)
    else [filtered[Min(start, |filtered|)..]]
  }

  /** Each `nextToken` is the decimal offset of the following page, so the tokens drive that walk. */
  lemma {:induction false} FollowTokensWalk(filtered: seq<Tenant>, start: nat, limit: nat)
    requires limit > 0
    ensures FollowTokens(filtered, start, limit) == Walk(filtered, start, limit)
    decreases |filtered| - start
  {
    var p := PageAt(filtered, start, limit);
    if start + limit < |filtered| {
      assert p.tenants == filtered[start..start + limit];
      FollowTokensWalk(filtered, start + limit, limit);
    } else {
      assert p.tenants == filtered[Min(start, |filtered|)..];
    }
  }

  /** The walk from an offset inside the list covers the rest of it exactly once. */
  lemma {:induction false} WalkFlatten(filtered: seq<Tenant>, start: nat, limit: nat)
    requires limit > 0 && start < |filtered|
    ensures Seqs.Flatten(Walk(filtered, start, limit)) == filtered[start..]
    decreases |filtered| - start
  {
    var pages := Walk(filtered, start, limit);
    if start + limit < |filtered| {
      var next := start + limit;
      WalkFlatten(filtered, next, limit);
      Seqs.FlattenCons(pages, filtered[start..next], Walk(filtered, next, limit));
      Seqs.SliceJoin(filtered, start, next, Seqs.Flatten(pages), Seqs.Flatten(Walk(filtered, next, limit)));
    } else {
      Seqs.FlattenCons(pages, filtered[start..], []);
      assert filtered[start..] + [] == filtered[start..];
    }
  }

  /** One more page of `limit` keeps the page count at the remainder over the limit, rounded up. */
  lemma PageCountStep(remaining: int, limit: int, c: int)
    requires limit > 0 && (c - 1) * limit < remaining - limit <= c * limit
    ensures c * limit < remaining <= (c + 1) * limit
  {
    assert (c + 1) * limit == c * limit + limit;
    assert (c - 1) * limit == c * limit - limit;
  }

  /**
   * The number of pages from an offset inside the list is the length of the rest divided
   * by the limit, rounded up.
   */
  lemma {:induction false} WalkCount(filtered: seq<Tenant>, start: nat, limit: nat)
    requires limit > 0 && start < |filtered|
    ensures (|Walk(filtered, start, limit)| - 1) * limit < |filtered| - start
    ensures |filtered| - start <= |Walk(filtered, start, limit)| * limit
    decreases |filtered| - start
  {
    if start + limit < |filtered| {
      var next := start + limit;
      WalkCount(filtered, next, limit);
      PageCountStep(|filtered| - start, limit, |Walk(filtered, next, limit)|);
    }
  }

  /**
   * From the first page (no token) a client sees the whole filtered list, in
   * ceil(N / limit) pages, or one empty page when nothing matches.
   */
  lemma AllPages(filtered: seq<Tenant>, limit: nat)
    requires limit > 0
    ensures Seqs.Flatten(FollowTokens(filtered, 0, limit)) == filtered
    ensures |filtered| == 0 ==> FollowTokens(filtered, 0, limit) == [[]]
    ensures |filtered| > 0 ==>
      && (|FollowTokens(filtered, 0, limit)| - 1) * limit < |filtered|
      && |filtered| <= |FollowTokens(filtered, 0, limit)| * limit
  {
    FollowTokensWalk(filtered, 0, limit);
    if |filtered| > 0 {
      WalkFlatten(filtered, 0, limit);
      WalkCount(filtered, 0, limit);
    } else {
      assert Seqs.Flatten(FollowTokens(filtered, 0, limit)) == [] + Seqs.Flatten([]);
    }
  }

  // ---------------------------------------------------------------------------
  // Lookups
  // ---------------------------------------------------------------------------

  /** `getTenantById`: the stored tenant, or `null`. */
  method GetTenantById(store: MockStore, id: JsString) returns (r: Option<Tenant>)
    requires store.Valid()
    ensures r.Some? <==> store.tenants.Has(id)
    ensures r.Some? ==> r.value.id == id && r.value == store.tenants.entries[id]
  {
    r := store.GetTenant(id);
  }

  /**
   * `getLinkedTenants`: the store's list of the links whose source is `tenantId`, so in
   * insertion order (`MockStore.LinkedTenantsInOrder`).
   */
  method GetLinkedTenants(store: MockStore, tenantId: JsString) returns (r: seq<LinkedTenant>)
    requires store.Valid()
    ensures r == store.GetLinkedTenants(tenantId)
    ensures forall l :: l in r ==> l.tenantId == tenantId && store.links.Get(l.id) == Some(l)
    ensures forall k :: k in store.links.entries && store.links.entries[k].tenantId == tenantId ==> store.links.entries[k] in r
  {
    r := store.GetLinkedTenants(tenantId);
  }

  // ---------------------------------------------------------------------------
  // Tenant update and creation
  // ---------------------------------------------------------------------------

  /** `{ ...tenant, name, address, updatedAt: now }`. */
  function UpdatedTenant(t: Tenant, name: JsString, address: JsString, now: int): (u: Tenant)
  {
    t.(name := name, address := address, updatedAt := Some(now))
  }

  /** An update keeps the identity and the creation time, and is undone by restoring the old fields. */
  lemma UpdatedTenantKeeps(t: Tenant, name: JsString, address: JsString, now: int)
    ensures UpdatedTenant(t, name, address, now).id == t.id
    ensures UpdatedTenant(t, name, address, now).createdAt == t.createdAt
    ensures t.updatedAt.Some? ==> UpdatedTenant(UpdatedTenant(t, name, address, now), t.name, t.address, t.updatedAt.value) == t
  {
  }

  /**
   * `updateTenant`: on a stored tenant, replaces its name and address, stamps `updatedAt`
   * and re-stores it in place; on an unknown id returns `null` and changes nothing.
   */
  method UpdateTenant(store: MockStore, id: JsString, name: JsString, address: JsString, now: int)
    returns (r: Option<Tenant>)
    requires store.Valid()
    modifies store
    ensures store.Valid()
    ensures r.Some? <==> old(store.tenants.Has(id))
    ensures r.None? ==> store.tenants == old(store.tenants)
    ensures r.Some? ==> r.value == UpdatedTenant(old(store.tenants.entries[id]), name, address, now)
    ensures r.Some? ==> r.value.id == id && r.value.createdAt == old(store.tenants.entries[id]).createdAt
    ensures r.Some? ==> store.tenants == old(store.tenants).Set(id, r.value)
    ensures r.Some? ==> store.tenants.keys == old(store.tenants.keys)
    ensures forall k :: k != id ==> store.tenants.Get(k) == old(store.tenants).Get(k)
    ensures store.accounts == old(store.accounts) && store.links == old(store.links)
  {
    var tenant := store.GetTenant(id);
    if tenant.None? {
      return None;
    }
    var updated := UpdatedTenant(tenant.value, name, address, now);
    SetSemantics(store.tenants, id, updated);
    store.StoreTenant(updated);
    r := Some(updated);
  }

  /** `tenant-new-${now}-${suffix}`, the id `createTenant` gives a new tenant. */
  function NewTenantId(now: nat, suffix: JsString): JsString
  {
    Js("tenant-new-") + Decimal(now) + [Hyphen] + suffix
  }

  /**
   * `createTenant`: stores a tenant with a fresh id built from `now` and the random
   * suffix, `address || ""`, and both timestamps `now`.
   */
  method CreateTenant(store: MockStore, name: JsString, address: Option<JsString>, now: nat, suffix: JsString)
    returns (t: Tenant)
    requires store.Valid()
    modifies store
    ensures store.Valid()
    ensures t.id == NewTenantId(now, suffix) && t.name == name
    ensures t.address == (if address.Some? then address.value else [])
    ensures t.createdAt == Some(now) && t.updatedAt == Some(now)
    ensures store.tenants == old(store.tenants).Set(t.id, t)
    ensures store.tenants.Get(t.id) == Some(t)
    ensures !old(store.tenants.Has(t.id)) ==> store.tenants.Values() == old(store.tenants.Values()) + [t]
    ensures forall k :: k != t.id ==> store.tenants.Get(k) == old(store.tenants).Get(k)
    ensures store.accounts == old(store.accounts) && store.links == old(store.links)
  {
    t := Tenant(NewTenantId(now, suffix), name, address.GetOr([]), Some(now), Some(now));
    SetSemantics(store.tenants, t.id, t);
    if !store.tenants.Has(t.id) {
      SetAbsentAppends(store.tenants, t.id, t);
    }
    store.StoreTenant(t);
  }

  // ---------------------------------------------------------------------------
  // Links
  // ---------------------------------------------------------------------------

  /** The link `createTenantLink` makes to the stored tenant `linked`. */
  function NewLink(tenantId: JsString, linked: Tenant, createdBy: JsString, realtime: bool, now: int): LinkedTenant
  {
    LinkedTenant(LinkId(tenantId, linked.id), tenantId, linked.id, realtime, now, createdBy, Snapshot(linked, now))
  }

  /** Two link ids agree only for the same pair, as long as the source ids have one length. */
  lemma LinkIdInjective(a: JsString, b: JsString, c: JsString, d: JsString)
    requires |a| == |c| && LinkId(a, b) == LinkId(c, d)
    ensures a == c && b == d
  {
    var x, y := LinkId(a, b), LinkId(c, d);
    assert x[5..5 + |a|] == a && y[5..5 + |c|] == c;
    assert x[6 + |a|..] == b && y[6 + |c|..] == d;
  }

  /**
   * Link ids do not determine the pair once ids may contain `-`: the link from `a-b` to `c`
   * and the link from `a` to `b-c` share an id. Seeded and created tenant ids all start
   * with `tenant-`, so two of them never collide this way.
   */
  lemma LinkIdAmbiguous()
    ensures LinkId(Js("a-b"), Js("c")) == LinkId(Js("a"), Js("b-c"))
    ensures Js("a-b") != Js("a")
  {
  }

  /**
   * `createTenantLink`: when `linkedTenantId` names a stored tenant, stores the link
   * `link-${tenantId}-${linkedTenantId}` with a snapshot of that tenant, replacing any
   * link stored under the same id; otherwise returns `null` and changes nothing. The
   * source tenant is not looked up.
   */
  method CreateTenantLink(store: MockStore, tenantId: JsString, linkedTenantId: JsString, createdBy: JsString, realtime: bool, now: int)
    returns (r: Option<LinkedTenant>)
    requires store.Valid()
    modifies store
    ensures store.Valid()
    ensures r.Some? <==> old(store.tenants.Has(linkedTenantId))
    ensures r.None? ==> store.links == old(store.links)
    ensures r.Some? ==> r.value == NewLink(tenantId, old(store.tenants.entries[linkedTenantId]), createdBy, realtime, now)
    ensures r.Some? ==> r.value.id == LinkId(tenantId, linkedTenantId) && r.value.tenantId == tenantId
    ensures r.Some? ==> r.value.linkedTenantId == linkedTenantId && r.value.realtime == realtime
    ensures r.Some? ==> r.value.tenant.id == linkedTenantId
    ensures r.Some? ==> r.value.tenant.name == old(store.tenants.entries[linkedTenantId]).name
    ensures r.Some? ==> r.value.tenant.address == old(store.tenants.entries[linkedTenantId]).address
    ensures r.Some? ==> store.links == old(store.links).Set(r.value.id, r.value)
    ensures r.Some? && old(store.links.Has(LinkId(tenantId, linkedTenantId))) ==> store.links.Size() == old(store.links.Size())
    ensures forall k :: k != LinkId(tenantId, linkedTenantId) ==> store.links.Get(k) == old(store.links).Get(k)
    ensures store.accounts == old(store.accounts) && store.tenants == old(store.tenants)
  {
    var linked := store.GetTenant(linkedTenantId);
    if linked.None? {
      return None;
    }
    var link := NewLink(tenantId, linked.value, createdBy, realtime, now);
    SetSemantics(store.links, link.id, link);
    if store.links.Has(link.id) {
      SetPresentKeepsOrder(store.links, link.id, link);
    }
    store.StoreLinkedTenant(link);
    r := Some(link);
  }

  /** `{ ...link, realtime: !link.realtime }`. */
  function ToggleRealtime(l: LinkedTenant): LinkedTenant
  {
    l.(realtime := !l.realtime)
  }

  /** The link map after the toggle of the link stored under `id`, if there is one. */
  function ToggleLink(links: OrderedMap<LinkedTenant>, id: JsString): (r: OrderedMap<LinkedTenant>)
    requires links.Valid()
    ensures r.Valid()
  {
    if links.Has(id) then links.Set(id, ToggleRealtime(links.entries[id])) else links
  }

  /** Toggling changes `realtime` and nothing else, so toggling twice restores the link. */
  lemma ToggleRealtimeInvolution(l: LinkedTenant)
    ensures ToggleRealtime(l).realtime == !l.realtime
    ensures ToggleRealtime(l).(realtime := l.realtime) == l
    ensures ToggleRealtime(ToggleRealtime(l)) == l
  {
  }

  /** Two toggles of the same link restore the whole link map, order included. */
  lemma ToggleLinkTwice(links: OrderedMap<LinkedTenant>, id: JsString)
    requires links.Valid()
    ensures ToggleLink(ToggleLink(links, id), id) == links
  {
    if links.Has(id) {
      var once := ToggleLink(links, id);
      SetSemantics(links, id, ToggleRealtime(links.entries[id]));
      var twice := ToggleLink(once, id);
      SetSemantics(once, id, links.entries[id]);
      assert twice.entries == links.entries;
    }
  }

  /**
   * `updateTenantLink`: toggles `realtime` of the link `link-${tenantId}-${linkedTenantId}`
   * and returns the new value; `null`, with nothing changed, when there is no such link.
   */
  method UpdateTenantLink(store: MockStore, tenantId: JsString, linkedTenantId: JsString) returns (r: Option<bool>)
    requires store.Valid()
    modifies store
    ensures store.Valid()
    ensures r.Some? <==> old(store.links.Has(LinkId(tenantId, linkedTenantId)))
    ensures r.Some? ==> r.value == !old(store.links.entries[LinkId(tenantId, linkedTenantId)]).realtime
    ensures store.links == ToggleLink(old(store.links), LinkId(tenantId, linkedTenantId))
    ensures store.accounts == old(store.accounts) && store.tenants == old(store.tenants)
  {
    var linkId := LinkId(tenantId, linkedTenantId);
    var link := store.GetLinkedTenant(linkId);
    if link.None? {
      return None;
    }
    var updated := ToggleRealtime(link.value);
    store.StoreLinkedTenant(updated);
    r := Some(updated.realtime);
  }

  /**
   * `deleteTenantLink`: removes the link `link-${tenantId}-${linkedTenantId}` and reports
   * whether it was there.
   */
  method DeleteTenantLink(store: MockStore, tenantId: JsString, linkedTenantId: JsString) returns (removed: bool)
    requires store.Valid()
    modifies store
    ensures store.Valid()
    ensures removed == old(store.links.Has(LinkId(tenantId, linkedTenantId)))
    ensures !store.links.Has(LinkId(tenantId, linkedTenantId))
    ensures store.links == old(store.links).Delete(LinkId(tenantId, linkedTenantId))
    ensures forall k :: k != LinkId(tenantId, linkedTenantId) ==> store.links.Get(k) == old(store.links).Get(k)
    ensures store.accounts == old(store.accounts) && store.tenants == old(store.tenants)
  {
    DeleteSemantics(store.links, LinkId(tenantId, linkedTenantId));
    removed := store.DeleteLinkedTenant(LinkId(tenantId, linkedTenantId));
  }

  // ---------------------------------------------------------------------------
  // getTenantWithMembers
  // ---------------------------------------------------------------------------

  /** The random draws for one synthesized member: one IMEI draw per device, and the LINE coin. */
  datatype MemberDraw = MemberDraw(imeis: seq<nat>, hasLine: bool)

  const MinMembers: nat := 5
  const MaxMembers: nat := 19
  const ImeiRange: nat := 10_000_000_000_000

  /** What `Math.random()` can produce: 5..19 members, each with 1..3 devices and IMEI draws below 10^13. */
  predicate DrawsOk(draws: seq<MemberDraw>)
  {
    && MinMembers <= |draws| <= MaxMembers
    && (forall i :: 0 <= i < |draws| ==> 1 <= |draws[i].imeis| <= 3)
    && (forall i, j :: 0 <= i < |draws| && 0 <= j < |draws[i].imeis| ==> draws[i].imeis[j] < ImeiRange)
  }

  /** `user-${id}-${String(k).padStart(3, "0")}`. */
  function MemberId(id: JsString, k: nat): JsString
  {
    Js("user-") + id + [Hyphen] + ZeroPad(k, 3)
  }

  lemma MemberIdsDistinct(id: JsString, k: nat, k': nat)
    requires k != k' && k < 1000 && k' < 1000
    ensures MemberId(id, k) != MemberId(id, k')
  {
    ZeroPadShape(k, 3);
    ZeroPadShape(k', 3);
    ZeroPadInjective(k, k', 3);
    var a, b := MemberId(id, k), MemberId(id, k');
    assert a[|a| - 3..] == ZeroPad(k, 3);
    assert b[|b| - 3..] == ZeroPad(k', 3);
  }

  /** `password-${k}`, the plain text of the k-th member's password. */
  function MemberPasswordText(k: nat): (s: JsString)
    ensures Base64.IsBinary(s)
  {
    Js("password-") + Decimal(k)
  }

  /** `btoa(`password-${k}`)`; the text is ASCII, so `btoa` does not throw. */
  function MemberPassword(k: nat): (p: JsString)
    ensures Base64.Btoa(MemberPasswordText(k)) == Some(p)
  {
    Base64.Btoa(MemberPasswordText(k)).value
  }

  /** Device j of member `userId`: `device-${userId}-${j}`, IMEI `35` and 13 digits, PRIMARY first. */
  function MemberDevice(userId: JsString, j: nat, imei: nat): Device
  {
    Device(Js("device-") + userId + [Hyphen] + Decimal(j),
      Some(Js("35") + ZeroPad(imei, 13)),
      if j == 0 then Js("PRIMARY") else Js("SECONDARY"))
  }

  /** The k-th synthesized member (counting from 1) of tenant `t`, looked up by `id`. */
  function Member(t: Tenant, id: JsString, k: nat, draw: MemberDraw): (m: FisherUser)
  {
    var userId := MemberId(id, k);
    FisherUser(
      userId,
      Js("漁師 ") + ZeroPad(k, 2),
      Js("ニックネーム") + Decimal(k),
      MemberPassword(k),
      [TenantRef(t.id, t.name)],
      DeviceList(seq(|draw.imeis|, j requires 0 <= j < |draw.imeis| => MemberDevice(userId, j, draw.imeis[j]))),
      if draw.hasLine then Some([LineUser(Js("line-") + userId, Some(Js("LINE表示名") + Decimal(k)), None)]) else None)
  }

  function Members(t: Tenant, id: JsString, draws: seq<MemberDraw>): (ms: seq<FisherUser>)
    ensures |ms| == |draws|
  {
    seq(|draws|, i requires 0 <= i < |draws| => Member(t, id, i + 1, draws[i]))
  }

  /**
   * The synthesized members: 5 to 19 of them with distinct `user-${id}-NNN` ids, each
   * belonging to the tenant alone, with 1 to 3 devices of which only the first is PRIMARY.
   */
  lemma MembersShape(t: Tenant, id: JsString, draws: seq<MemberDraw>)
    requires DrawsOk(draws)
    ensures MinMembers <= |Members(t, id, draws)| <= MaxMembers
    ensures forall i :: 0 <= i < |draws| ==> Members(t, id, draws)[i].id == MemberId(id, i + 1)
    ensures forall i, j :: 0 <= i < j < |draws| ==> Members(t, id, draws)[i].id != Members(t, id, draws)[j].id
    ensures forall i :: 0 <= i < |draws| ==> Members(t, id, draws)[i].tenants == [TenantRef(t.id, t.name)]
    ensures forall i :: 0 <= i < |draws| ==> 1 <= |Members(t, id, draws)[i].devices.devices| <= 3
    ensures forall i, j :: 0 <= i < |draws| && 0 <= j < |Members(t, id, draws)[i].devices.devices| ==>
      (Members(t, id, draws)[i].devices.devices[j].deviceType == Js("PRIMARY") <==> j == 0)
    ensures forall i, j :: 0 <= i < |draws| && 0 < j < |Members(t, id, draws)[i].devices.devices| ==>
      Members(t, id, draws)[i].devices.devices[j].deviceType == Js("SECONDARY")
    ensures forall i :: 0 <= i < |draws| ==> Members(t, id, draws)[i].encryptedPassword == MemberPassword(i + 1)
  {
    MemberIdsOfMembersDistinct(t, id, draws);
    assert Js("PRIMARY") != Js("SECONDARY") by {
      assert |Js("PRIMARY")| != |Js("SECONDARY")|;
    }
  }

  lemma MemberIdsOfMembersDistinct(t: Tenant, id: JsString, draws: seq<MemberDraw>)
    requires |draws| < 1000
    ensures forall i, j :: 0 <= i < j < |draws| ==> Members(t, id, draws)[i].id != Members(t, id, draws)[j].id
  {
    forall i, j | 0 <= i < j < |draws| ensures Members(t, id, draws)[i].id != Members(t, id, draws)[j].id {
      MemberIdsDistinct(id, i + 1, j + 1);
    }
  }

  /** The account map after storing `ms` one after another. */
  function StoreAll(accounts: OrderedMap<FisherUser>, ms: seq<FisherUser>): (r: OrderedMap<FisherUser>)
    requires accounts.Valid() && accounts.KeyedBy(AccountId)
    ensures r.Valid() && r.KeyedBy(AccountId)
    decreases |ms|
  {
    if ms == [] then accounts
    else
      SetKeepsKeyedBy(accounts, AccountId, ms[|ms| - 1]);
      StoreAll(accounts, ms[..|ms| - 1]).Set(ms[|ms| - 1].id, ms[|ms| - 1])
  }

  /**
   * After storing accounts of pairwise-distinct ids, each is stored as it is, and every
   * other id keeps its account.
   */
  lemma {:induction false} StoreAllSpec(accounts: OrderedMap<FisherUser>, ms: seq<FisherUser>)
    requires accounts.Valid() && accounts.KeyedBy(AccountId)
    requires forall i, j :: 0 <= i < j < |ms| ==> ms[i].id != ms[j].id
    ensures forall i :: 0 <= i < |ms| ==> StoreAll(accounts, ms).Get(ms[i].id) == Some(ms[i])
    ensures forall k :: (forall i :: 0 <= i < |ms| ==> ms[i].id != k) ==> StoreAll(accounts, ms).Get(k) == accounts.Get(k)
    decreases |ms|
  {
    if ms != [] {
      var init := ms[..|ms| - 1];
      var last := ms[|ms| - 1];
      var m := StoreAll(accounts, init);
      StoreAllSpec(accounts, init);
      SetSemantics(m, last.id, last);
      assert StoreAll(accounts, ms) == m.Set(last.id, last);
      forall i | 0 <= i < |ms| ensures StoreAll(accounts, ms).Get(ms[i].id) == Some(ms[i]) {
        if i < |ms| - 1 {
          assert init[i] == ms[i];
        }
      }
      forall k | forall i :: 0 <= i < |ms| ==> ms[i].id != k
        ensures StoreAll(accounts, ms).Get(k) == accounts.Get(k)
      {
        assert forall i :: 0 <= i < |init| ==> init[i] == ms[i];
      }
    }
  }

  /** Stores the accounts `ms` one after another, as the synthesis loop does. */
  method StoreMembers(store: MockStore, ms: seq<FisherUser>)
    requires store.Valid()
    modifies store
    ensures store.Valid()
    ensures store.accounts == StoreAll(old(store.accounts), ms)
    ensures store.tenants == old(store.tenants) && store.links == old(store.links)
  {
    var i := 0;
    while i < |ms|
      invariant 0 <= i <= |ms|
      invariant store.Valid()
      invariant store.accounts == StoreAll(old(store.accounts), ms[..i])
      invariant store.tenants == old(store.tenants) && store.links == old(store.links)
    {
      assert ms[..i + 1][..i] == ms[..i];
      store.StoreAccount(ms[i]);
      i := i + 1;
    }
    assert ms[..i] == ms;
  }

  /**
   * `getTenantWithMembers`: on an unknown id, `{ tenant: null, members: [] }` with nothing
   * changed; otherwise the tenant and its synthesized members, each written into the
   * account map as it is generated.
   */
  method GetTenantWithMembers(store: MockStore, id: JsString, draws: seq<MemberDraw>)
    returns (tenant: Option<Tenant>, members: seq<FisherUser>)
    requires store.Valid() && DrawsOk(draws)
    modifies store
    ensures store.Valid()
    ensures tenant == old(store.tenants.Get(id))
    ensures tenant.None? ==> members == [] && store.accounts == old(store.accounts)
    ensures tenant.Some? ==> members == Members(tenant.value, id, draws)
    ensures tenant.Some? ==> store.accounts == StoreAll(old(store.accounts), members)
    ensures forall i :: 0 <= i < |members| ==> store.accounts.Get(members[i].id) == Some(members[i])
    ensures store.tenants == old(store.tenants) && store.links == old(store.links)
  {
    tenant := store.GetTenant(id);
    if tenant.None? {
      return None, [];
    }
    var t := tenant.value;
    members := Members(t, id, draws);
    StoreMembers(store, members);
    MemberIdsOfMembersDistinct(t, id, draws);
    StoreAllSpec(old(store.accounts), members);
  }
}
