/**
 * The shared in-memory store that stands in for the backend: three JavaScript `Map`s
 * (accounts, tenants and links between tenants), each keyed by the record's identity,
 * and the two idempotent seeding routines that fill the tenant and link maps.
 * `Date.now()` is the parameter `now`; the random id suffixes and link counts are
 * parameters too.
 */
module MockData {
  import opened Wrappers
  import opened JsText
  import opened OrderedMaps
  import opened Entities
  import Seqs

  const SeedCount: nat := 100
  const LinkSourceLimit: nat := 50
  /** `n * 86400000`: n days in milliseconds. */
  function Days(n: int): int { n * 86400000 }

  /** `n * 3600000`: n hours in milliseconds. */
  function Hours(n: int): int { n * 3600000 }

  const Prefixes: seq<JsString> := [Js("山田水産"), Js("田中漁業"), Js("佐藤海運"), Js("鈴木マリン"), Js("高橋フィッシング")]

  function Min(a: nat, b: nat): nat { if a < b then a else b }

  // ---------------------------------------------------------------------------
  // The seeded tenant catalogue
  // ---------------------------------------------------------------------------

  /** `tenant-${String(i).padStart(3, "0")}-${suffix}`; its layout is `SeedTenantIdLayout`. */
  function SeedTenantId(i: nat, suffix: JsString): JsString
  {
    Js("tenant-") + ZeroPad(i, 3) + [Hyphen] + suffix
  }

  /** A seeded id below index 1000 is "tenant-", three digits spelling the index, "-", then the suffix. */
  lemma SeedTenantIdLayout(i: nat, suffix: JsString)
    requires i < 1000
    ensures |SeedTenantId(i, suffix)| == 11 + |suffix|
    ensures SeedTenantId(i, suffix)[..7] == Js("tenant-")
    ensures SeedTenantId(i, suffix)[7..10] == ZeroPad(i, 3) && AllDigits(ZeroPad(i, 3))
    ensures SeedTenantId(i, suffix)[10] == Hyphen && SeedTenantId(i, suffix)[11..] == suffix
  {
    ZeroPadShape(i, 3);
    var id := SeedTenantId(i, suffix);
    assert id == Js("tenant-") + ZeroPad(i, 3) + [Hyphen] + suffix;
  }

  /** The i-th prefix cycling through the five, followed by ` ${i}` from the second tenant on. */
  function SeedTenantName(i: nat): JsString
  {
    Prefixes[i % 5] + (if i > 1 then [Space] + Decimal(i) else [])
  }

  /** `〒${100 + i}-${String(i * 11).padStart(4, "0")} 東京都港区${i}丁目${i}-${i}`. */
  function SeedTenantAddress(i: nat): JsString
  {
    Js("〒") + Decimal(100 + i) + [Hyphen] + ZeroPad(i * 11, 4) + Js(" 東京都港区")
      + Decimal(i) + Js("丁目") + Decimal(i) + [Hyphen] + Decimal(i)
  }

  function SeedTenant(i: nat, suffix: JsString, now: int): (t: Tenant)
  {
    Tenant(
      SeedTenantId(i, suffix),
      SeedTenantName(i),
      SeedTenantAddress(i),
      Some(now - Days(100 - i)),
      Some(now - Hours(50 - i % 50)))
  }

  /**
   * Pass `k` of `initializeMockTenants` builds tenant `k + 1` with the k-th random suffix
   * (a pass past the drawn suffixes never happens; it would use an empty suffix).
   */
  function SeedTenantAt(now: int, suffixes: seq<JsString>): nat -> Tenant
  {
    (k: nat) => SeedTenant(k + 1, if k < |suffixes| then suffixes[k] else [], now)
  }

  /** The catalogue `initializeMockTenants` inserts, tenant i + 1 at position i. */
  function SeedTenants(now: int, suffixes: seq<JsString>): (ts: seq<Tenant>)
    ensures |ts| == SeedCount
  {
    Tabulate(SeedTenantAt(now, suffixes), SeedCount)
  }

  /** Position k of the catalogue is tenant k + 1, built with the k-th suffix. */
  lemma SeedTenantsIndex(now: int, suffixes: seq<JsString>, k: nat)
    requires k < SeedCount <= |suffixes|
    ensures SeedTenants(now, suffixes)[k] == SeedTenant(k + 1, suffixes[k], now)
  {
    TabulateIndex(SeedTenantAt(now, suffixes), SeedCount, k);
  }

  /**
   * Seeded tenant i carries the i-th padded id, the prefix i mod 5 followed by " " and i
   * from the second tenant on, and was created 100 - i days before `now`.
   */
  lemma SeedTenantFields(i: nat, suffix: JsString, now: int)
    ensures SeedTenant(i, suffix, now).id == SeedTenantId(i, suffix)
    ensures SeedTenant(i, suffix, now).name == Prefixes[i % 5] + (if i > 1 then [Space] + Decimal(i) else [])
    ensures SeedTenant(i, suffix, now).createdAt == Some(now - Days(100 - i))
  {
  }

  /** With one `now`, a later seeded tenant was created strictly later. */
  lemma SeedCreatedAtIncreasing(now: int, suffixes: seq<JsString>, a: nat, b: nat)
    requires a < b < SeedCount <= |suffixes|
    ensures SeedTenants(now, suffixes)[a].createdAt.Some? && SeedTenants(now, suffixes)[b].createdAt.Some?
    ensures SeedTenants(now, suffixes)[a].createdAt.value < SeedTenants(now, suffixes)[b].createdAt.value
  {
    SeedTenantsIndex(now, suffixes, a);
    SeedTenantsIndex(now, suffixes, b);
    SeedTenantFields(a + 1, suffixes[a], now);
    SeedTenantFields(b + 1, suffixes[b], now);
    DaysDecreasing(100 - (b + 1), 100 - (a + 1));
  }

  lemma DaysDecreasing(x: int, y: int)
    requires x < y
    ensures Days(x) < Days(y)
  {
  }

  /** Two seeded ids with different indices differ, whatever their random suffixes. */
  lemma SeedIdsDistinct(i: nat, j: nat, si: JsString, sj: JsString)
    requires i < 1000 && j < 1000 && i != j
    ensures SeedTenantId(i, si) != SeedTenantId(j, sj)
  {
    var a, b := SeedTenantId(i, si), SeedTenantId(j, sj);
    SeedTenantIdLayout(i, si);
    SeedTenantIdLayout(j, sj);
    if a == b {
      assert a[7..10] == b[7..10];
      ZeroPadInjective(i, j, 3);
    }
  }

  /** Pass `k` builds the tenant of index `k + 1`. */
  lemma SeedTenantAtId(now: int, suffixes: seq<JsString>, k: nat)
    ensures TenantId(SeedTenantAt(now, suffixes)(k)) == SeedTenantId(k + 1, if k < |suffixes| then suffixes[k] else [])
  {
    var suffix := if k < |suffixes| then suffixes[k] else [];
    assert SeedTenantAt(now, suffixes)(k) == SeedTenant(k + 1, suffix, now);
  }

  /** The hundred passes build tenants of pairwise-distinct ids. */
  lemma SeedTenantsDistinct(now: int, suffixes: seq<JsString>)
    ensures forall a: nat, b: nat :: a < b < SeedCount ==>
      TenantId(SeedTenantAt(now, suffixes)(a)) != TenantId(SeedTenantAt(now, suffixes)(b))
  {
    var f := SeedTenantAt(now, suffixes);
    forall a: nat, b: nat | a < b < SeedCount ensures TenantId(f(a)) != TenantId(f(b)) {
      var sa := if a < |suffixes| then suffixes[a] else [];
      var sb := if b < |suffixes| then suffixes[b] else [];
      SeedTenantAtId(now, suffixes, a);
      SeedTenantAtId(now, suffixes, b);
      SeedIdsDistinct(a + 1, b + 1, sa, sb);
    }
  }

  /** Running the hundred passes on an empty map stores exactly the catalogue, in order. */
  lemma SeededTenantValues(now: int, suffixes: seq<JsString>)
    ensures SetEach(SeedTenantAt(now, suffixes), SeedCount, TenantId).Values() == SeedTenants(now, suffixes)
  {
    SeedTenantsDistinct(now, suffixes);
    SetEachValues(SeedTenantAt(now, suffixes), SeedCount, TenantId);
  }

  // ---------------------------------------------------------------------------
  // The seeded links
  // ---------------------------------------------------------------------------

  /** The link that seeding makes from tenant `i` with offset `j`, to tenant `(i + j + 1) mod n`. */
  function SeedLink(all: seq<Tenant>, i: nat, j: nat, now: int): (l: LinkedTenant)
    requires i < |all|
    ensures l.tenantId == all[i].id && l.linkedTenantId == all[(i + j + 1) % |all|].id
    ensures l.id == LinkId(l.tenantId, l.linkedTenantId)
    ensures l.realtime == (j % 2 == 0) && l.tenant.id == l.linkedTenantId
    ensures l.tenant == Snapshot(all[(i + j + 1) % |all|], now)
    ensures l.createdAt == now - Days(j) && l.createdBy == Js("admin-user")
  {
    var source := all[i];
    var target := all[(i + j + 1) % |all|];
    LinkedTenant(LinkId(source.id, target.id), source.id, target.id, j % 2 == 0,
      now - Days(j), Js("admin-user"), Snapshot(target, now))
  }

  /** Seeding skips an offset that leads back to the source tenant. */
  predicate SeedLinkApplies(all: seq<Tenant>, i: nat, j: nat)
    requires i < |all|
  {
    all[i].id != all[(i + j + 1) % |all|].id
  }

  /** One pass of the inner loop: store the link of offset `(i, j)` unless it is skipped. */
  function SeedStep(all: seq<Tenant>, now: int, m: OrderedMap<LinkedTenant>, i: nat, j: nat): (r: OrderedMap<LinkedTenant>)
    requires i < |all| && m.Valid() && m.KeyedBy(LinkKey)
    ensures r.Valid() && r.KeyedBy(LinkKey)
  {
    var l := SeedLink(all, i, j, now);
    if SeedLinkApplies(all, i, j) && !m.Has(l.id) then
      SetKeepsKeyedBy(m, LinkKey, l);
      m.Set(l.id, l)
    else m
  }

  /** An entry after one pass is the link that pass stored, or an entry from before. */
  lemma SeedStepEntry(all: seq<Tenant>, now: int, m: OrderedMap<LinkedTenant>, i: nat, j: nat, k: JsString)
    requires i < |all| && m.Valid() && m.KeyedBy(LinkKey) && k in SeedStep(all, now, m, i, j).entries
    ensures var l := SeedLink(all, i, j, now);
      if SeedLinkApplies(all, i, j) && !m.Has(l.id) && k == l.id then SeedStep(all, now, m, i, j).entries[k] == l
      else k in m.entries && SeedStep(all, now, m, i, j).entries[k] == m.entries[k]
  {
    var l := SeedLink(all, i, j, now);
    if SeedLinkApplies(all, i, j) && !m.Has(l.id) {
      SetSemantics(m, l.id, l);
      if k != l.id {
        assert m.Set(l.id, l).Get(k) == m.Get(k);
      }
    }
  }

  /** Whether the loop bounds `(i0, j0)` are ones the nested seeding loops pass through. */
  predicate LoopPoint(all: seq<Tenant>, counts: seq<nat>, i0: nat, j0: nat)
  {
    i0 <= Min(|all|, LinkSourceLimit) && i0 <= |counts| && (j0 > 0 ==> i0 < Min(|all|, LinkSourceLimit) && i0 < |counts| && j0 <= counts[i0])
  }

  /** The link map after the loops have processed every offset before `(i0, j0)`, starting empty. */
  function LinksAfter(all: seq<Tenant>, counts: seq<nat>, now: int, i0: nat, j0: nat): (r: OrderedMap<LinkedTenant>)
    requires LoopPoint(all, counts, i0, j0)
    ensures r.Valid() && r.KeyedBy(LinkKey)
    decreases i0, j0
  {
    if j0 > 0 then SeedStep(all, now, LinksAfter(all, counts, now, i0, j0 - 1), i0, j0 - 1)
    else if i0 > 0 then LinksAfter(all, counts, now, i0 - 1, counts[i0 - 1])
    else Empty()
  }

  /** What `initializeMockLinkedTenants` leaves in an empty link map. */
  function SeedLinks(all: seq<Tenant>, counts: seq<nat>, now: int): (r: OrderedMap<LinkedTenant>)
    requires |counts| >= Min(|all|, LinkSourceLimit)
    ensures r.Valid() && r.KeyedBy(LinkKey)
  {
    LinksAfter(all, counts, now, Min(|all|, LinkSourceLimit), 0)
  }

  /** Offset `j` of source `i` has been processed when the loops are at `(i0, j0)`. */
  predicate Processed(counts: seq<nat>, i: nat, j: nat, i0: nat, j0: nat)
  {
    (i < i0 && i < |counts| && j < counts[i]) || (i == i0 && j < j0)
  }

  /** Every stored link is the link of a processed offset that does not lead back to its source. */
  lemma {:induction false} LinksAfterSound(all: seq<Tenant>, counts: seq<nat>, now: int, i0: nat, j0: nat, k: JsString)
    returns (i: nat, j: nat)
    requires LoopPoint(all, counts, i0, j0) && k in LinksAfter(all, counts, now, i0, j0).entries
    ensures i < |all| && Processed(counts, i, j, i0, j0) && SeedLinkApplies(all, i, j)
    ensures LinksAfter(all, counts, now, i0, j0).entries[k] == SeedLink(all, i, j, now)
    decreases i0, j0
  {
    if j0 > 0 {
      var m := LinksAfter(all, counts, now, i0, j0 - 1);
      SeedStepEntry(all, now, m, i0, j0 - 1, k);
      if SeedLinkApplies(all, i0, j0 - 1) && !m.Has(SeedLink(all, i0, j0 - 1, now).id) && k == SeedLink(all, i0, j0 - 1, now).id {
        i, j := i0, j0 - 1;
      } else {
        i, j := LinksAfterSound(all, counts, now, i0, j0 - 1, k);
      }
    } else if i0 > 0 {
      i, j := LinksAfterSound(all, counts, now, i0 - 1, counts[i0 - 1], k);
    } else {
      assert false;
    }
  }

  /** Every processed offset that does not lead back to its source has its link id stored. */
  lemma {:induction false} LinksAfterComplete(all: seq<Tenant>, counts: seq<nat>, now: int, i0: nat, j0: nat, i: nat, j: nat)
    requires LoopPoint(all, counts, i0, j0) && i < |all| && Processed(counts, i, j, i0, j0) && SeedLinkApplies(all, i, j)
    ensures SeedLink(all, i, j, now).id in LinksAfter(all, counts, now, i0, j0).entries
    decreases i0, j0
  {
    if j0 > 0 {
      if !(i == i0 && j == j0 - 1) {
        LinksAfterComplete(all, counts, now, i0, j0 - 1, i, j);
      }
    } else if i0 > 0 {
      LinksAfterComplete(all, counts, now, i0 - 1, counts[i0 - 1], i, j);
    }
  }

  /**
   * The seeded links are exactly those of the offsets drawn for the first min(n, 50)
   * tenants: none joins a tenant to itself, each is the link of a drawn offset, and
   * every drawn offset whose target is another tenant has its link stored.
   */
  lemma SeedLinksShape(all: seq<Tenant>, counts: seq<nat>, now: int, k: JsString)
    requires |counts| >= Min(|all|, LinkSourceLimit) && k in SeedLinks(all, counts, now).entries
    ensures SeedLinks(all, counts, now).entries[k].tenantId != SeedLinks(all, counts, now).entries[k].linkedTenantId
    ensures exists i: nat, j: nat ::
      && i < Min(|all|, LinkSourceLimit) && j < counts[i]
      && SeedLinks(all, counts, now).entries[k] == SeedLink(all, i, j, now)
  {
    var i, j := LinksAfterSound(all, counts, now, Min(|all|, LinkSourceLimit), 0, k);
  }

  lemma SeedLinksComplete(all: seq<Tenant>, counts: seq<nat>, now: int, i: nat, j: nat)
    requires |counts| >= Min(|all|, LinkSourceLimit)
    requires i < Min(|all|, LinkSourceLimit) && j < counts[i] && SeedLinkApplies(all, i, j)
    ensures SeedLink(all, i, j, now).id in SeedLinks(all, counts, now).entries
  {
    LinksAfterComplete(all, counts, now, Min(|all|, LinkSourceLimit), 0, i, j);
  }

  /**
   * With at least five tenants of distinct ids, none of the four offsets a source can
   * draw leads back to the source, so every draw produces a link.
   */
  lemma SeedLinkAppliesWhenLarge(all: seq<Tenant>, i: nat, j: nat)
    requires 5 <= |all| && i < |all| && j < 4
    requires forall a, b :: 0 <= a < b < |all| ==> all[a].id != all[b].id
    ensures SeedLinkApplies(all, i, j)
  {
    TargetOffset(|all|, i, j);
  }

  /** In a ring of at least five, stepping one to four places on never comes back. */
  lemma TargetOffset(n: nat, i: nat, j: nat)
    requires 5 <= n && i < n && j < 4
    ensures (i + j + 1) % n != i && (i + j + 1) % n < n
  {
    var x := i + j + 1;
    if x >= n {
      WrapOnce(x, n);
    } else {
      assert x % n == x;
    }
  }

  /** An offset between `n` and `2n` wraps around once. */
  lemma WrapOnce(x: nat, n: nat)
    requires 0 < n <= x < 2 * n
    ensures x % n == x - n
  {
    var q, r := x / n, x % n;
    assert x == q * n + r && 0 <= r < n;
  }

  /** `(lt) => lt.tenantId === tenantId`. */
  function OwnedBy(tenantId: JsString): LinkedTenant -> bool
  {
    (l: LinkedTenant) => l.tenantId == tenantId
  }

  // ---------------------------------------------------------------------------
  // The store
  // ---------------------------------------------------------------------------

  class MockStore {
    var accounts: OrderedMap<FisherUser>
    var tenants: OrderedMap<Tenant>
    var links: OrderedMap<LinkedTenant>

    /** Each map lists its keys once, in insertion order, and stores every record under its own id. */
    ghost predicate Valid()
      reads this
    {
      && accounts.Valid() && accounts.KeyedBy(AccountId)
      && tenants.Valid() && tenants.KeyedBy(TenantId)
      && links.Valid() && links.KeyedBy(LinkKey)
    }

    /** Three empty maps. */
    constructor ()
      ensures Valid()
      ensures accounts == Empty() && tenants == Empty() && links == Empty()
    {
      accounts, tenants, links := Empty(), Empty(), Empty();
    }

    /** The state at module load: empty maps, then `initializeMockTenants` and `initializeMockLinkedTenants`. */
    constructor Loaded(now: int, suffixes: seq<JsString>, linkCounts: seq<nat>)
      requires |suffixes| >= SeedCount && |linkCounts| >= LinkSourceLimit
      requires forall i :: 0 <= i < |linkCounts| ==> 1 <= linkCounts[i] <= 4
      ensures Valid()
      ensures accounts == Empty()
      ensures tenants.Values() == SeedTenants(now, suffixes)
      ensures links == SeedLinks(SeedTenants(now, suffixes), linkCounts, now)
    {
      accounts, tenants, links := Empty(), Empty(), Empty();
      new;
      InitializeTenants(now, suffixes);
      InitializeLinkedTenants(now, linkCounts);
    }

    /** `storeMockAccount`: upsert by id. */
    method StoreAccount(a: FisherUser)
      requires Valid()
      modifies this
      ensures Valid()
      ensures accounts == old(accounts).Set(a.id, a)
      ensures tenants == old(tenants) && links == old(links)
    {
      SetKeepsKeyedBy(accounts, AccountId, a);
      accounts := accounts.Set(a.id, a);
    }

    /** `getMockAccount`. */
    function GetAccount(id: JsString): (r: Option<FisherUser>)
      reads this
      requires Valid()
      ensures r.Some? <==> accounts.Has(id)
      ensures r.Some? ==> r.value.id == id && r.value == accounts.entries[id]
    {
      accounts.Get(id)
    }

    /** `getAllMockAccounts`: a snapshot of the accounts in insertion order. */
    function GetAllAccounts(): (r: seq<FisherUser>)
      reads this
      requires Valid()
      ensures |r| == accounts.Size()
      ensures forall i :: 0 <= i < |r| ==> r[i].id == accounts.keys[i] && GetAccount(r[i].id) == Some(r[i])
    {
      accounts.Values()
    }

    /** `getMockTenant`. */
    function GetTenant(id: JsString): (r: Option<Tenant>)
      reads this
      requires Valid()
      ensures r.Some? <==> tenants.Has(id)
      ensures r.Some? ==> r.value.id == id && r.value == tenants.entries[id]
    {
      tenants.Get(id)
    }

    /** `getAllMockTenants`: a snapshot of the tenants in insertion order. */
    function GetAllTenants(): (r: seq<Tenant>)
      reads this
      requires Valid()
      ensures |r| == tenants.Size()
      ensures forall i :: 0 <= i < |r| ==> r[i].id == tenants.keys[i] && GetTenant(r[i].id) == Some(r[i])
      ensures forall i, j :: 0 <= i < j < |r| ==> r[i].id != r[j].id
    {
      KeyedValuesDistinct(tenants, TenantId);
      tenants.Values()
    }

    /** `storeMockTenant`: upsert by id. */
    method StoreTenant(t: Tenant)
      requires Valid()
      modifies this
      ensures Valid()
      ensures tenants == old(tenants).Set(t.id, t)
      ensures accounts == old(accounts) && links == old(links)
    {
      SetKeepsKeyedBy(tenants, TenantId, t);
      tenants := tenants.Set(t.id, t);
    }

    /** `getMockLinkedTenants`: the links whose source is `tenantId`, in insertion order. */
    function GetLinkedTenants(tenantId: JsString): (r: seq<LinkedTenant>)
      reads this
      requires Valid()
      ensures forall i :: 0 <= i < |r| ==> r[i].tenantId == tenantId && GetLinkedTenant(r[i].id) == Some(r[i])
      ensures forall k :: k in links.entries && links.entries[k].tenantId == tenantId ==> links.entries[k] in r
    {
      var vs := links.Values();
      assert forall k :: k in links.entries ==> links.entries[k] in vs by {
        forall k | k in links.entries ensures links.entries[k] in vs {
          var i :| 0 <= i < |links.keys| && links.keys[i] == k;
          assert vs[i] == links.entries[k];
        }
      }
      Seqs.Filter(vs, OwnedBy(tenantId))
    }

    /** The links of a tenant come in the order they were first stored. */
    lemma LinkedTenantsInOrder(tenantId: JsString) returns (idx: seq<nat>)
      requires Valid()
      ensures Seqs.PositionsOf(idx, links.Values(), GetLinkedTenants(tenantId))
    {
      idx := Seqs.FilterPositions(links.Values(), OwnedBy(tenantId));
    }

    /** No link appears twice among a tenant's links. */
    lemma LinkedTenantsDistinct(tenantId: JsString)
      requires Valid()
      ensures forall i, j :: 0 <= i < j < |GetLinkedTenants(tenantId)| ==>
        GetLinkedTenants(tenantId)[i].id != GetLinkedTenants(tenantId)[j].id
    {
      var r := GetLinkedTenants(tenantId);
      var idx := LinkedTenantsInOrder(tenantId);
      KeyedValuesDistinct(links, LinkKey);
      forall i, j | 0 <= i < j < |r| ensures r[i].id != r[j].id {
        assert r[i] == links.Values()[idx[i]] && r[j] == links.Values()[idx[j]];
        assert LinkKey(r[i]) != LinkKey(r[j]);
      }
    }

    /** `getMockLinkedTenant`. */
    function GetLinkedTenant(id: JsString): (r: Option<LinkedTenant>)
      reads this
      requires Valid()
      ensures r.Some? <==> links.Has(id)
      ensures r.Some? ==> r.value.id == id && r.value == links.entries[id]
    {
      links.Get(id)
    }

    /** `storeMockLinkedTenant`: upsert by id. */
    method StoreLinkedTenant(l: LinkedTenant)
      requires Valid()
      modifies this
      ensures Valid()
      ensures links == old(links).Set(l.id, l)
      ensures accounts == old(accounts) && tenants == old(tenants)
    {
      SetKeepsKeyedBy(links, LinkKey, l);
      links := links.Set(l.id, l);
    }

    /** `deleteMockLinkedTenant`: reports whether the link was there. */
    method DeleteLinkedTenant(id: JsString) returns (removed: bool)
      requires Valid()
      modifies this
      ensures Valid()
      ensures removed == old(links.Has(id))
      ensures links == old(links).Delete(id)
      ensures accounts == old(accounts) && tenants == old(tenants)
    {
      removed := links.Has(id);
      DeleteKeepsKeyedBy(links, LinkKey, id);
      links := links.Delete(id);
    }

    /** `initializeMockTenants`: on an empty tenant map, insert the hundred seeded tenants. */
    method InitializeTenants(now: int, suffixes: seq<JsString>)
      requires Valid() && |suffixes| >= SeedCount
      modifies this
      ensures Valid()
      ensures accounts == old(accounts) && links == old(links)
      ensures old(tenants.Size()) > 0 ==> tenants == old(tenants)
      ensures old(tenants.Size()) == 0 ==> tenants.Values() == SeedTenants(now, suffixes)
    {
      if tenants.Size() > 0 {
        return;
      }
      for i := 1 to SeedCount + 1
        invariant Valid()
        invariant accounts == old(accounts) && links == old(links)
        invariant tenants == SetEach(SeedTenantAt(now, suffixes), i - 1, TenantId)
      {
        var tenant := SeedTenant(i, suffixes[i - 1], now);
        assert tenant == SeedTenantAt(now, suffixes)(i - 1);
        SetKeepsKeyedBy(tenants, TenantId, tenant);
        tenants := tenants.Set(SeedTenantId(i, suffixes[i - 1]), tenant);
      }
      SeededTenantValues(now, suffixes);
    }

    /**
     * `initializeMockLinkedTenants`: on an empty link map, link each of the first
     * min(n, 50) tenants to the next `linkCounts[i]` tenants, wrapping around, skipping
     * the tenant itself and any link id already stored.
     */
    method InitializeLinkedTenants(now: int, linkCounts: seq<nat>)
      requires Valid()
      requires |linkCounts| >= Min(tenants.Size(), LinkSourceLimit)
      requires forall i :: 0 <= i < |linkCounts| ==> 1 <= linkCounts[i] <= 4
      modifies this
      ensures Valid()
      ensures accounts == old(accounts) && tenants == old(tenants)
      ensures old(links.Size()) > 0 ==> links == old(links)
      ensures old(links.Size()) == 0 ==> links == SeedLinks(old(tenants.Values()), linkCounts, now)
    {
      if links.Size() > 0 {
        return;
      }
      var all := GetAllTenants();
      var n := |all|;
      var sources := Min(n, LinkSourceLimit);
      for i := 0 to sources
        invariant Valid()
        invariant accounts == old(accounts) && tenants == old(tenants)
        invariant links == LinksAfter(all, linkCounts, now, i, 0)
      {
        for j := 0 to linkCounts[i]
          invariant Valid()
          invariant accounts == old(accounts) && tenants == old(tenants)
          invariant links == LinksAfter(all, linkCounts, now, i, j)
        {
          SeedLinkAt(all, now, i, j);
        }
      }
    }

    /** One pass of the inner seeding loop: link tenant `i` to the tenant `j + 1` places on. */
    method SeedLinkAt(all: seq<Tenant>, now: int, i: nat, j: nat)
      requires Valid() && i < |all|
      modifies this
      ensures Valid()
      ensures accounts == old(accounts) && tenants == old(tenants)
      ensures links == SeedStep(all, now, old(links), i, j)
    {
      var tenant := all[i];
      var target := all[(i + j + 1) % |all|];
      if target.id != tenant.id {
        var linkId := LinkId(tenant.id, target.id);
        if !links.Has(linkId) {
          var link := SeedLink(all, i, j, now);
          SetKeepsKeyedBy(links, LinkKey, link);
          links := links.Set(linkId, link);
        }
      }
    }
  }
}
