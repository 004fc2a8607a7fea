/**
 * The statistics service: fixed dashboard figures, and per-tenant figures computed from
 * the number the tenant id carries in its first `tenant-<digits>-` part.
 */
module Statistics {
  import opened Wrappers
  import opened JsText
  import MockData
  import Tenants

  datatype DashboardStats = DashboardStats(totalTenants: nat, totalFisherUsers: nat, totalDevices: nat, openAccidents: nat)

  datatype TenantStats = TenantStats(fisherUserCount: nat, openAccidentCount: nat, totalAccidentCount: nat)

  /** `getDashboardStats`: the same four figures on every call. */
  function GetDashboardStats(): (d: DashboardStats)
    ensures d.totalTenants == 45 && d.totalFisherUsers == 320 && d.totalDevices == 280 && d.openAccidents == 12
  {
    DashboardStats(45, 320, 280, 12)
  }

  // ---------------------------------------------------------------------------
  // tenantId.match(/tenant-(\d+)-/)
  // ---------------------------------------------------------------------------

  const TenantPrefix: JsString := Js("tenant-")

  /** The length of the run of decimal digits in `s` that starts at position `i`. */
  function DigitRun(s: JsString, i: nat): (n: nat)
    ensures n == 0 || i + n <= |s|
    ensures forall k :: i <= k < i + n ==> IsDigit(s[k])
    ensures i + n < |s| ==> !IsDigit(s[i + n])
    decreases |s| - i
  {
    if i < |s| && IsDigit(s[i]) then 1 + DigitRun(s, i + 1) else 0
  }

  /** The pattern, read literally: `tenant-`, then the non-empty digits `g`, then `-`, at position `p`. */
  predicate MatchesWith(s: JsString, p: nat, g: JsString)
  {
    g != [] && AllDigits(g) && OccursAt(s, TenantPrefix + g + [Hyphen], p)
  }

  /** Whether the pattern matches at position `p`: greedy `\d+` takes the whole digit run. */
  predicate MatchAt(s: JsString, p: nat)
  {
    && OccursAt(s, TenantPrefix, p)
    && var n := DigitRun(s, p + 7);
    && n > 0 && p + 7 + n < |s| && s[p + 7 + n] == Hyphen
  }

  /** The captured group of a match at `p`. */
  function Group(s: JsString, p: nat): (g: JsString)
    requires MatchAt(s, p)
    ensures AllDigits(g)
  {
    s[p + 7..p + 7 + DigitRun(s, p + 7)]
  }

  /**
   * The greedy reading agrees with the pattern: it matches at `p` exactly when some digit
   * group completes the pattern there, and that group is the one it captures.
   */
  lemma MatchAtSpec(s: JsString, p: nat, g: JsString)
    ensures MatchesWith(s, p, g) ==> MatchAt(s, p) && g == Group(s, p)
    ensures MatchAt(s, p) ==> MatchesWith(s, p, Group(s, p))
  {
    if MatchesWith(s, p, g) {
      var pat := TenantPrefix + g + [Hyphen];
      assert s[p..p + |pat|] == pat;
      assert s[p..p + 7] == TenantPrefix by {
        assert pat[..7] == TenantPrefix;
      }
      forall k | 0 <= k < |g| ensures s[p + 7 + k] == g[k] {
        assert pat[7 + k] == g[k];
      }
      assert s[p + 7 + |g|] == Hyphen by {
        assert pat[7 + |g|] == Hyphen;
      }
      DigitRunOf(s, p + 7, |g|);
      assert Group(s, p) == g;
    }
    if MatchAt(s, p) {
      var gr := Group(s, p);
      var pat := TenantPrefix + gr + [Hyphen];
      assert s[p..p + |pat|] == pat by {
        forall k | 0 <= k < |pat| ensures s[p + k] == pat[k] {
          if k < 7 {
            assert s[p..p + 7][k] == TenantPrefix[k];
          } else if k < 7 + |gr| {
            assert pat[k] == gr[k - 7];
          }
        }
      }
    }
  }

  /** A run of `n` digits followed by a non-digit is the digit run there. */
  lemma {:induction false} DigitRunOf(s: JsString, i: nat, n: nat)
    requires i + n < |s| && !IsDigit(s[i + n])
    requires forall k :: i <= k < i + n ==> IsDigit(s[k])
    ensures DigitRun(s, i) == n
    decreases n
  {
    if n > 0 {
      DigitRunOf(s, i + 1, n - 1);
    }
  }

  /** The leftmost position from `from` on where the pattern matches. */
  function FirstMatch(s: JsString, from: nat): (r: Option<nat>)
    ensures r.Some? ==> from <= r.value && MatchAt(s, r.value)
    ensures r.Some? ==> forall p :: from <= p < r.value ==> !MatchAt(s, p)
    ensures r.None? ==> forall p :: from <= p ==> !MatchAt(s, p)
    decreases |s| - from
  {
    if from >= |s| then None
    else if MatchAt(s, from) then Some(from)
    else FirstMatch(s, from + 1)
  }

  const DefaultBaseCount: nat := 5

  /** `match && match[1] ? parseInt(match[1], 10) : 5`. */
  function BaseCount(id: JsString): nat
  {
    match FirstMatch(id, 0)
    case None => DefaultBaseCount
    case Some(p) => DigitsValue(Group(id, p))
  }

  /** Counts derived from the base count. */
  function StatsFor(base: nat): TenantStats
  {
    TenantStats(base * 8 + 15, base / 2, base * 3 + 10)
  }

  /** `getTenantStats(tenantId)`. */
  function GetTenantStats(tenantId: JsString): TenantStats
  {
    StatsFor(BaseCount(tenantId))
  }

  /**
   * The figures as the service states them: 8·b + 15 users, half of b (rounded down) open
   * accidents, 3·b + 10 accidents in all, so never more open accidents than accidents.
   */
  lemma TenantStatsSpec(tenantId: JsString)
    ensures GetTenantStats(tenantId).fisherUserCount == 8 * BaseCount(tenantId) + 15
    ensures 2 * GetTenantStats(tenantId).openAccidentCount <= BaseCount(tenantId) < 2 * GetTenantStats(tenantId).openAccidentCount + 2
    ensures GetTenantStats(tenantId).totalAccidentCount == 3 * BaseCount(tenantId) + 10
    ensures GetTenantStats(tenantId).openAccidentCount <= GetTenantStats(tenantId).totalAccidentCount
  {
  }

  /** An id without a `tenant-<digits>-` part falls back to the base count 5. */
  lemma BaseCountWithoutMatch(id: JsString)
    requires forall p: nat :: !MatchAt(id, p)
    ensures BaseCount(id) == DefaultBaseCount
    ensures GetTenantStats(id) == TenantStats(55, 2, 25)
  {
  }

  /** A seeded tenant `tenant-NNN-…` gets base count NNN, whatever its random suffix. */
  lemma SeededTenantBase(i: nat, suffix: JsString)
    requires i < 1000
    ensures BaseCount(MockData.SeedTenantId(i, suffix)) == i
    ensures GetTenantStats(MockData.SeedTenantId(i, suffix)) == StatsFor(i)
  {
    var s := MockData.SeedTenantId(i, suffix);
    MockData.SeedTenantIdLayout(i, suffix);
    ZeroPadValue(i, 3);
    var pad := ZeroPad(i, 3);
    assert s[7..10] == pad;
    forall k | 7 <= k < 10 ensures IsDigit(s[k]) {
      assert s[k] == pad[k - 7];
    }
    assert !IsDigit(s[10]);
    DigitRunOf(s, 7, 3);
    assert MatchAt(s, 0);
    assert Group(s, 0) == pad;
  }

  /**
   * An id made by `createTenant`, `tenant-new-<now>-<suffix>` with a suffix of base-36
   * digits (no `-`), has no `tenant-<digits>-` part, so its figures are 55 / 2 / 25.
   */
  lemma CreatedTenantStats(now: nat, suffix: JsString)
    requires forall k :: 0 <= k < |suffix| ==> suffix[k] != Hyphen
    ensures BaseCount(Tenants.NewTenantId(now, suffix)) == DefaultBaseCount
    ensures GetTenantStats(Tenants.NewTenantId(now, suffix)) == TenantStats(55, 2, 25)
  {
    var s := Tenants.NewTenantId(now, suffix);
    forall p: nat ensures !MatchAt(s, p) {
      CreatedIdNoMatchAt(now, suffix, p);
    }
    BaseCountWithoutMatch(s);
  }

  /** No position of a created id starts `tenant-<digits>-`. */
  lemma CreatedIdNoMatchAt(now: nat, suffix: JsString, p: nat)
    requires forall k :: 0 <= k < |suffix| ==> suffix[k] != Hyphen
    ensures !MatchAt(Tenants.NewTenantId(now, suffix), p)
  {
    var s := Tenants.NewTenantId(now, suffix);
    var head := Js("tenant-new-");
    var d := Decimal(now);
    var n := |d|;
    assert s == head + d + [Hyphen] + suffix;
    if p + 7 <= |s| {
      if p == 0 {
        assert s[7] == head[7] && !IsDigit(s[7]);
      } else if p == 4 {
        assert s[p] == head[4] != TenantPrefix[0];
      } else if p + 6 == 11 + n {
        if p < 11 {
          assert s[p] == head[p] != TenantPrefix[0];
        } else {
          assert s[p] == d[p - 11] != TenantPrefix[0];
        }
      } else {
        assert s[p + 6] != Hyphen by {
          if p + 6 < 11 {
            assert s[p + 6] == head[p + 6];
          } else if p + 6 < 11 + n {
            assert s[p + 6] == d[p + 6 - 11];
          } else {
            assert s[p + 6] == suffix[p + 6 - 12 - n];
          }
        }
        assert s[p..p + 7][6] != TenantPrefix[6];
      }
    }
  }
}
