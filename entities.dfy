/**
 * The records the mock backend stores: tenants, the directed links between tenants
 * and the fisher-user accounts, with optional JavaScript fields as `Option`.
 * Timestamps are milliseconds since the epoch, as `Date.now()` gives them.
 */
module Entities {
  import opened Wrappers
  import opened JsText

  datatype Tenant = Tenant(
    id: JsString,
    name: JsString,
    address: JsString,
    createdAt: Option<int>,
    updatedAt: Option<int>)

  /** The copy of the linked tenant that a link carries. */
  datatype TenantSnapshot = TenantSnapshot(
    id: JsString,
    name: JsString,
    address: JsString,
    createdAt: int,
    updatedAt: int,
    topicArn: JsString)

  datatype LinkedTenant = LinkedTenant(
    id: JsString,
    tenantId: JsString,
    linkedTenantId: JsString,
    realtime: bool,
    createdAt: int,
    createdBy: JsString,
    tenant: TenantSnapshot)

  datatype Device = Device(id: JsString, imei: Option<JsString>, deviceType: JsString)

  datatype DeviceList = DeviceList(devices: seq<Device>)

  datatype LineUser = LineUser(userId: JsString, displayName: Option<JsString>, pictureUrl: Option<JsString>)

  datatype TenantRef = TenantRef(id: JsString, name: JsString)

  datatype FisherUser = FisherUser(
    id: JsString,
    name: JsString,
    nickname: JsString,
    encryptedPassword: JsString,
    tenants: seq<TenantRef>,
    devices: DeviceList,
    lineUsers: Option<seq<LineUser>>)

  function TenantId(t: Tenant): JsString { t.id }

  function LinkKey(l: LinkedTenant): JsString { l.id }

  function AccountId(a: FisherUser): JsString { a.id }

  /**
   * The identity of the link from `tenantId` to `linkedTenantId`:
   * `link-${tenantId}-${linkedTenantId}`.
   */
  function LinkId(tenantId: JsString, linkedTenantId: JsString): (r: JsString)
    ensures |r| == 6 + |tenantId| + |linkedTenantId|
    ensures r[..5] == Js("link-") && r[5..5 + |tenantId|] == tenantId
    ensures r[5 + |tenantId|] == Hyphen && r[6 + |tenantId|..] == linkedTenantId
  {
    Js("link-") + tenantId + [Hyphen] + linkedTenantId
  }

  /** `arn:aws:sns:ap-northeast-1:123456789:${id}`. */
  function TopicArn(id: JsString): JsString
  {
    Js("arn:aws:sns:ap-northeast-1:123456789:") + id
  }

  /** `x || now` on an optional timestamp: absent and 0 are both falsy. */
  function OrNow(t: Option<int>, now: int): (r: int)
    ensures t.Some? && t.value != 0 ==> r == t.value
    ensures t.None? || t.value == 0 ==> r == now
  {
    if t.Some? && t.value != 0 then t.value else now
  }

  /** The snapshot of tenant `t` that a link made at time `now` carries. */
  function Snapshot(t: Tenant, now: int): (s: TenantSnapshot)
    ensures s.id == t.id && s.name == t.name && s.address == t.address
    ensures s.createdAt == OrNow(t.createdAt, now) && s.updatedAt == OrNow(t.updatedAt, now)
  {
    TenantSnapshot(t.id, t.name, t.address, OrNow(t.createdAt, now), OrNow(t.updatedAt, now), TopicArn(t.id))
  }
}
