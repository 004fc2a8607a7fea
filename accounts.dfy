/**
 * The fisher-user account service: lookup, creation and the nickname and password
 * updates, all against the account map of the shared store, and `safeBase64Encode`,
 * which stores a password as the base64 of its UTF-8 bytes.
 */
module Accounts {
  import opened Wrappers
  import opened JsText
  import opened OrderedMaps
  import opened Entities
  import opened MockData
  import Base64
  import Utf8

  /**
   * `safeBase64Encode(s)`: `btoa(unescape(encodeURIComponent(s)))`, and `s` itself when
   * that throws.
   */
  function SafeBase64Encode(s: JsString): JsString
  {
    match Utf8.EncodeUriComponent(s)
    case None => s
    case Some(escaped) =>
      match Base64.Btoa(Utf8.Unescape(escaped))
      case Some(encoded) => encoded
      case None => s
  }

  /**
   * For a string without lone surrogates the stored form is the base64 of its UTF-8 bytes;
   * a string with a lone surrogate makes `encodeURIComponent` throw and is stored as it is.
   */
  lemma SafeBase64EncodeSpec(s: JsString)
    ensures WellFormed(s) <==> Utf8.Encode(s).Some?
    ensures WellFormed(s) ==> SafeBase64Encode(s) == Base64.Encode(Utf8.Encode(s).value)
    ensures !WellFormed(s) ==> SafeBase64Encode(s) == s
  {
    Utf8.EncodeDefined(s);
    Utf8.UnescapeEncodeUriComponent(s);
    if WellFormed(s) {
      Base64.BytesRoundTrip(Utf8.Encode(s).value);
    }
  }

  /**
   * The stored form of a well-formed string is four alphabet-or-`=` characters per started
   * group of three UTF-8 bytes.
   */
  lemma SafeBase64EncodeShape(s: JsString)
    requires WellFormed(s)
    ensures Utf8.Encode(s).Some?
    ensures |SafeBase64Encode(s)| == 4 * ((|Utf8.Encode(s).value| + 2) / 3)
    ensures forall i :: 0 <= i < |SafeBase64Encode(s)| ==>
      Base64.IsSymbol(SafeBase64Encode(s)[i]) || SafeBase64Encode(s)[i] == Base64.PadUnit
  {
    SafeBase64EncodeSpec(s);
    Base64.EncodeShape(Utf8.Encode(s).value);
  }

  /** The password an account is created with: `password-${name}`. */
  function InitialPassword(name: JsString): JsString
  {
    Js("password-") + name
  }

  /** The account `createFisherUser` builds: nickname = name, no tenants, devices or LINE users. */
  function NewAccount(id: JsString, name: JsString): (a: FisherUser)
  {
    FisherUser(id, name, name, SafeBase64Encode(InitialPassword(name)), [], DeviceList([]), None)
  }

  /** `getFisherUserById`: the stored account, or `null`. */
  method GetFisherUserById(store: MockStore, id: JsString) returns (r: Option<FisherUser>)
    requires store.Valid()
    ensures r.Some? <==> store.accounts.Has(id)
    ensures r.Some? ==> r.value.id == id && r.value == store.accounts.entries[id]
  {
    r := store.GetAccount(id);
  }

  /**
   * `createFisherUser`: stores and returns the new account under `id`, replacing any
   * account already stored there.
   */
  method CreateFisherUser(store: MockStore, id: JsString, name: JsString) returns (a: FisherUser)
    requires store.Valid()
    modifies store
    ensures store.Valid()
    ensures a.id == id && a.name == name && a.nickname == name
    ensures a.encryptedPassword == SafeBase64Encode(InitialPassword(name))
    ensures a.tenants == [] && a.devices == DeviceList([]) && a.lineUsers == None
    ensures store.accounts == old(store.accounts).Set(id, a)
    ensures store.accounts.Get(id) == Some(a)
    ensures forall k :: k != id ==> store.accounts.Get(k) == old(store.accounts).Get(k)
    ensures store.tenants == old(store.tenants) && store.links == old(store.links)
  {
    a := NewAccount(id, name);
    SetSemantics(store.accounts, id, a);
    store.StoreAccount(a);
  }

  /**
   * `updateFisherUserNickname`: on a stored account, changes only its nickname and
   * re-stores it in place; on an unknown id returns `null` and changes nothing.
   */
  method UpdateFisherUserNickname(store: MockStore, id: JsString, nickname: JsString) returns (r: Option<FisherUser>)
    requires store.Valid()
    modifies store
    ensures store.Valid()
    ensures r.Some? <==> old(store.accounts.Has(id))
    ensures r.None? ==> store.accounts == old(store.accounts)
    ensures r.Some? ==> r.value == old(store.accounts.entries[id]).(nickname := nickname)
    ensures r.Some? ==> store.accounts == old(store.accounts).Set(id, r.value)
    ensures r.Some? ==> store.accounts.keys == old(store.accounts.keys)
    ensures forall k :: k != id ==> store.accounts.Get(k) == old(store.accounts).Get(k)
    ensures store.tenants == old(store.tenants) && store.links == old(store.links)
  {
    var account := store.GetAccount(id);
    if account.None? {
      return None;
    }
    var updated := account.value.(nickname := nickname);
    SetSemantics(store.accounts, id, updated);
    store.StoreAccount(updated);
    r := Some(updated);
  }

  /**
   * `updateFisherUserPassword`: on a stored account, replaces only its stored password,
   * by `safeBase64Encode(password)`; on an unknown id returns `null` and changes nothing.
   */
  method UpdateFisherUserPassword(store: MockStore, id: JsString, password: JsString) returns (r: Option<FisherUser>)
    requires store.Valid()
    modifies store
    ensures store.Valid()
    ensures r.Some? <==> old(store.accounts.Has(id))
    ensures r.None? ==> store.accounts == old(store.accounts)
    ensures r.Some? ==> r.value == old(store.accounts.entries[id]).(encryptedPassword := SafeBase64Encode(password))
    ensures r.Some? ==> store.accounts == old(store.accounts).Set(id, r.value)
    ensures r.Some? ==> store.accounts.keys == old(store.accounts.keys)
    ensures forall k :: k != id ==> store.accounts.Get(k) == old(store.accounts).Get(k)
    ensures store.tenants == old(store.tenants) && store.links == old(store.links)
  {
    var account := store.GetAccount(id);
    if account.None? {
      return None;
    }
    var updated := account.value.(encryptedPassword := SafeBase64Encode(password));
    SetSemantics(store.accounts, id, updated);
    store.StoreAccount(updated);
    r := Some(updated);
  }
}
