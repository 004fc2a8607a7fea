# Mock backend of the fisher-user admin console

The admin console for tenants, such as fishing companies, and their fisher-user accounts
runs against an in-memory mock backend rather than the real GraphQL API. This project
models that backend and proves properties of it:

- **The shared store** (`src/lib/mockData.ts`): three JavaScript `Map`s of accounts,
  tenants and links between tenants, each keyed by the record's id.
  - Read and upsert operations, and deletion of links.
  - Two idempotent seeding routines. One inserts a catalogue of 100 tenants. The other
    links each of the first 50 tenants to the next one to four tenants, wrapping around.
- **The tenant service** (`useTenants.ts`):
  - the filtered, paginated tenant list with its decimal `nextToken` offsets;
  - lookups, tenant update and creation;
  - creating, toggling and deleting links;
  - the synthesized member list of a tenant, whose members are written into the
    account map.
- **The account service** (`useAccounts.ts`): lookup, creation, nickname and password
  updates, and `safeBase64Encode`, which is `btoa(unescape(encodeURIComponent(s)))` with a
  fallback to `s` when that throws.
- **The mock password decryption** (`useDecryptPassword.ts`): `atob` with fallbacks.
- **The statistics service** (`useStatistics.ts`): fixed dashboard figures, and per-tenant
  figures derived from the number in a `tenant-<digits>-` id.

Modelling choices:

- JavaScript strings are sequences of UTF-16 code units (`JsText.CodeUnit`,
  `JsText.JsString`).
- A `Map` is `OrderedMaps.OrderedMap`: a finite map together with its key insertion
  order. `set` on a present key keeps the key's place; `delete` removes the key from the
  order; `values()` follows the order.
- The store is the class `MockData.MockStore`. Its methods reassign its three map fields.
  The services are methods that take the store.
- The browser built-ins the services rely on are modelled from their standards:
  - `btoa`/`atob` as in section 4 of RFC 4648, with the WHATWG forgiving-base64 decoding
    rules;
  - `encodeURIComponent` and `unescape` as in sections 19.2.6.5 and B.2.1.2 of ECMA-262;
  - UTF-8 as in RFC 3629.
- `Date.now()` is a parameter `now`. Every `Math.random()` draw is a parameter:
  - the id suffixes;
  - the link counts;
  - the member count, device counts, IMEI numbers and LINE coin flips.

The services' `async`/`await` and `setTimeout` delays change no state, so each service is
one synchronous method.

## Model

| member | source | states |
|---|---|---|
| Entities.LinkId | src/composable/useTenants.ts:296 | a link id is `link-`, then the source id, `-`, then the target id, at fixed positions |
| Tenants.LinkIdInjective | src/composable/useTenants.ts:296 | for source ids of equal length, equal link ids mean the same ordered pair |
| Tenants.LinkIdAmbiguous | src/composable/useTenants.ts:296 | without that condition link ids can collide: the link from `a-b` to `c` and the link from `a` to `b-c` share an id |
| Entities.OrNow | src/composable/useTenants.ts:306-307 | the logical-or fallback yields the timestamp when it is present and non-zero, and `now` when it is absent or 0 |
| Entities.Snapshot | src/composable/useTenants.ts:302-309 | a link's copy of a tenant has the tenant's id, name and address, and timestamps that fall back to `now` |
| OrderedMaps.SetSemantics | src/lib/mockData.ts:17-19 | after `map.set(k, v)`, `k` gets `v` and every other key is unchanged; a present key keeps its position in the key order, a new key goes last |
| OrderedMaps.DeleteSemantics | src/lib/mockData.ts:124-126 | after `map.delete(k)`, `k` is absent, every other key is unchanged and the remaining key order is kept; size drops by one exactly when `k` was present; deleting an absent key changes nothing |
| OrderedMaps.SetPresentKeepsOrder | src/lib/mockData.ts:94-96 | re-storing a present id keeps the size and the position of every value; only that slot changes |
| OrderedMaps.SetPresentSplice | src/lib/mockData.ts:94-96 | re-storing the id at position p makes `values()` the old values with slot p replaced by the new value |
| OrderedMaps.SetAbsentAppends | src/lib/mockData.ts:94-96 | storing a new id appends its value to `values()` |
| OrderedMaps.KeyedValuesDistinct | src/lib/mockData.ts:87-89 | in a map keyed by record id, the listed values carry the keys' ids, all distinct |
| OrderedMaps.SetEachKeys | src/lib/mockData.ts:55-74 | a loop of `set` over values with pairwise-distinct ids lists the ids in loop order |
| OrderedMaps.SetEachValues | src/lib/mockData.ts:55-74 | such a loop leaves `values()` equal to the values in loop order |
| MockData.MockStore.constructor | src/lib/mockData.ts:12-39 | the store starts with three empty maps |
| MockData.MockStore.Loaded | src/lib/mockData.ts:177-178 | after loading, there are no accounts, the tenants are the seeded catalogue in order, and the links are the seeded links of that catalogue |
| MockData.MockStore.StoreAccount | src/lib/mockData.ts:17-19 | `storeMockAccount` upserts the account under its id and leaves the other maps unchanged |
| MockData.MockStore.GetAccount | src/lib/mockData.ts:24-26 | returns a value exactly when the id is stored, and then the stored account with that id |
| MockData.MockStore.GetAllAccounts | src/lib/mockData.ts:31-33 | returns one account per stored id, in insertion order, each the one stored under its id |
| MockData.MockStore.GetTenant | src/lib/mockData.ts:80-82 | returns a value exactly when the id is stored, and then the stored tenant with that id |
| MockData.MockStore.GetAllTenants | src/lib/mockData.ts:87-89 | returns one tenant per stored id, in insertion order, each the one stored under its id, with pairwise-distinct ids |
| MockData.MockStore.StoreTenant | src/lib/mockData.ts:94-96 | `storeMockTenant` upserts the tenant under its id and leaves the other maps unchanged |
| MockData.MockStore.GetLinkedTenants | src/lib/mockData.ts:101-105 | returns only stored links whose source is the tenant, and every such stored link |
| MockData.MockStore.LinkedTenantsInOrder | src/lib/mockData.ts:101-105 | those links appear at increasing positions of the stored link list, so insertion order is kept |
| MockData.MockStore.LinkedTenantsDistinct | src/lib/mockData.ts:101-105 | no link appears twice among a tenant's links |
| Seqs.FilterPositions | src/lib/mockData.ts:103 | `Array.prototype.filter` returns a subsequence: kept elements sit at increasing positions of the input |
| MockData.MockStore.GetLinkedTenant | src/lib/mockData.ts:110-112 | returns a value exactly when the link id is stored, and then that link |
| MockData.MockStore.StoreLinkedTenant | src/lib/mockData.ts:117-119 | `storeMockLinkedTenant` upserts the link under its id and leaves the other maps unchanged |
| MockData.MockStore.DeleteLinkedTenant | src/lib/mockData.ts:124-126 | returns whether the link was stored; the link map becomes the old one with that id deleted |
| MockData.MockStore.InitializeTenants | src/lib/mockData.ts:44-75 | on a non-empty tenant map nothing changes; on an empty one the tenants become the 100-tenant catalogue, in order |
| MockData.SeedTenantsIndex | src/lib/mockData.ts:55-73 | position k of the catalogue is tenant k + 1, built with the k-th random suffix |
| MockData.SeedTenantFields | src/lib/mockData.ts:56-69 | tenant i has the padded id, the (i mod 5)-th prefix followed by " i" from the second tenant on, and a creation time 100 − i days before `now` |
| MockData.SeedCreatedAtIncreasing | src/lib/mockData.ts:69 | a later seeded tenant was created strictly later |
| MockData.SeedTenantIdLayout | src/lib/mockData.ts:56-58 | a seeded id is `tenant-`, three digits of the index, `-`, then the suffix |
| MockData.SeedIdsDistinct | src/lib/mockData.ts:56-58 | seeded ids with different indices differ, whatever the random suffixes |
| MockData.SeedTenantsDistinct | src/lib/mockData.ts:55-58 | the hundred passes build tenants with pairwise-distinct ids, so no `set` overwrites an earlier one |
| MockData.SeededTenantValues | src/lib/mockData.ts:55-74 | the hundred `set` calls on an empty map leave exactly the catalogue, in order |
| MockData.MockStore.InitializeLinkedTenants | src/lib/mockData.ts:131-174 | on a non-empty link map nothing changes; on an empty one the links become the seeded links of the current tenant list |
| MockData.MockStore.SeedLinkAt | src/lib/mockData.ts:144-170 | one inner pass stores the link from tenant i to tenant (i + j + 1) mod n, unless the target is the tenant itself or the id is already stored |
| MockData.SeedLink | src/lib/mockData.ts:148-167 | the seeded link goes from tenant i to tenant (i + j + 1) mod n, has the composite id, is realtime exactly for even j, was created j days before `now` by `admin-user`, and carries the snapshot of the target taken at `now` |
| MockData.LinksAfterSound | src/lib/mockData.ts:137-171 | at every point of the nested loops, each stored link is the link of an offset already processed, and never a self-link |
| MockData.LinksAfterComplete | src/lib/mockData.ts:137-171 | at every point of the nested loops, every processed offset whose target is another tenant has its link id stored |
| MockData.SeedLinksShape | src/lib/mockData.ts:131-174 | after seeding, no link joins a tenant to itself, and each stored link is the link of a drawn offset of one of the first min(n, 50) tenants |
| MockData.SeedLinksComplete | src/lib/mockData.ts:131-174 | after seeding, every drawn offset whose target is another tenant has its link stored |
| MockData.SeedLinkAppliesWhenLarge | src/lib/mockData.ts:144-147 | with at least five tenants with distinct ids, none of the four possible offsets points back to the source tenant |
| Tenants.Limit | src/composable/useTenants.ts:76 | a positive limit is used as given; an absent or zero limit becomes 30 |
| Tenants.FilterTenantsSpec | src/composable/useTenants.ts:60-74 | the two filters are one filter by the combined condition (name contains the search text, ignoring case, and "test" is excluded when asked): tenants are kept in store order, exactly those that match |
| Tenants.FilterAfterUpdate | src/lib/mockData.ts:94-96 | updating the tenant at position p changes only that slot of the filtered list: the filtered tenants before and after it stay the same, in the same order |
| Tenants.PageAt | src/composable/useTenants.ts:76-82 | a page is `filtered[start..start + limit]` clipped to the list; `nextToken` is given exactly when tenants remain, and it reads back as start + limit |
| Tenants.QueryPageSpec | src/composable/useTenants.ts:47-84 | a page holds at most `limit` tenants, each from the snapshot and passing the filter; the next offset is given exactly when tenants remain after the page |
| Tenants.GetTenants | src/composable/useTenants.ts:47-84 | every tenant on the page is stored under its id and passes the filter; the page holds at most `limit` tenants |
| Tenants.NextTokenQuery | src/composable/useTenants.ts:47-84 | calling `getTenants` again with the returned `nextToken` and the other parameters unchanged gives the page at start + limit, which is the next page of the client walk |
| Tenants.FollowTokensWalk | src/composable/useTenants.ts:77-82 | following the `nextToken`s from an offset visits the pages at start, start + limit, and so on |
| Tenants.WalkFlatten | src/composable/useTenants.ts:77-82 | those pages, concatenated, are the rest of the list from the offset |
| Tenants.WalkCount | src/composable/useTenants.ts:77-82 | there are ceil(rest / limit) of those pages |
| Tenants.AllPages | src/composable/useTenants.ts:76-82 | from the first page, a client following `nextToken` sees the whole filtered list once, in order, in ceil(N / limit) pages, or one empty page when N = 0 |
| JsText.DigitsValueOfDecimal | src/composable/useTenants.ts:77-82 | `parseInt(String(n), 10) == n` |
| JsText.LowerUnit | src/composable/useTenants.ts:65 | lower-casing maps A–Z to a–z and leaves every other unit unchanged |
| JsText.LowerIdempotent | src/composable/useTenants.ts:65 | lower-casing twice is lower-casing once |
| JsText.IncludesEmpty | src/composable/useTenants.ts:63-66 | every string includes the empty search text |
| Tenants.GetTenantById | src/composable/useTenants.ts:136-144 | returns a value exactly when the tenant is stored, and then the stored tenant |
| Tenants.GetLinkedTenants | src/composable/useTenants.ts:173-182 | returns the store's list for the tenant: only stored links whose source is the tenant, and all of them, in insertion order without repeats |
| Tenants.UpdatedTenantKeeps | src/composable/useTenants.ts:214-219 | an update keeps the id and the creation time; restoring the old name, address and time undoes it |
| Tenants.UpdateTenant | src/composable/useTenants.ts:205-224 | a stored tenant gets the new name and address and `updatedAt = now`, in its old slot; an unknown id returns null and nothing changes |
| Tenants.CreateTenant | src/composable/useTenants.ts:246-261 | stores `tenant-new-<now>-<suffix>` with the given address or "" and both timestamps `now`; a new id is appended to the list |
| Tenants.CreateTenantLink | src/composable/useTenants.ts:284-314 | a stored target gives the link with the composite id and a copy of the target; an existing link with that id is replaced, so the size is unchanged; a missing target returns null and nothing changes |
| Tenants.ToggleRealtimeInvolution | src/composable/useTenants.ts:343-346 | the toggle flips `realtime` and nothing else; toggling twice restores the link |
| Tenants.ToggleLinkTwice | src/composable/useTenants.ts:339-348 | toggling the same link twice restores the whole link map, order included |
| Tenants.UpdateTenantLink | src/composable/useTenants.ts:332-352 | returns the flipped flag exactly when the link exists, with the link map toggled in place; otherwise returns null and nothing changes |
| Tenants.DeleteTenantLink | src/composable/useTenants.ts:370-378 | returns whether the link existed; afterwards it is absent and every other link is unchanged |
| Tenants.MemberIdsDistinct | src/composable/useTenants.ts:412 | member ids `user-<id>-NNN` for different k below 1000 differ |
| Tenants.MemberPassword | src/composable/useTenants.ts:419 | `btoa("password-k")` never throws, and it is the base64 of that text |
| Tenants.MembersShape | src/composable/useTenants.ts:408-440 | 5 to 19 members with distinct ids `user-<id>-NNN`, each in the tenant alone, with 1 to 3 devices of which the first is PRIMARY and every later one SECONDARY, and password `btoa("password-k")` |
| Tenants.StoreAllSpec | src/composable/useTenants.ts:442 | after storing accounts with pairwise-distinct ids one after another, each is stored as given and any other id keeps its account |
| Tenants.StoreMembers | src/composable/useTenants.ts:409-445 | the loop's account map equals the result of storing the members in order; the other maps are unchanged |
| Tenants.GetTenantWithMembers | src/composable/useTenants.ts:393-447 | unknown id: null, no members, nothing changes; otherwise the tenant and its synthesized members, each then stored under its id |
| JsText.ZeroPadValue | src/composable/useTenants.ts:412 | `String(n).padStart(w, "0")` reads back as n |
| JsText.ZeroPadInjective | src/composable/useTenants.ts:412 | zero-padded numbers are equal exactly when the numbers are |
| Accounts.SafeBase64EncodeSpec | src/composable/useAccounts.ts:31-40 | a string without lone surrogates is stored as the base64 of its UTF-8 bytes; a string with one makes `encodeURIComponent` throw and is stored as given |
| Accounts.SafeBase64EncodeShape | src/composable/useAccounts.ts:34 | the stored form of a well-formed string is 4 alphabet-or-`=` characters per started group of 3 UTF-8 bytes |
| Utf8.EncodeDefined | src/composable/useAccounts.ts:34 | a string has UTF-8 bytes exactly when it has no lone surrogate |
| Utf8.UnescapeEncodeUriComponent | src/composable/useAccounts.ts:34 | `unescape(encodeURIComponent(s))` throws exactly where UTF-8 encoding fails, and otherwise gives the UTF-8 bytes of `s`, one unit per byte |
| Utf8.EncodeAscii | src/composable/useAccounts.ts:34 | text below U+0080 is its own UTF-8 encoding |
| Utf8.DecodeOfEncode | src/composable/useAccounts.ts:34 | strict UTF-8 decoding of the bytes gives back the string (the inverse of the encoding step) |
| Base64.SymbolValueInverse | src/composable/useAccounts.ts:34 | the base64 alphabet and its values are inverse in both directions |
| Base64.EncodeShape | src/composable/useAccounts.ts:34 | the encoding has 4 characters per started group of 3 bytes, all from the alphabet except up to two `=` at the end |
| Base64.Btoa | src/composable/useAccounts.ts:34 | `btoa` succeeds exactly on binary strings, giving the base64 of their bytes |
| Base64.DecodeSextetsOfSextets | src/composable/useDecryptPassword.ts:23 | regrouping a byte sequence's six-bit groups into bytes gives the sequence back |
| Base64.AtobOfEncode | src/composable/useDecryptPassword.ts:23 | `atob` of a base64 encoding gives back the bytes |
| Base64.AtobOfBtoa | src/composable/useDecryptPassword.ts:23 | `atob(btoa(s)) == s` for every binary string |
| Base64.Atob | src/composable/useDecryptPassword.ts:23 | every unit `atob` produces is a byte |
| Accounts.GetFisherUserById | src/composable/useAccounts.ts:50-54 | returns a value exactly when the account is stored, and then the stored account |
| Accounts.CreateFisherUser | src/composable/useAccounts.ts:72-93 | stores and returns the account with nickname = name, no tenants, devices or LINE users, and password `safeBase64Encode("password-" + name)`; other accounts are unchanged |
| Accounts.UpdateFisherUserNickname | src/composable/useAccounts.ts:111-126 | a stored account changes only its nickname, in its old slot; an unknown id returns null and nothing changes |
| Accounts.UpdateFisherUserPassword | src/composable/useAccounts.ts:144-159 | a stored account changes only its password, to `safeBase64Encode(password)`, in its old slot; an unknown id returns null and nothing changes |
| DecryptPassword.Decrypt | src/composable/useDecryptPassword.ts:13-47 | "" gives ""; otherwise the `atob` decoding, or the placeholder `mock-password-123` when `atob` throws |
| DecryptPassword.DecryptOfEncode | src/composable/useDecryptPassword.ts:23-25 | decrypting a base64 encoding gives the encoded bytes as a binary string |
| DecryptPassword.DecryptMalformed | src/composable/useDecryptPassword.ts:43-47 | an input without whitespace whose length is 1 mod 4 decrypts to the placeholder |
| DecryptPassword.DecryptAsciiRoundTrip | src/composable/useDecryptPassword.ts:23 | an ASCII password stored by `safeBase64Encode` decrypts back to itself |
| DecryptPassword.DecryptWellFormed | src/composable/useDecryptPassword.ts:23 | any well-formed stored password decrypts to its UTF-8 bytes, one code unit each |
| DecryptPassword.DecryptNonAsciiMismatch | src/composable/useDecryptPassword.ts:23 | a character from U+0080 to U+07FF decrypts to two units, not to itself |
| DecryptPassword.DecryptUtf8RoundTrip | src/composable/useDecryptPassword.ts:23 | with a UTF-8 decoding step added, every well-formed password survives storing and decrypting |
| DecryptPassword.MemberPasswordDecrypts | src/composable/useTenants.ts:419 | a synthesized member's password decrypts to `password-k` |
| Statistics.GetDashboardStats | src/composable/useStatistics.ts:45-50 | always 45 tenants, 320 fisher users, 280 devices and 12 open accidents |
| Statistics.DigitRun | src/composable/useStatistics.ts:104 | the digit run at a position is all digits and is followed by a non-digit or the end |
| Statistics.MatchAtSpec | src/composable/useStatistics.ts:104 | the greedy reading matches `tenant-(\d+)-` at a position exactly when some digit group completes the pattern there, and it captures that group |
| Statistics.FirstMatch | src/composable/useStatistics.ts:104 | finds the leftmost match position, or none when the pattern matches nowhere |
| Statistics.TenantStatsSpec | src/composable/useStatistics.ts:105-111 | 8b + 15 users, floor(b / 2) open accidents and 3b + 10 accidents in total, so never more open accidents than accidents |
| Statistics.BaseCountWithoutMatch | src/composable/useStatistics.ts:105 | an id without a match falls back to base 5, giving 55 / 2 / 25 |
| Statistics.SeededTenantBase | src/composable/useStatistics.ts:104-105 | a seeded tenant `tenant-NNN-…` has base NNN, whatever its suffix |
| Statistics.CreatedTenantStats | src/composable/useStatistics.ts:104-111 | a tenant made by `createTenant` has no match, so its figures are 55 / 2 / 25 |

## Left out

- `async`/`await`, the `setTimeout` delays, the `isLoading` refs and the `console`
  logging change no modelled state. They are not modelled.
- The real GraphQL, AWS and KMS branches are commented out or behind the mock switch.
  They are not part of this model. This covers the KMS decryption in
  `useDecryptPassword.ts` and every API call in the services.
- `Date.now()` and `Math.random()` are parameters. The model does not constrain random
  suffixes beyond what each lemma requires; `DrawsOk` states the ranges the synthesis
  draws use.
- Tenants.GetTenants: the function's own ensures state only membership and the size
  bound. The `nextToken` facts are stated by Tenants.QueryPageSpec and Tenants.PageAt
  about the same page.
- Tenants.GetTenants: it requires `nextToken` to be a decimal numeral, as the service
  hands them out. `parseInt` on other text (`NaN`, prefixes, signs) is not modelled. A
  negative `limit` cannot be given, because limits are natural numbers.
- JsText.Lower: `toLowerCase` is modelled on ASCII letters only. The Unicode case
  mapping of other letters is not modelled (the seeded names are Japanese text with no
  case).
- Accounts.UpdateFisherUserNickname and Accounts.UpdateFisherUserPassword: the source
  mutates the fetched account object and re-stores it. The model replaces the stored
  record with an updated copy, so aliasing of that object is not modelled.
- Tenants.GetTenantWithMembers: the source stores each member inside the
  `Array.from` callback. The model builds the member list first and then stores it in
  the same order. The final account map and the returned list are the same.
- Tenants.CreateTenant: the random suffix is not assumed fresh. A colliding id would
  overwrite the stored tenant, and the contract states that case too.
- Entities.Snapshot: the `topicArn` text is built as in the source, but no property of
  it is stated.
- The `if (!tenant) continue` guard in `initializeMockLinkedTenants` is not modelled
  separately. The loop reads a snapshot of the tenant list, which holds no gaps.
- Tenants.MemberIdsDistinct: distinctness of member ids is proved for fewer than 1000
  members. At most 19 are drawn.
- Utf8.Decode: it is strict RFC 3629 decoding. It is used only by the corrected
  decryption below, because `TextDecoder` is not part of this model.

## Findings

| source | as written | input that shows it | evidently intended | confidence | as-written member | corrected member |
|---|---|---|---|---|---|---|
| src/composable/useDecryptPassword.ts:23 | `safeBase64Encode` stores the base64 of a password's UTF-8 bytes, so that Japanese text is supported. `decryptPassword` reads it back with `atob` alone, which gives one code unit per UTF-8 byte. | the password "é" (U+00E9) is stored as `w6k=` and decrypts to "Ã©" (U+00C3 U+00A9); the same happens for every character from U+0080 on | decrypt the bytes as UTF-8, so every stored password reads back as itself | not executed | DecryptPassword.DecryptNonAsciiMismatch | DecryptPassword.DecryptUtf8RoundTrip |
