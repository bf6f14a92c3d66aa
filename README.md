# Token service core, modelled in Dafny

This project models the core of a multi-tenant authentication service that
issues, checks and revokes bearer tokens. The model covers:

- **The ACL template language** (`acl.dfy`, module `Acl`). A token holds
  granted templates. A template grants a permission string when the anchored
  pattern compiled from it matches the string:
  - `*` matches a run of characters without a `.`;
  - `#` matches a run of characters without a newline;
  - every other character matches itself;
  - every `.me.` segment, found left to right without overlap, and a
    trailing `.me` accept either `me` or the token's `auth_id` (so
    `users.me.read` grants `users.<auth_id>.read`).

  The matcher is a recursive function over compiled atoms. It is proved
  equal to a reference definition: the string splits into one piece per
  atom, and each atom accepts its piece.
- **The token manager** (`tokens.dfy`, module `Tokens`):
  - the token value, its expiry test and its ACL check (a loop proved
    against the predicate `Grants`);
  - the token store (class `TokenStore`);
  - the `Manager` class: issue, look up, remove;
  - the expired-token sweep (class `ExpiredTokenRemover`).
- **Tenant tree resolution** (`tenant_tree.dfy`, module `TenantTree`). The
  node list of a tenant is the tenant plus everything parented under it. It
  is computed breadth first over the parent links of the flat tenant
  listing, in which the root is its own parent. The module proves:
  - the node list is the descendant closure, in both directions;
  - the four node lists the unit test asserts.
- **Token request validation** (`token_request.dfy`, module
  `TokenRequest`): the field rules and the two cross-field rules about
  `access_type`, `refresh_token` and `client_id`.
- **The legacy token service** (`legacy_token.dfy`, module `LegacyToken`):
  - the token and its dictionary form;
  - the one-key-per-field layout in the key/value store;
  - lookup and removal by key prefix;
  - the generated access rules.
- **The external-authentication tables** (`external_auth.dfy`, module
  `ExternalAuth`): known types with an enabled flag, user links and
  per-tenant configurations. Each operation has a fixed error precedence.

`wrappers.dfy` holds the shared `Option` and `Result` types.

Conventions of the model:
- The clock is an integer parameter `now`.
- Token ids of the wazo token store are naturals minted by the store.
- Authentication backends are pairs of functions (`get_metadata`,
  `get_acls`).
- Key/value and SQL stores are maps held in class fields.

## Model

| member | source | states |
|---|---|---|
| Acl.Escape | wazo_auth/token.py:87-88 | the escaped pattern has exactly one atom per character of the template |
| Acl.EscapeChars | wazo_auth/token.py:87-88 | in the escaped pattern each `*` of the template, and only a `*`, becomes a segment wildcard; each `#`, and only a `#`, a free wildcard; every other character a literal of itself; no `me` alternative yet |
| Acl.ReplaceInnerMe | wazo_auth/token.py:93 | the inner `.me.` rewriting never lengthens the pattern |
| Acl.ReplaceInnerMePlacesMe | wazo_auth/token.py:93 | on any pattern without alternatives (every escaped template), every `me` alternative the inner rewriting introduces carries the `auth_id` and stands between two dots |
| Acl.ReplaceTrailingMe | wazo_auth/token.py:94-95 | a final escaped `.me` becomes a dot and a `me`-or-`auth_id` alternative, the rest kept; any other pattern is left unchanged |
| Acl.ReplaceTrailingMePlacesMe | wazo_auth/token.py:94-95 | alternatives that stood between dots still follow a dot and precede a dot or the end, and the new one follows a dot and ends the pattern |
| Acl.Compile | wazo_auth/token.py:87-96 | the compiled pattern is never longer than the template |
| Acl.CompilePlacesMe | wazo_auth/token.py:87-96 | for every template, every `me` alternative of the compiled pattern carries the `auth_id`, follows a dot, and precedes a dot or ends the pattern, so none comes from a leading `me` or from a `me` inside a word; turning every alternative back into `me` gives the escaped template |
| Acl.RegexMatch | wazo_auth/token.py:83-90 | the anchored match: a whole-string match always counts, and a string with a final newline also counts when the rest matches; without a final newline only the whole-string match counts |
| Acl.AclMatches | wazo_auth/token.py:83-90 | for a permission without a final newline, a template grants it exactly when the compiled pattern matches the whole permission |
| Acl.MatchIffParse | wazo_auth/token.py:83-90 | a compiled pattern matches a string exactly when the string splits into one piece per atom, each accepted by its atom (both directions) |
| Acl.ParseMatches | wazo_auth/token.py:83-90 | a split into accepted pieces is always found by the matcher |
| Acl.MatchParses | wazo_auth/token.py:83-90 | whatever the matcher accepts has such a split |
| Acl.WildcardRun | wazo_auth/token.py:88 | a leading `*` or `#` consumes some prefix free of its barrier character (`.` or newline), and the rest of the pattern matches the remainder |
| Acl.StarIsOneSegment | wazo_auth/token.py:88 | the `*` atom on its own, before anchoring, matches exactly the strings without a `.` |
| Acl.HashIsAnything | wazo_auth/token.py:88 | the `#` atom on its own, before anchoring, matches exactly the strings without a newline |
| Acl.HashTemplateGrants | wazo_auth/token.py:83-90 | the template `#` grants exactly the strings without a newline, and such strings followed by one final newline |
| Acl.PlainPrefix | wazo_auth/token.py:88 | a template part without wildcards matches exactly itself as a prefix |
| Acl.PlainTemplate | wazo_auth/token.py:88 | the escaped form of a template without wildcards, before the `me` rewriting and anchoring, matches exactly the template text |
| Acl.CompileWithoutMe | wazo_auth/token.py:92-96 | a template without `.me.` segments and without a trailing `.me` compiles to its escaped form |
| Acl.PlainTemplateGrants | wazo_auth/token.py:83-96 | a template without wildcards, `.me.` segments or a trailing `.me` grants exactly itself, and itself followed by one final newline |
| Acl.MatchAppend | wazo_auth/token.py:83-90 | matching composes: a string matched by one pattern followed by a string matched by another is matched by the two patterns joined |
| Acl.ReplaceInnerMeKeepsTrailingMe | wazo_auth/token.py:93-94 | the inner `.me.` rewriting never consumes a final escaped `.me`, so the trailing rewriting always sees it |
| Acl.CompileTrailingMe | wazo_auth/token.py:92-96 | for every template ending in `.me`, the compiled pattern ends with a dot and a `me`-or-`auth_id` alternative, after the first part with only `me` segments rewritten |
| Acl.TrailingMeGrants | wazo_auth/token.py:92-96 | for every template ending in `.me`, whatever its first part grants with `me` read literally, followed by `.me` or by `.` and the `auth_id`, is granted |
| Acl.UnsubstituteAppend | wazo_auth/token.py:92-96 | undoing the `me` rewriting distributes over concatenation |
| Acl.UndoInnerMe | wazo_auth/token.py:93 | the inner `.me.` rewriting only turns literal `me` into `me`-or-id alternatives |
| Acl.UndoTrailingMe | wazo_auth/token.py:94-95 | so does the trailing `.me` rewriting |
| Acl.LiteralMeStillMatches | wazo_auth/token.py:93-95 | a rewritten `me` segment still accepts the literal `me` |
| Acl.LiteralMeAlwaysGranted | wazo_auth/token.py:77-96 | a permission the template matches when read literally is granted whatever the `auth_id` |
| Acl.NoInnerMe | wazo_auth/token.py:93 | a pattern without the `.me.` segment is left unchanged by the inner rewriting |
| Acl.CompileSingleTrailingMe | wazo_auth/token.py:92-96 | a template `w.me` with no `.me.` segment compiles to the escaped `w` followed by `.` and a `me`-or-id alternative |
| Acl.TrailingMeGrantsExactly | wazo_auth/token.py:83-96 | for every such template `w.me` without wildcards, and every `x` without a newline, `w.x` is granted exactly when `x` is `me` or the `auth_id` |
| Acl.LeadingMeIsLiteral | wazo_auth/token.py:92-96 | a leading `me.` is not rewritten: `me.a` grants only `me.a` |
| Acl.ReplaceInnerMeSkips | wazo_auth/token.py:93 | the scan copies a part free of `.me.` and rewrites the `.me.` after it into a dot, a `me`-or-`auth_id` alternative and a dot, then goes on with the rest |
| Acl.InnerMeRewritten | wazo_auth/token.py:93 | for every template `w1.me.w2` whose first `.me.` follows `w1`, the inner rewriting gives the escaped `w1`, that alternative between dots, and the rewritten `w2` |
| Acl.FirstInnerMe | wazo_auth/token.py:93 | every template holding a `.me.` splits at its first one; with `NoInnerMe` this covers every template |
| Acl.ReplaceInnerMeLength | wazo_auth/token.py:93 | the inner rewriting removes at most one atom in four, so a long enough rest keeps at least three atoms |
| Acl.CompileInnerMe | wazo_auth/token.py:92-96 | for every such `w1.me.w2` with `w2` not `me`, the compiled pattern is the escaped `w1`, a dot, a `me`-or-`auth_id` alternative, a dot, and the compiled `w2` |
| Acl.CompileTwoInnerMe | wazo_auth/token.py:92-96 | in `w1.me.w2.me.w3` both `.me.` segments are rewritten, the second after the first |
| Acl.InnerMeGrants | wazo_auth/token.py:83-96 | a `.me.` segment grants `.me.` and `.<auth_id>.` between whatever the parts around it grant |
| Acl.InnerMePlainGrants | wazo_auth/token.py:83-96 | a wildcard-free template `w1.me.w2` with one `.me.` segment grants both `w1.me.w2` and `w1.<auth_id>.w2`, e.g. `users.me.read` grants `users.<auth_id>.read` |
| Acl.CompileOverlappingMe | wazo_auth/token.py:92-96 | for any two characters `x` and `y`, in `x.me.me.y` only the first `me` is rewritten: the replacement runs left to right without overlap |
| Acl.OverlappingAroundMe | wazo_auth/token.py:92-96 | for non-wildcard `x` and `y`, the compiled `x.me.me.y` is the plain text `x.`, one alternative, and the plain text `.me.y` |
| Acl.PlainAroundMe | wazo_auth/token.py:93 | a `me` alternative between plain parts accepts exactly the two readings |
| Acl.NonOverlappingMeGrants | wazo_auth/token.py:83-96 | for any two non-wildcard characters `x` and `y`, `x.me.me.y` grants `x.<auth_id>.me.y` |
| Acl.NonOverlappingMeRefuses | wazo_auth/token.py:83-96 | for any two non-wildcard characters `x` and `y` (`y` not a newline) and an `auth_id` other than `me` and without a dot, `x.me.me.y` refuses `x.me.<auth_id>.y`, because the second `me` stays literal |
| Tokens.WithId | wazo_auth/token.py:175-176 | the token rebuilt from a stored record carries the record's id and exactly the record's fields |
| Tokens.MatchesRequiredAcl | wazo_auth/token.py:77-85 | the loop's answer is `Grants`: no requirement is always granted; an empty acl list grants nothing that is required; otherwise some template must match |
| Tokens.GrantsIgnoresOrder | wazo_auth/token.py:81-85 | the order of the granted templates does not change the answer |
| Tokens.GrantsGrows | wazo_auth/token.py:81-85 | granting more templates never withdraws a permission |
| Tokens.IsExpired | wazo_auth/token.py:74-75 | an absent or zero expiry never expires; any other expiry is passed when `now` is strictly later |
| Tokens.ExpiryIsPermanent | wazo_auth/token.py:74-75 | once expired, a token stays expired |
| Tokens.Grants | wazo_auth/token.py:77-85 | no requirement is always granted; an empty acl list grants no requirement; any one granted template that matches the requirement grants it |
| Tokens.TokenStore.Create | wazo_auth/token.py:155 | the record is stored under an id not used before, and nothing else changes |
| Tokens.TokenStore.Delete | wazo_auth/token.py:167-168 | exactly that id is removed; an unknown id is not an error |
| Tokens.TokenStore.DeleteExpired | wazo_auth/token.py:112 | exactly the records expired at `now` are removed |
| Tokens.TenantList | wazo_auth/token.py:160-165 | no tenants without a non-empty tenant uuid; a listed tenant is among its own tenants; every tenant is a listed one |
| Tokens.TenantListIsSubtree | wazo_auth/token.py:160-165 | a token's tenants are empty without a tenant uuid; otherwise they are the tenant and exactly the tenants below it |
| Tokens.FindPolicy | wazo_auth/token.py:191-193 | the first policy with the given name, and `None` exactly when no policy has that name |
| Tokens.AclTemplates | wazo_auth/token.py:186-196 | no templates for an unmapped backend or an empty policy name; otherwise the templates of the first policy with the configured name, or none when no policy has that name |
| Tokens.Lookup | wazo_auth/token.py:170-184 | absent or expired gives `UnknownToken`; otherwise a required permission no template grants gives `MissingAcl`, naming that permission; otherwise the stored token, with its id and record, unexpired and granting the requirement |
| Tokens.Manager.Get | wazo_auth/token.py:170-184 | the method returns exactly that decision over the store's records |
| Tokens.StoredTokenIsFound | wazo_auth/token.py:170-184 | a stored token is read back unchanged while it is unexpired and grants the requirement |
| Tokens.RemovedTokenIsUnknown | wazo_auth/token.py:167-173 | a removed token is unknown; every other token is looked up as before |
| Tokens.SweepIsInvisible | wazo_auth/token.py:178-179 | sweeping expired tokens changes no lookup made at the same time |
| Tokens.SweepRemovesExactlyExpired | wazo_auth/token.py:112 | a sweep keeps exactly the unexpired tokens, unchanged; a second sweep at the same time removes nothing more |
| Tokens.IssuedTokenLifetime | wazo_auth/token.py:143-153 | a token whose expiry time (issue time plus lifetime) is not 0 is found up to its expiry time, inclusive, and unknown afterwards |
| Tokens.Manager.NewToken | wazo_auth/token.py:130-158 | the new record has a fresh id and the backend's identity fields. Its tenants come from the tenant tree. Its expiry is `now` plus the given or default expiration. Its acls are the backend's answer, or `[]`. |
| Tokens.Manager.RemoveToken | wazo_auth/token.py:167-168 | the token's record, and only it, is removed |
| Tokens.ExpiredTokenRemover.Cleanup | wazo_auth/token.py:110-114 | a successful sweep removes exactly the expired records; a failing store changes nothing and no failure propagates (see "## Left out" for the all-or-nothing assumption) |
| TenantTree.ParentMap | wazo_auth/services/tests/test_helpers.py:21-55 | at most one entry per row, and the last row's uuid maps to that row's parent |
| TenantTree.ParentMapKeys | wazo_auth/services/tests/test_helpers.py:21-55 | the parent map has an entry for every listed uuid and only those |
| TenantTree.ParentMapFromLastRow | wazo_auth/services/tests/test_helpers.py:21-55 | each entry of the parent map is the parent given by the last row listing that uuid |
| TenantTree.ClosureSound | wazo_auth/services/tests/test_helpers.py:57-77 | the breadth-first closure only reaches listed descendants of the root |
| TenantTree.ClosureClosed | wazo_auth/services/tests/test_helpers.py:57-77 | the closure keeps what it has seen and is closed under taking children |
| TenantTree.ListNodesIsDescendantClosure | wazo_auth/services/tests/test_helpers.py:57-77 | a uuid is in `list_nodes(root)` exactly when the root and the uuid are listed and walking up parent links from the uuid reaches the root |
| TenantTree.ListNodes | wazo_auth/services/tests/test_helpers.py:57-77 | a tenant is in its own node list exactly when it is listed, and every node is a listed tenant |
| TenantTree.DescendsIffInAncestry | wazo_auth/services/tests/test_helpers.py:57-77 | once a bounded walk up the parent links from a node is closed, it holds exactly the node's ancestors, which is how membership in `list_nodes` is decided |
| TenantTree.FixtureParentMap | wazo_auth/services/tests/test_helpers.py:28-50 | the test's listing gives the parent links of the drawn tree, the root being its own parent |
| TenantTree.LeafListsItself | wazo_auth/services/tests/test_helpers.py:58-59 | `list_nodes(f)` is exactly `{f}` |
| TenantTree.NodeListsItsChild | wazo_auth/services/tests/test_helpers.py:61-62 | `list_nodes(e)` is exactly `{e, f}` |
| TenantTree.RootListsEveryTenant | wazo_auth/services/tests/test_helpers.py:64-65 | `list_nodes(top)` is every tenant, once, despite the root's self-link |
| TenantTree.InnerNodeListsSubtree | wazo_auth/services/tests/test_helpers.py:67-77 | `list_nodes(a)` is exactly `{a, b, c, d, g}`: neither siblings nor the parent |
| TokenRequest.Load | wazo_auth/plugins/http/tokens/schemas.py:9-44 | a body is accepted exactly when every field rule and cross-field rule holds. A refusal names a rule the body breaks. An accepted body keeps its fields, with the backend defaulting to `wazo_user`. |
| TokenRequest.RejectedIffSomeRuleBroken | wazo_auth/plugins/http/tokens/schemas.py:9-44 | a body is refused exactly when it breaks some rule |
| TokenRequest.NonPositiveExpirationRejected | wazo_auth/plugins/http/tokens/schemas.py:11 | an expiration below 1 is refused |
| TokenRequest.CheckAccessTypeUsage | wazo_auth/plugins/http/tokens/schemas.py:16-32 | passes exactly when the request is not `offline`, or has a client id and no refresh token; a refusal names a rule the body breaks |
| TokenRequest.CheckRefreshTokenUsage | wazo_auth/plugins/http/tokens/schemas.py:34-44 | passes exactly when there is no refresh token or there is a client id; otherwise refuses with the refresh-token rule, which the body breaks |
| TokenRequest.OnlineWithoutRefreshTokenSkipsCrossChecks | wazo_auth/plugins/http/tokens/schemas.py:18-38 | without `offline` and without a refresh token, neither cross-field rule applies |
| TokenRequest.EmptyRefreshTokenIsAbsent | wazo_auth/plugins/http/tokens/schemas.py:22-38 | an empty refresh token is treated as an absent one |
| TokenRequest.OfflineNeedsClientIdAndNoRefreshToken | wazo_auth/plugins/http/tokens/schemas.py:16-32 | an accepted offline request has a client id and no refresh token |
| LegacyToken.ToDict | xivo_auth/token.py:32-33 | the dictionary has exactly the four field names, the two identifiers as strings and the two times as timestamps |
| LegacyToken.FromDict | xivo_auth/token.py:38-40 | a dictionary reads as a token exactly when it holds the four fields with the right kinds; a missing field is reported by name |
| LegacyToken.FromDictInvertsToDict | xivo_auth/token.py:32-40 | `from_dict(to_dict(t))` is `t` |
| LegacyToken.ToDictInvertsFromDict | xivo_auth/token.py:32-40 | a dictionary that reads as a token holds that token's four fields |
| LegacyToken.EffectiveExpiration | xivo_auth/token.py:57 | the default lifetime is used whenever the expiration is absent or zero; otherwise the given one |
| LegacyToken.IssuedTokenExpiry | xivo_auth/token.py:35-36 | a token issued now with a non-negative lifetime is not expired now, and is expired exactly after now plus that lifetime |
| LegacyToken.KeyInjective | xivo_auth/token.py:83-85 | one token's keys are told apart by their field names |
| LegacyToken.KeysOfOtherToken | xivo_auth/token.py:69-86 | keys of two tokens of the same length never collide, and neither token's prefix covers the other's keys |
| LegacyToken.WrittenIsOneKeyPerField | xivo_auth/token.py:81-86 | a push writes exactly four keys, `xivo/xivo-auth/tokens/<token>/<field>`, each holding that field's value |
| LegacyToken.LegacyManager.PushTokenData | xivo_auth/token.py:81-86 | the loop writes those keys over the old store, and nothing else |
| LegacyToken.RemoveUnder | xivo_auth/token.py:69-71 | removal deletes exactly the keys under the token's prefix and keeps every other entry |
| LegacyToken.Lookup | xivo_auth/token.py:73-79 | `LookupError` exactly when nothing is stored under the token's prefix; a token read back has each of its four fields stored under `<prefix>/<field>` |
| LegacyToken.LookupAfterPush | xivo_auth/token.py:73-86 | after a push, `get` returns the pushed token whatever was stored before |
| LegacyToken.LookupAfterRemove | xivo_auth/token.py:69-79 | after removal `get` raises `LookupError`; removing an unknown token changes nothing |
| LegacyToken.RemoveKeepsOtherTokens | xivo_auth/token.py:69-79 | removing one token leaves another token of the same length readable as before |
| LegacyToken.AclRules | xivo_auth/token.py:94-97 | exactly two rules: the empty prefix, denied, and `xivo/private/<uuid>`, the only writable prefix |
| LegacyToken.AclRulesConfineWrites | xivo_auth/token.py:92-97 | under longest-prefix resolution, the generated rules allow writes exactly below `xivo/private/<uuid>` and deny everything else |
| LegacyToken.LegacyManager.NewToken | xivo_auth/token.py:53-62 | the token is issued now, with the effective lifetime, its fields are pushed, and it reads back |
| LegacyToken.LegacyManager.RemoveExpiredToken | xivo_auth/token.py:69-71 | the token's keys are deleted and it is no longer found |
| LegacyToken.LegacyManager.RemoveToken | xivo_auth/token.py:64-67 | removal of the stored token, as `remove_expired_token` |
| ExternalAuth.ExternalAuthDao.FindType | wazo_auth/database/queries/external_auth.py:235-241 | a known type is found; an unknown one is `UnknownType` |
| ExternalAuth.ExternalAuthDao.FindOrCreateType | wazo_auth/database/queries/external_auth.py:243-249 | an unknown type is added, disabled; nothing else changes |
| ExternalAuth.ExternalAuthDao.Create | wazo_auth/database/queries/external_auth.py:39-65 | the type is found or created and stays. Then an existing link gives `AlreadyExists`, and an unknown user gives `UnknownUser`. Otherwise the link is stored with the data. The foreign keys are kept. |
| ExternalAuth.ExternalAuthDao.Get | wazo_auth/database/queries/external_auth.py:140-160 | the linked data; else unknown type, then unknown user, then missing link |
| ExternalAuth.ExternalAuthDao.Delete | wazo_auth/database/queries/external_auth.py:91-104 | unknown type first; else the link is removed if present; else unknown user, then missing link |
| ExternalAuth.ExternalAuthDao.Update | wazo_auth/database/queries/external_auth.py:216-218 | an existing link is replaced by the new data; otherwise `delete`'s error is reported and nothing changes |
| ExternalAuth.ExternalAuthDao.CreateConfig | wazo_auth/database/queries/external_auth.py:67-89 | an unknown tenant is refused with no trace. Otherwise the type is found or created and stays, and an existing configuration is refused. A new configuration is stored. |
| ExternalAuth.ExternalAuthDao.GetConfig | wazo_auth/database/queries/external_auth.py:162-183 | an unknown type is `ConfigNotFound`; a missing configuration is `UnknownConfig`; else the stored data |
| ExternalAuth.ExternalAuthDao.DeleteConfig | wazo_auth/database/queries/external_auth.py:106-117 | unknown type first; else the configuration is removed if present, else `UnknownConfig` |
| ExternalAuth.ExternalAuthDao.UpdateConfig | wazo_auth/database/queries/external_auth.py:220-222 | an existing configuration is replaced; otherwise `delete_config`'s error and no change |
| ExternalAuth.ExternalAuthDao.EnableAll | wazo_auth/database/queries/external_auth.py:119-138 | the known types become the old ones plus the given ones, each enabled exactly when given, and none removed. The flag is rewritten only on types whose flag differed. |
| ExternalAuth.ExternalAuthDao.List | wazo_auth/database/queries/external_auth.py:185-214 | one row per known type, no type twice; a row is enabled with the user's data exactly when the user is linked to that type, otherwise disabled with empty data |
| ExternalAuth.DisabledRows | wazo_auth/database/queries/external_auth.py:196-198 | one disabled, empty row per type name, no name twice |
| ExternalAuth.MarkLinked | wazo_auth/database/queries/external_auth.py:200-212 | the row of every type the user is linked to becomes enabled with the link's data; every other row is unchanged |
| ExternalAuth.FillRows | wazo_auth/database/queries/external_auth.py:208-212 | every row of the linked type becomes enabled with the data; the other rows are unchanged |

## Left out

- Clock and time formatting: `time.time()` and the legacy `now()`/`later()` helpers become an integer `now` (seconds), with `later(e)` read as `now + e`. Float timestamps and the ISO renderings of `to_dict` are not modelled.
- `auth_id` is assumed free of regular-expression metacharacters (it is spliced into the pattern unescaped); the model treats it as literal text.
- Python's `re` engine is not modelled; the matcher covers only the patterns that templates compile to, including `$` matching before a final newline and `.` refusing a newline.
- Background scheduling (`ExpiredTokenRemover.run`, `_reschedule`, the `Timer` thread) is concurrency; only one `_cleanup` step is modelled. The store's `delete_expired_tokens` is not part of this model and is assumed to remove what `is_expired` calls expired.
- Tokens.Manager.NewToken: the in-place updates of the caller's `args` and `metadata` dictionaries are not modelled. The backend receives them as a value, and the extra metadata keys a backend may return are dropped. Backends that raise, or that omit `auth_id` or `xivo_uuid`, are not modelled.
- The tenant list of a token is a set; the order in which the tenant tree lists nodes is not modelled. The tenant tree implementation is not part of this model; it is modelled from its unit test as a breadth-first closure, with an unknown root giving no nodes.
- Tokens.ExpiredTokenRemover.Cleanup: a failing `delete_expired_tokens` is assumed to fail all or nothing. The store is not part of this model, so a failure that deletes some of the expired records before raising is not modelled.
- `DEFAULT_XIVO_UUID` is read from the environment and is not modelled.
- Token ids of the wazo token store are minted by the store (a counter) instead of random uuids.
- Legacy Consul ACL creation and destruction, the Celery clean-up task, its revocation and the sha256 task id have no effect on the key/value layout and are left out. The token id that ACL creation returns is a parameter of `LegacyManager.NewToken`.
- `values_to_dict` is not part of this model. `Lookup` reads a token's fields from the keys `<prefix>/<field>`. A stored value of the wrong kind is reported as `BadField`, where Python would carry it across unchecked.
- LegacyToken.RemoveKeepsOtherTokens: stated only for tokens of equal length. Lookups and removals use the token prefix without a trailing slash, so a token that is a strict prefix of another reaches the other's keys. Consul tokens are uuids of one length, so this does not arise there.
- TokenRequest.Load: marshmallow gathers every failing field and schema rule into one error. The model reports a single broken rule, the first in declaration order. Values of the wrong JSON type, and explicit `null`s, are not modelled.
- `create_config` returns the JSON text of the data rather than the data; with JSON treated as identity the model returns the data.
- SQLAlchemy specifics are not modelled: sessions, commit and rollback, integrity-error code parsing, search and strict filters, pagination and `count`. Data rows orphaned by a failed `create` are not modelled either. A failing `create_config` tenant check is modelled as leaving no trace (the session rolls back), and a duplicate configuration as keeping the created type.
- ExternalAuth.ExternalAuthDao.List: the `ExternalAuthType.enabled is True` filter (external_auth.py:186) is not modelled; the model lists a row for every known type. The same applies to `count` (line 27), which is not modelled.
- The column default of a newly created external-auth type is taken to be disabled; the model file of the tables is not part of this model.
- ExternalAuth.ExternalAuthDao.EnableAll: the types are given as a set; a list repeating a new type would insert it twice in the source.
