/**
 * The token lifecycle of wazo_auth/token.py: the `Token` value, its expiry
 * test and ACL check, the token `Manager` (issue, look up, remove) over a
 * token store, and the expired-token sweep.
 *
 * The clock is a parameter `now` (whole seconds).  The token store is the
 * class `TokenStore`, a map from token id to record that mints fresh ids.
 * Authentication backends are pairs of functions; the policy table and the
 * tenant listing are values the manager holds.
 */
module Tokens {
  import opened Wrappers
  import Acl
  import TenantTree

  type TokenId = nat

  /** The metadata a backend returns for a login, plus the `tenants` entry the
      manager fills in. */
  datatype Metadata = Metadata(
    authId: string,
    xivoUserUuid: Option<string>,
    xivoUuid: string,
    tenantUuid: Option<string>,
    tenants: set<TenantTree.Uuid>)

  /** A stored token record (the store's row without its id). */
  datatype Payload = Payload(
    authId: string,
    xivoUserUuid: Option<string>,
    xivoUuid: string,
    issuedT: int,
    expireT: Option<int>,
    acls: seq<string>,
    metadata: Metadata)

  /** A token; two tokens are equal exactly when all eight fields are. */
  datatype Token = Token(
    token: TokenId,
    authId: string,
    xivoUserUuid: Option<string>,
    xivoUuid: string,
    issuedT: int,
    expireT: Option<int>,
    acls: seq<string>,
    metadata: Metadata)
  {
    /** The record this token is stored as. */
    function Record(): Payload {
      Payload(authId, xivoUserUuid, xivoUuid, issuedT, expireT, acls, metadata)
    }
  }

  /** The token rebuilt from a stored record and its id. */
  function WithId(id: TokenId, p: Payload): (t: Token)
    ensures t.token == id && t.Record() == p
  {
    Token(id, p.authId, p.xivoUserUuid, p.xivoUuid, p.issuedT, p.expireT, p.acls, p.metadata)
  }

  /** The request arguments of a login. */
  datatype Args = Args(backend: string, expiration: Option<int>)

  /** What a backend's `get_acls` receives: the request arguments completed
      with the policy's ACL templates and the login's metadata. */
  datatype AclArgs = AclArgs(args: Args, aclTemplates: seq<string>, metadata: Metadata)

  /** An authentication backend: metadata for a login, and the ACLs it grants
      (`None` when it returns nothing). */
  datatype Backend = Backend(
    getMetadata: (string, Args) -> Metadata,
    getAcls: (string, AclArgs) -> Option<seq<string>>)

  datatype Policy = Policy(name: string, aclTemplates: seq<string>)

  datatype TokenError = UnknownToken | MissingAcl(requiredAcl: string)

  // ---------------------------------------------------------------------------
  // Token

  /** `Token.is_expired`: an unset or zero expiry never expires; otherwise the
      token expires strictly after its expiry time. */
  predicate IsExpired(expireT: Option<int>, now: int): (r: bool)
    ensures expireT.None? || expireT == Some(0) ==> !r
    ensures expireT.Some? && expireT.value != 0 ==> (r <==> now > expireT.value)
  {
    expireT.Some? && expireT.value != 0 && now > expireT.value
  }

  /** Once expired, a token stays expired. */
  lemma ExpiryIsPermanent(expireT: Option<int>, now: int, later: int)
    requires IsExpired(expireT, now) && now <= later
    ensures IsExpired(expireT, later)
  {
  }

  /** Some granted template matches the required permission; no requirement
      is always satisfied. */
  predicate Grants(acls: seq<string>, authId: string, required: Option<string>): (r: bool)
    ensures required.None? ==> r
    ensures acls == [] ==> (r <==> required.None?)
    ensures forall i :: 0 <= i < |acls| && required.Some? && Acl.AclMatches(acls[i], authId, required.value) ==> r
  {
    required.None? || exists i :: 0 <= i < |acls| && Acl.AclMatches(acls[i], authId, required.value)
  }

  /** `Token.matches_required_acl`: tries the granted templates in order and
      stops at the first that matches. */
  method MatchesRequiredAcl(acls: seq<string>, authId: string, required: Option<string>) returns (b: bool)
    ensures b == Grants(acls, authId, required)
    ensures required.None? ==> b
    ensures acls == [] ==> b == required.None?
  {
    if required.None? {
      return true;
    }
    var i := 0;
    while i < |acls|
      invariant 0 <= i <= |acls|
      invariant forall j :: 0 <= j < i ==> !Acl.AclMatches(acls[j], authId, required.value)
    {
      if Acl.AclMatches(acls[i], authId, required.value) {
        return true;
      }
      i := i + 1;
    }
    return false;
  }

  /** The order of the granted templates does not matter, only which are granted. */
  lemma {:induction false} GrantsIgnoresOrder(acls: seq<string>, others: seq<string>, authId: string, required: Option<string>)
    requires multiset(acls) == multiset(others)
    ensures Grants(acls, authId, required) == Grants(others, authId, required)
  {
    if required.Some? {
      forall a, b | multiset(a) == multiset(b) && Grants(a, authId, required)
        ensures Grants(b, authId, required)
      {
        var i :| 0 <= i < |a| && Acl.AclMatches(a[i], authId, required.value);
        assert a[i] in multiset(b);
        var j :| 0 <= j < |b| && b[j] == a[i];
      }
    }
  }

  /** Granting more templates never withdraws a permission. */
  lemma GrantsGrows(acls: seq<string>, more: seq<string>, authId: string, required: Option<string>)
    requires Grants(acls, authId, required)
    ensures Grants(acls + more, authId, required)
  {
    if required.Some? {
      var i :| 0 <= i < |acls| && Acl.AclMatches(acls[i], authId, required.value);
      assert (acls + more)[i] == acls[i];
    }
  }

  // ---------------------------------------------------------------------------
  // Token store

  /** The token table: records by id, and the next id to mint. */
  class TokenStore {
    var records: map<TokenId, Payload>
    var nextId: TokenId

    ghost predicate Valid()
      reads this
    {
      forall id :: id in records ==> id < nextId
    }

    constructor ()
      ensures Valid() && records == map[]
    {
      records := map[];
      nextId := 0;
    }

    /** Stores a record under a fresh id. */
    method Create(p: Payload) returns (id: TokenId)
      requires Valid()
      modifies this
      ensures Valid()
      ensures id !in old(records)
      ensures records == old(records)[id := p]
    {
      id := nextId;
      records := records[id := p];
      nextId := nextId + 1;
    }

    /** Deletes a record; deleting an unknown id is not an error. */
    method Delete(id: TokenId)
      requires Valid()
      modifies this
      ensures Valid()
      ensures records == old(records) - {id}
    {
      records := records - {id};
    }

    /** Deletes every record expired at `now`. */
    method DeleteExpired(now: int)
      requires Valid()
      modifies this
      ensures Valid()
      ensures records == Unexpired(old(records), now)
    {
      records := Unexpired(records, now);
    }
  }

  /** The records still valid at `now`. */
  function Unexpired(records: map<TokenId, Payload>, now: int): map<TokenId, Payload> {
    map id | id in records && !IsExpired(records[id].expireT, now) :: records[id]
  }

  // ---------------------------------------------------------------------------
  // Manager

  /** The `tenants` entry of a token: no tenants without a (non-empty) tenant
      uuid, else every node the tenant tree lists under it. */
  function TenantList(listing: seq<TenantTree.Tenant>, tenantUuid: Option<string>): (r: set<TenantTree.Uuid>)
    ensures tenantUuid.None? || tenantUuid.value == "" ==> r == {}
    ensures tenantUuid.Some? && tenantUuid.value != "" && tenantUuid.value in TenantTree.ParentMap(listing) ==>
              tenantUuid.value in r
    ensures r <= TenantTree.ParentMap(listing).Keys
  {
    if tenantUuid.None? || tenantUuid.value == "" then {}
    else TenantTree.ListNodes(listing, tenantUuid.value)
  }

  /** A token is scoped to its tenant and to exactly the tenants below it. */
  lemma TenantListIsSubtree(listing: seq<TenantTree.Tenant>, tenantUuid: Option<string>, y: TenantTree.Uuid)
    ensures y in TenantList(listing, tenantUuid) <==>
              tenantUuid.Some? && tenantUuid.value != "" &&
              var parents := TenantTree.ParentMap(listing);
              tenantUuid.value in parents && y in parents &&
              TenantTree.Descends(parents, y, tenantUuid.value)
  {
    if tenantUuid.Some? && tenantUuid.value != "" {
      TenantTree.ListNodesIsDescendantClosure(listing, tenantUuid.value, y);
    }
  }

  /** The first policy with the given name. */
  function FindPolicy(policies: seq<Policy>, name: string): (r: Option<Policy>)
    ensures r.None? <==> forall p :: p in policies ==> p.name != name
    ensures r.Some? ==> exists i :: 0 <= i < |policies| && policies[i] == r.value && r.value.name == name &&
                          forall j :: 0 <= j < i ==> policies[j].name != name
  {
    if policies == [] then None
    else if policies[0].name == name then Some(policies[0])
    else
      var r := FindPolicy(policies[1..], name);
      assert r.Some? ==> exists i :: 1 <= i < |policies| && policies[i] == r.value &&
                           forall j :: 0 <= j < i ==> policies[j].name != name by {
        if r.Some? {
          var i :| 0 <= i < |policies[1..]| && policies[1..][i] == r.value &&
                   forall j :: 0 <= j < i ==> policies[1..][j].name != name;
          assert policies[i + 1] == r.value;
          assert forall j :: 1 <= j < i + 1 ==> policies[j] == policies[1..][j - 1];
        }
      }
      r
  }

  /** `Manager._get_acl_templates`: the templates of the policy configured for
      the backend, or none when the backend has no (non-empty) policy name or
      no such policy exists. */
  function AclTemplates(backendPolicies: map<string, string>, policies: seq<Policy>, backendName: string): (r: seq<string>)
    ensures backendName !in backendPolicies || backendPolicies[backendName] == "" ==> r == []
    ensures backendName in backendPolicies && backendPolicies[backendName] != "" ==>
              forall i :: 0 <= i < |policies| && policies[i].name == backendPolicies[backendName] &&
                          (forall j :: 0 <= j < i ==> policies[j].name != backendPolicies[backendName]) ==>
                            r == policies[i].aclTemplates
    ensures backendName in backendPolicies && (forall p :: p in policies ==> p.name != backendPolicies[backendName]) ==>
              r == []
  {
    if backendName !in backendPolicies || backendPolicies[backendName] == "" then []
    else
      match FindPolicy(policies, backendPolicies[backendName])
      case None => []
      case Some(p) => p.aclTemplates
  }

  /** `Manager.get` as a function of the store's records. */
  function Lookup(records: map<TokenId, Payload>, id: TokenId, required: Option<string>, now: int): (r: Result<Token, TokenError>)
    ensures r == Err(UnknownToken) <==> id !in records || IsExpired(records[id].expireT, now)
    ensures r.Err? && r.error.MissingAcl? <==>
              id in records && !IsExpired(records[id].expireT, now) &&
              required.Some? && !Grants(records[id].acls, records[id].authId, required)
    ensures r.Err? && r.error.MissingAcl? ==> r.error == MissingAcl(required.value)
    ensures r.Ok? ==> r.value.token == id && r.value.Record() == records[id] && !IsExpired(r.value.expireT, now) &&
                      Grants(r.value.acls, r.value.authId, required)
  {
    if id !in records || IsExpired(records[id].expireT, now) then Err(UnknownToken)
    else if !Grants(records[id].acls, records[id].authId, required) then Err(MissingAcl(required.value))
    else Ok(WithId(id, records[id]))
  }

  /** A just-stored token is found, with the fields it was stored with, as long
      as it has not expired and it grants the requirement. */
  lemma StoredTokenIsFound(records: map<TokenId, Payload>, id: TokenId, p: Payload, required: Option<string>, now: int)
    requires !IsExpired(p.expireT, now) && Grants(p.acls, p.authId, required)
    ensures Lookup(records[id := p], id, required, now) == Ok(WithId(id, p))
  {
  }

  /** After removal a token is unknown, and every other token is looked up
      as before. */
  lemma RemovedTokenIsUnknown(records: map<TokenId, Payload>, id: TokenId, other: TokenId, required: Option<string>, now: int)
    ensures Lookup(records - {id}, id, required, now) == Err(UnknownToken)
    ensures other != id ==> Lookup(records - {id}, other, required, now) == Lookup(records, other, required, now)
  {
  }

  /** Sweeping the expired tokens changes no lookup made at the same time,
      since an expired token already looks unknown. */
  lemma SweepIsInvisible(records: map<TokenId, Payload>, now: int, id: TokenId, required: Option<string>)
    ensures Lookup(Unexpired(records, now), id, required, now) == Lookup(records, id, required, now)
  {
  }

  /** A sweep leaves no expired token, keeps every other one, and a second
      sweep at the same time removes nothing more. */
  lemma SweepRemovesExactlyExpired(records: map<TokenId, Payload>, now: int)
    ensures forall id :: id in Unexpired(records, now) <==> id in records && !IsExpired(records[id].expireT, now)
    ensures forall id :: id in Unexpired(records, now) ==> Unexpired(records, now)[id] == records[id]
    ensures Unexpired(Unexpired(records, now), now) == Unexpired(records, now)
  {
  }

  /** The token manager. */
  class Manager {
    const backendPolicies: map<string, string>
    const defaultExpiration: int
    const store: TokenStore
    /** The tenant listing the tenant tree is built from. */
    const tenantListing: seq<TenantTree.Tenant>
    /** The policy table. */
    const policies: seq<Policy>

    constructor (backendPolicies: map<string, string>, defaultExpiration: int, store: TokenStore,
                 tenantListing: seq<TenantTree.Tenant>, policies: seq<Policy>)
      ensures this.backendPolicies == backendPolicies && this.defaultExpiration == defaultExpiration
      ensures this.store == store && this.tenantListing == tenantListing && this.policies == policies
    {
      this.backendPolicies := backendPolicies;
      this.defaultExpiration := defaultExpiration;
      this.store := store;
      this.tenantListing := tenantListing;
      this.policies := policies;
    }

    /** `Manager.new_token`: builds the record for a login at time `now` and
        stores it under a fresh id. */
    method NewToken(backend: Backend, login: string, args: Args, now: int) returns (t: Token)
      requires store.Valid()
      modifies store
      ensures store.Valid()
      ensures t.token !in old(store.records)
      ensures store.records == old(store.records)[t.token := t.Record()]
      ensures var md := backend.getMetadata(login, args);
              t.metadata == md.(tenants := TenantList(tenantListing, md.tenantUuid)) &&
              t.authId == md.authId && t.xivoUserUuid == md.xivoUserUuid && t.xivoUuid == md.xivoUuid
      ensures t.issuedT == now
      ensures t.expireT == Some(now + args.expiration.GetOr(defaultExpiration))
      ensures var acls := backend.getAcls(login, AclArgs(args, AclTemplates(backendPolicies, policies, args.backend), t.metadata));
              t.acls == if acls.Some? then acls.value else []
    {
      var metadata := backend.getMetadata(login, args);
      metadata := metadata.(tenants := TenantList(tenantListing, metadata.tenantUuid));
      var aclArgs := AclArgs(args, AclTemplates(backendPolicies, policies, args.backend), metadata);
      var acls := backend.getAcls(login, aclArgs);
      var expiration := args.expiration.GetOr(defaultExpiration);
      var payload := Payload(metadata.authId, metadata.xivoUserUuid, metadata.xivoUuid,
                             now, Some(now + expiration), if acls.Some? then acls.value else [], metadata);
      var id := store.Create(payload);
      t := WithId(id, payload);
    }

    /** `Manager.remove_token`. */
    method RemoveToken(id: TokenId)
      requires store.Valid()
      modifies store
      ensures store.Valid()
      ensures store.records == old(store.records) - {id}
    {
      store.Delete(id);
    }

    /** `Manager.get`: the token, unless it is unknown or expired, or does not
        grant the required permission. */
    method Get(id: TokenId, required: Option<string>, now: int) returns (r: Result<Token, TokenError>)
      ensures r == Lookup(store.records, id, required, now)
    {
      if id !in store.records {
        return Err(UnknownToken);
      }
      var t := WithId(id, store.records[id]);
      if IsExpired(t.expireT, now) {
        return Err(UnknownToken);
      }
      var granted := MatchesRequiredAcl(t.acls, t.authId, required);
      if !granted {
        return Err(MissingAcl(required.value));
      }
      return Ok(t);
    }
  }

  /** A token whose expiry time, its issue time plus its lifetime, is not 0
      (which would mean "never") is found up to that time, inclusive, and is
      unknown after it. */
  lemma IssuedTokenLifetime(records: map<TokenId, Payload>, id: TokenId, p: Payload, lifetime: int, now: int)
    requires p.expireT == Some(p.issuedT + lifetime) && p.issuedT + lifetime != 0
    ensures Lookup(records[id := p], id, None, now).Ok? <==> now <= p.issuedT + lifetime
  {
  }

  /** The expired-token sweeper. */
  class ExpiredTokenRemover {
    const store: TokenStore
    const cleanupInterval: int
    const debug: bool

    constructor (store: TokenStore, cleanupInterval: int, debug: bool)
      ensures this.store == store && this.cleanupInterval == cleanupInterval && this.debug == debug
    {
      this.store := store;
      this.cleanupInterval := cleanupInterval;
      this.debug := debug;
    }

    /** `ExpiredTokenRemover._cleanup`: one sweep.  A failing store leaves its
        records as they were, and the failure goes no further than a log line. */
    method Cleanup(now: int, storeFails: bool)
      requires store.Valid()
      modifies store
      ensures store.Valid()
      ensures store.records == if storeFails then old(store.records) else Unexpired(old(store.records), now)
    {
      if !storeFails {
        store.DeleteExpired(now);
      }
    }
  }
}
