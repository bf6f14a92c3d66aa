/**
 * The external authentication tables of
 * wazo_auth/database/queries/external_auth.py: the known external
 * authentication types (each enabled or not), the link of a user to a type
 * with the user's data, and the per-tenant configuration of a type.
 *
 * The tables are fields of `ExternalAuthDao`; users and tenants are the
 * tables the operations consult but never change.  Stored data is kept as
 * the value the caller passed (serialising to JSON and back is the
 * identity here).
 */
module ExternalAuth {
  import opened Wrappers

  type Uuid = string

  /** The JSON object a caller stores. */
  type Data = map<string, string>

  datatype DaoError =
    | UnknownType(authType: string)
    | UnknownUser(user: Uuid)
    | UnknownExternalAuth(authType: string)
    | AlreadyExists(authType: string)
    | UnknownTenant(tenant: Uuid)
    | ConfigAlreadyExists(authType: string)
    | ConfigNotFound(authType: string)
    | UnknownConfig(authType: string)

  /** One row of `list_`. */
  datatype Row = Row(authType: string, data: Data, enabled: bool)

  class ExternalAuthDao {
    /** Type name to its enabled flag. */
    var types: map<string, bool>
    var users: set<Uuid>
    var tenants: set<Uuid>
    /** (user, type) to the user's data for that type. */
    var links: map<(Uuid, string), Data>
    /** (type, tenant) to the tenant's configuration of that type. */
    var configs: map<(string, Uuid), Data>

    /** The foreign keys: a link names a known user and type, a configuration
        a known type and tenant. */
    ghost predicate Valid()
      reads this
    {
      (forall k :: k in links ==> k.0 in users && k.1 in types) &&
      (forall k :: k in configs ==> k.0 in types && k.1 in tenants)
    }

    constructor (users: set<Uuid>, tenants: set<Uuid>)
      ensures Valid()
      ensures this.users == users && this.tenants == tenants
      ensures types == map[] && links == map[] && configs == map[]
    {
      this.users := users;
      this.tenants := tenants;
      types := map[];
      links := map[];
      configs := map[];
    }

    /** `_find_type`. */
    function FindType(authType: string): (r: Result<string, DaoError>)
      reads this
      ensures r.Ok? <==> authType in types
      ensures r.Ok? ==> r.value == authType
      ensures r.Err? ==> r.error == UnknownType(authType)
    {
      if authType in types then Ok(authType) else Err(UnknownType(authType))
    }

    /** `_find_or_create_type`: a type met for the first time is added, with
        the column's default, disabled. */
    method FindOrCreateType(authType: string)
      requires Valid()
      modifies this
      ensures Valid()
      ensures types == if authType in old(types) then old(types) else old(types)[authType := false]
      ensures users == old(users) && tenants == old(tenants) && links == old(links) && configs == old(configs)
    {
      if authType !in types {
        types := types[authType := false];
      }
    }

    /** `create`: the type is found or created first, and stays even when the
        link cannot be made; then an existing link, or an unknown user, is
        refused. */
    method Create(user: Uuid, authType: string, data: Data) returns (r: Result<Data, DaoError>)
      requires Valid()
      modifies this
      ensures Valid()
      ensures types == if authType in old(types) then old(types) else old(types)[authType := false]
      ensures users == old(users) && tenants == old(tenants) && configs == old(configs)
      ensures r == if (user, authType) in old(links) then Err(AlreadyExists(authType))
                   else if user !in users then Err(UnknownUser(user))
                   else Ok(data)
      ensures links == if r.Ok? then old(links)[(user, authType) := data] else old(links)
    {
      FindOrCreateType(authType);
      if (user, authType) in links {
        return Err(AlreadyExists(authType));
      }
      if user !in users {
        return Err(UnknownUser(user));
      }
      links := links[(user, authType) := data];
      return Ok(data);
    }

    /** `get`: the user's data for the type; otherwise an unknown type, then an
        unknown user, then a missing link. */
    method Get(user: Uuid, authType: string) returns (r: Result<Data, DaoError>)
      ensures (user, authType) in links ==> r == Ok(links[(user, authType)])
      ensures (user, authType) !in links && authType !in types ==> r == Err(UnknownType(authType))
      ensures (user, authType) !in links && authType in types && user !in users ==> r == Err(UnknownUser(user))
      ensures (user, authType) !in links && authType in types && user in users ==> r == Err(UnknownExternalAuth(authType))
    {
      if (user, authType) in links {
        return Ok(links[(user, authType)]);
      }
      var found := FindType(authType);
      if found.Err? {
        return Err(found.error);
      }
      if user !in users {
        return Err(UnknownUser(user));
      }
      return Err(UnknownExternalAuth(authType));
    }

    /** `delete`: an unknown type is refused first; then the link is removed
        if there is one, otherwise the user, then the link, is reported
        missing. */
    method Delete(user: Uuid, authType: string) returns (r: Result<(), DaoError>)
      requires Valid()
      modifies this
      ensures Valid()
      ensures types == old(types) && users == old(users) && tenants == old(tenants) && configs == old(configs)
      ensures r == if authType !in types then Err(UnknownType(authType))
                   else if (user, authType) in old(links) then Ok(())
                   else if user !in users then Err(UnknownUser(user))
                   else Err(UnknownExternalAuth(authType))
      ensures links == if r.Ok? then old(links) - {(user, authType)} else old(links)
    {
      var found := FindType(authType);
      if found.Err? {
        return Err(found.error);
      }
      if (user, authType) in links {
        links := links - {(user, authType)};
        return Ok(());
      }
      if user !in users {
        return Err(UnknownUser(user));
      }
      return Err(UnknownExternalAuth(authType));
    }

    /** `update`: `delete` then `create`.  Replacing an existing link always
        succeeds; otherwise `delete`'s error is reported and nothing changes. */
    method Update(user: Uuid, authType: string, data: Data) returns (r: Result<Data, DaoError>)
      requires Valid()
      modifies this
      ensures Valid()
      ensures types == old(types) && users == old(users) && tenants == old(tenants) && configs == old(configs)
      ensures (user, authType) in old(links) ==> r == Ok(data) && links == old(links)[(user, authType) := data]
      ensures (user, authType) !in old(links) ==> r.Err? && links == old(links)
      ensures (user, authType) !in old(links) && authType !in types ==> r == Err(UnknownType(authType))
      ensures (user, authType) !in old(links) && authType in types && user !in users ==> r == Err(UnknownUser(user))
      ensures (user, authType) !in old(links) && authType in types && user in users ==> r == Err(UnknownExternalAuth(authType))
    {
      var deleted := Delete(user, authType);
      if deleted.Err? {
        return Err(deleted.error);
      }
      r := Create(user, authType, data);
      assert old(links)[(user, authType) := data] == (old(links) - {(user, authType)})[(user, authType) := data];
    }

    /** `create_config`: an unknown tenant is refused and leaves no trace (the
        type found-or-created in the same session is rolled back); otherwise
        the type stays, and an existing configuration is refused. */
    method CreateConfig(authType: string, data: Data, tenant: Uuid) returns (r: Result<Data, DaoError>)
      requires Valid()
      modifies this
      ensures Valid()
      ensures users == old(users) && tenants == old(tenants) && links == old(links)
      ensures tenant !in tenants ==> r == Err(UnknownTenant(tenant)) && types == old(types) && configs == old(configs)
      ensures tenant in tenants ==>
                types == (if authType in old(types) then old(types) else old(types)[authType := false]) &&
                r == (if (authType, tenant) in old(configs) then Err(ConfigAlreadyExists(authType)) else Ok(data)) &&
                configs == (if r.Ok? then old(configs)[(authType, tenant) := data] else old(configs))
    {
      if tenant !in tenants {
        return Err(UnknownTenant(tenant));
      }
      FindOrCreateType(authType);
      if (authType, tenant) in configs {
        return Err(ConfigAlreadyExists(authType));
      }
      configs := configs[(authType, tenant) := data];
      return Ok(data);
    }

    /** `get_config`: an unknown type is reported as a configuration not found,
        a known type without configuration for the tenant as an unknown
        configuration. */
    method GetConfig(authType: string, tenant: Uuid) returns (r: Result<Data, DaoError>)
      ensures authType !in types ==> r == Err(ConfigNotFound(authType))
      ensures authType in types && (authType, tenant) in configs ==> r == Ok(configs[(authType, tenant)])
      ensures authType in types && (authType, tenant) !in configs ==> r == Err(UnknownConfig(authType))
    {
      var found := FindType(authType);
      if found.Err? {
        return Err(ConfigNotFound(authType));
      }
      if (authType, tenant) in configs {
        return Ok(configs[(authType, tenant)]);
      }
      return Err(UnknownConfig(authType));
    }

    /** `delete_config`: an unknown type first, then a missing configuration. */
    method DeleteConfig(authType: string, tenant: Uuid) returns (r: Result<(), DaoError>)
      requires Valid()
      modifies this
      ensures Valid()
      ensures types == old(types) && users == old(users) && tenants == old(tenants) && links == old(links)
      ensures r == if authType !in types then Err(UnknownType(authType))
                   else if (authType, tenant) in old(configs) then Ok(())
                   else Err(UnknownConfig(authType))
      ensures configs == if r.Ok? then old(configs) - {(authType, tenant)} else old(configs)
    {
      var found := FindType(authType);
      if found.Err? {
        return Err(found.error);
      }
      if (authType, tenant) in configs {
        configs := configs - {(authType, tenant)};
        return Ok(());
      }
      return Err(UnknownConfig(authType));
    }

    /** `update_config`: `delete_config` then `create_config`.  Replacing an
        existing configuration always succeeds; otherwise nothing changes. */
    method UpdateConfig(authType: string, data: Data, tenant: Uuid) returns (r: Result<Data, DaoError>)
      requires Valid()
      modifies this
      ensures Valid()
      ensures types == old(types) && users == old(users) && tenants == old(tenants) && links == old(links)
      ensures (authType, tenant) in old(configs) ==> r == Ok(data) && configs == old(configs)[(authType, tenant) := data]
      ensures (authType, tenant) !in old(configs) ==>
                (configs == old(configs) &&
                 r == Err(if authType !in types then UnknownType(authType) else UnknownConfig(authType)))
    {
      var deleted := DeleteConfig(authType, tenant);
      if deleted.Err? {
        return Err(deleted.error);
      }
      r := CreateConfig(authType, data, tenant);
      assert old(configs)[(authType, tenant) := data] == (old(configs) - {(authType, tenant)})[(authType, tenant) := data];
    }

    /** `enable_all`: afterwards the known types are the old ones and the given
        ones, and a type is enabled exactly when it was given.  `updated` holds
        the existing types whose flag had to be rewritten; every other existing
        type is left as it was. */
    method EnableAll(authTypes: set<string>) returns (ghost updated: set<string>)
      requires Valid()
      modifies this
      ensures Valid()
      ensures types.Keys == old(types).Keys + authTypes
      ensures forall t :: t in types ==> types[t] == (t in authTypes)
      ensures updated == set t | t in old(types) && old(types)[t] != (t in authTypes)
      ensures users == old(users) && tenants == old(tenants) && links == old(links) && configs == old(configs)
    {
      var allTypes := types;
      var merged := allTypes;
      var toAdd := authTypes;
      while toAdd != {}
        invariant toAdd <= authTypes
        invariant merged.Keys == allTypes.Keys + (authTypes - toAdd)
        invariant forall t :: t in merged ==> merged[t] == if t in allTypes then allTypes[t] else true
        decreases toAdd
      {
        var t :| t in toAdd;
        if t !in allTypes {
          merged := merged[t := true];
        }
        toAdd := toAdd - {t};
      }
      var toCheck := allTypes.Keys;
      updated := {};
      while toCheck != {}
        invariant toCheck <= allTypes.Keys
        invariant merged.Keys == allTypes.Keys + authTypes
        invariant forall t :: t in merged ==> merged[t] == if t in toCheck then allTypes[t] else t in authTypes
        invariant updated == set t | t in allTypes && t !in toCheck && allTypes[t] != (t in authTypes)
        decreases toCheck
      {
        var t :| t in toCheck;
        var enabled := allTypes[t];
        if !(t in authTypes && enabled) && !(t !in authTypes && !enabled) {
          merged := merged[t := t in authTypes && !enabled];
          updated := updated + {t};
        }
        toCheck := toCheck - {t};
      }
      types := merged;
    }

    /** `list_`: one row per known type, first all disabled and empty, then
        filled in with the user's data for every type the user is linked to. */
    method List(user: Uuid) returns (rows: seq<Row>)
      ensures forall i, j :: 0 <= i < j < |rows| ==> rows[i].authType != rows[j].authType
      ensures forall t :: t in types <==> exists i :: 0 <= i < |rows| && rows[i].authType == t
      ensures forall i :: 0 <= i < |rows| ==> rows[i].enabled == ((user, rows[i].authType) in links)
      ensures forall i :: 0 <= i < |rows| ==>
                rows[i].data == if rows[i].enabled then links[(user, rows[i].authType)] else map[]
    {
      rows := DisabledRows(types.Keys);
      rows := MarkLinked(rows, user, links);
    }
  }

  /** The loop of `list_` over the user's links: the row of every type the
      user is linked to becomes enabled with the link's data. */
  method MarkLinked(rows: seq<Row>, user: Uuid, links: map<(Uuid, string), Data>) returns (marked: seq<Row>)
    ensures |marked| == |rows|
    ensures forall i :: 0 <= i < |rows| ==>
              marked[i] == if (user, rows[i].authType) in links then Row(rows[i].authType, links[(user, rows[i].authType)], true)
                           else rows[i]
  {
    marked := rows;
    var linked := set k | k in links && k.0 == user :: k.1;
    var pending := linked;
    while pending != {}
      invariant pending <= linked
      invariant |marked| == |rows|
      invariant forall i :: 0 <= i < |rows| ==>
                  marked[i] == if rows[i].authType in linked && rows[i].authType !in pending
                               then Row(rows[i].authType, links[(user, rows[i].authType)], true) else rows[i]
      decreases pending
    {
      var t :| t in pending;
      var data := links[(user, t)];
      marked := FillRows(marked, t, data);
      pending := pending - {t};
    }
    forall i | 0 <= i < |rows|
      ensures (user, rows[i].authType) in links <==> rows[i].authType in linked
    {
      var k := (user, rows[i].authType);
      if k in links {
        assert k.1 in linked;
      }
    }
  }

  /** The first step of `list_`: one disabled row with no data per type. */
  method DisabledRows(names: set<string>) returns (rows: seq<Row>)
    ensures forall i, j :: 0 <= i < j < |rows| ==> rows[i].authType != rows[j].authType
    ensures forall t :: t in names <==> exists i :: 0 <= i < |rows| && rows[i].authType == t
    ensures forall i :: 0 <= i < |rows| ==> rows[i] == Row(rows[i].authType, map[], false)
  {
    rows := [];
    var remaining := names;
    while remaining != {}
      invariant remaining <= names
      invariant forall i :: 0 <= i < |rows| ==> rows[i].authType in names && rows[i].authType !in remaining
      invariant forall i :: 0 <= i < |rows| ==> rows[i] == Row(rows[i].authType, map[], false)
      invariant forall i, j :: 0 <= i < j < |rows| ==> rows[i].authType != rows[j].authType
      invariant forall t :: t in names ==> t in remaining || exists i :: 0 <= i < |rows| && rows[i].authType == t
      decreases remaining
    {
      var t :| t in remaining;
      ghost var before := rows;
      rows := rows + [Row(t, map[], false)];
      assert forall i :: 0 <= i < |before| ==> rows[i] == before[i];
      assert rows[|rows| - 1].authType == t;
      remaining := remaining - {t};
    }
  }

  /** The inner loop of `list_`: every row of type `t` becomes enabled with
      `data`; the other rows are left as they are. */
  method FillRows(rows: seq<Row>, t: string, data: Data) returns (filled: seq<Row>)
    ensures |filled| == |rows|
    ensures forall i :: 0 <= i < |rows| ==>
              filled[i] == if rows[i].authType == t then Row(t, data, true) else rows[i]
  {
    filled := rows;
    var j := 0;
    while j < |filled|
      invariant 0 <= j <= |filled| == |rows|
      invariant forall k :: 0 <= k < j ==> filled[k] == if rows[k].authType == t then Row(t, data, true) else rows[k]
      invariant forall k :: j <= k < |filled| ==> filled[k] == rows[k]
    {
      if filled[j].authType == t {
        filled := filled[j := Row(t, data, true)];
      }
      j := j + 1;
    }
  }
}
