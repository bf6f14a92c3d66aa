/**
 * The legacy token service of xivo_auth/token.py: a token is four fields
 * stored one key per field in a key/value store, under
 * `xivo/xivo-auth/tokens/<token>/<field>`, and carries a key/value access
 * policy that lets its user write only below `xivo/private/<uuid>`.
 *
 * The key/value store is a `map<string, Value>`; the clock is a parameter
 * `now` and timestamps are whole seconds.
 */
module LegacyToken {
  import opened Wrappers

  /** A stored value: a string field or a timestamp. */
  datatype Value = Str(s: string) | Time(t: int)

  datatype Token = Token(token: string, uuid: string, issuedAt: int, expiresAt: int)

  datatype LegacyError =
    | NoSuchToken          // `LookupError`: nothing stored under the token
    | MissingField(name: string)   // `KeyError` while reading the fields
    | BadField(name: string)       // a field holding the other kind of value

  const FieldNames: seq<string> := ["token", "uuid", "issued_at", "expires_at"]

  /** `Token.to_dict`: the token's four attributes by name. */
  function ToDict(t: Token): (d: map<string, Value>)
    ensures forall f :: f in d <==> f in FieldNames
    ensures d["token"].Str? && d["uuid"].Str? && d["issued_at"].Time? && d["expires_at"].Time?
  {
    map["token" := Str(t.token), "uuid" := Str(t.uuid),
        "issued_at" := Time(t.issuedAt), "expires_at" := Time(t.expiresAt)]
  }

  function StrField(d: map<string, Value>, name: string): Result<string, LegacyError> {
    if name !in d then Err(MissingField(name))
    else if !d[name].Str? then Err(BadField(name))
    else Ok(d[name].s)
  }

  function TimeField(d: map<string, Value>, name: string): Result<int, LegacyError> {
    if name !in d then Err(MissingField(name))
    else if !d[name].Time? then Err(BadField(name))
    else Ok(d[name].t)
  }

  /** `Token.from_dict`: reads the four fields, in constructor order; other
      keys are ignored. */
  function FromDict(d: map<string, Value>): (r: Result<Token, LegacyError>)
    ensures r.Ok? <==> (forall f :: f in FieldNames ==> f in d) &&
                       d["token"].Str? && d["uuid"].Str? && d["issued_at"].Time? && d["expires_at"].Time?
    ensures r.Err? ==> r.error.MissingField? || r.error.BadField?
    ensures r.Err? && r.error.MissingField? ==> r.error.name in FieldNames && r.error.name !in d
  {
    var token := StrField(d, "token");
    var uuid := StrField(d, "uuid");
    var issuedAt := TimeField(d, "issued_at");
    var expiresAt := TimeField(d, "expires_at");
    if token.Err? then Err(token.error)
    else if uuid.Err? then Err(uuid.error)
    else if issuedAt.Err? then Err(issuedAt.error)
    else if expiresAt.Err? then Err(expiresAt.error)
    else Ok(Token(token.value, uuid.value, issuedAt.value, expiresAt.value))
  }

  /** Reading back what `to_dict` produced gives the same token. */
  lemma FromDictInvertsToDict(t: Token)
    ensures FromDict(ToDict(t)) == Ok(t)
  {
  }

  /** Conversely, a dictionary that reads as a token holds exactly that
      token's fields (plus, possibly, keys `from_dict` ignores). */
  lemma ToDictInvertsFromDict(d: map<string, Value>)
    requires FromDict(d).Ok?
    ensures forall k :: k in ToDict(FromDict(d).value) ==> k in d && d[k] == ToDict(FromDict(d).value)[k]
  {
  }

  /** `Token.is_expired`: strictly after the expiry time. */
  predicate IsExpired(t: Token, now: int) {
    now > t.expiresAt
  }

  /** A token issued at `now` with the lifetime `new_token` computes is
      unexpired up to `now` plus that lifetime, inclusive, and expired after. */
  lemma IssuedTokenExpiry(token: string, uuid: string, expiration: Option<int>, defaultExpiration: int, now: int, later: int)
    requires EffectiveExpiration(expiration, defaultExpiration) >= 0
    ensures var t := Token(token, uuid, now, now + EffectiveExpiration(expiration, defaultExpiration));
            !IsExpired(t, now) &&
            (IsExpired(t, later) <==> later > now + EffectiveExpiration(expiration, defaultExpiration))
  {
  }

  /** The lifetime `new_token` uses: the default whenever none, or zero, is given. */
  function EffectiveExpiration(expiration: Option<int>, defaultExpiration: int): (e: int)
    ensures expiration.Some? && expiration.value != 0 ==> e == expiration.value
    ensures expiration.None? || expiration.value == 0 ==> e == defaultExpiration
  {
    if expiration.None? || expiration.value == 0 then defaultExpiration else expiration.value
  }

  // ---------------------------------------------------------------------------
  // Key layout

  /** `consul_token_kv`: where the fields of a token live (no trailing slash). */
  function Prefix(token: string): string {
    "xivo/xivo-auth/tokens/" + token
  }

  function Key(token: string, field: string): string {
    Prefix(token) + "/" + field
  }

  /** Keys of one token are told apart by their field names. */
  lemma KeyInjective(token: string, f: string, g: string)
    requires Key(token, f) == Key(token, g)
    ensures f == g
  {
    var n := |Prefix(token)| + 1;
    assert f == Key(token, f)[n..];
    assert g == Key(token, g)[n..];
  }

  /** Keys of two tokens of the same length never collide, and neither
      token's prefix reaches the other's keys. */
  lemma KeysOfOtherToken(token: string, other: string, f: string, g: string)
    requires |token| == |other| && token != other
    ensures Key(token, f) != Key(other, g)
    ensures !(Prefix(token) <= Key(other, g))
  {
    var n := |"xivo/xivo-auth/tokens/"|;
    assert Key(token, f)[n..n + |token|] == token;
    assert Key(other, g)[n..n + |other|] == other;
    assert Prefix(token)[n..n + |token|] == token;
    SliceOfPrefix(Prefix(token), Key(other, g), n, n + |token|);
  }

  lemma SliceOfPrefix(a: string, b: string, i: nat, j: nat)
    requires i <= j <= |a|
    ensures a <= b ==> b[i..j] == a[i..j]
  {
  }

  /** The keys written for the fields in `fields`, each with its value. */
  function Puts(token: string, d: map<string, Value>, fields: seq<string>): map<string, Value>
    requires forall f :: f in fields ==> f in d
  {
    if fields == [] then map[]
    else
      var last := fields[|fields| - 1];
      Puts(token, d, fields[..|fields| - 1])[Key(token, last) := d[last]]
  }

  lemma PutsStep(token: string, d: map<string, Value>, fields: seq<string>, i: nat)
    requires i < |fields| && forall f :: f in fields ==> f in d
    ensures Puts(token, d, fields[..i + 1]) == Puts(token, d, fields[..i])[Key(token, fields[i]) := d[fields[i]]]
  {
    assert fields[..i + 1][..i] == fields[..i];
  }

  lemma UnionUpdate(a: map<string, Value>, b: map<string, Value>, k: string, v: Value)
    ensures a + b[k := v] == (a + b)[k := v]
  {
  }

  /** The entries `_push_token_data` writes for a token. */
  function Written(t: Token): map<string, Value> {
    Puts(t.token, ToDict(t), FieldNames)
  }

  /** A push writes exactly four keys, one per field, each holding that
      field's value. */
  lemma WrittenIsOneKeyPerField(t: Token)
    ensures Written(t).Keys == set f | f in FieldNames :: Key(t.token, f)
    ensures forall f :: f in FieldNames ==> Written(t)[Key(t.token, f)] == ToDict(t)[f]
    ensures |Written(t).Keys| == 4
  {
    WrittenMap(t);
    FieldKeysDistinct(t.token);
    WrittenKeys(t);
    WrittenValues(t);
  }

  lemma WrittenKeys(t: Token)
    requires var d := ToDict(t);
             Written(t) == map[Key(t.token, "token") := d["token"], Key(t.token, "uuid") := d["uuid"],
                               Key(t.token, "issued_at") := d["issued_at"], Key(t.token, "expires_at") := d["expires_at"]]
    requires var k0, k1, k2, k3 := Key(t.token, "token"), Key(t.token, "uuid"), Key(t.token, "issued_at"), Key(t.token, "expires_at");
             k0 != k1 && k0 != k2 && k0 != k3 && k1 != k2 && k1 != k3 && k2 != k3
    ensures Written(t).Keys == set f | f in FieldNames :: Key(t.token, f)
    ensures |Written(t).Keys| == 4
  {
    var k0, k1, k2, k3 := Key(t.token, "token"), Key(t.token, "uuid"), Key(t.token, "issued_at"), Key(t.token, "expires_at");
    assert Written(t).Keys == {k0, k1, k2, k3};
    FieldKeySet(t.token);
    FourDistinct(k0, k1, k2, k3);
  }

  lemma FieldKeySet(token: string)
    ensures (set f | f in FieldNames :: Key(token, f)) ==
            {Key(token, "token"), Key(token, "uuid"), Key(token, "issued_at"), Key(token, "expires_at")}
  {
  }

  lemma FourDistinct(k0: string, k1: string, k2: string, k3: string)
    requires k0 != k1 && k0 != k2 && k0 != k3 && k1 != k2 && k1 != k3 && k2 != k3
    ensures |{k0, k1, k2, k3}| == 4
  {
    assert {k0, k1, k2, k3} == {k0, k1, k2} + {k3};
    assert {k0, k1, k2} == {k0, k1} + {k2};
  }

  lemma WrittenValues(t: Token)
    requires var d := ToDict(t);
             Written(t) == map[Key(t.token, "token") := d["token"], Key(t.token, "uuid") := d["uuid"],
                               Key(t.token, "issued_at") := d["issued_at"], Key(t.token, "expires_at") := d["expires_at"]]
    requires var k0, k1, k2, k3 := Key(t.token, "token"), Key(t.token, "uuid"), Key(t.token, "issued_at"), Key(t.token, "expires_at");
             k0 != k1 && k0 != k2 && k0 != k3 && k1 != k2 && k1 != k3 && k2 != k3
    ensures forall f :: f in FieldNames ==> Written(t)[Key(t.token, f)] == ToDict(t)[f]
  {
  }

  /** The four writes of a push, spelled out. */
  lemma WrittenMap(t: Token)
    ensures var d := ToDict(t);
            Written(t) == map[Key(t.token, "token") := d["token"], Key(t.token, "uuid") := d["uuid"],
                              Key(t.token, "issued_at") := d["issued_at"], Key(t.token, "expires_at") := d["expires_at"]]
  {
    var d := ToDict(t);
    var k0, k1, k2 := Key(t.token, "token"), Key(t.token, "uuid"), Key(t.token, "issued_at");
    assert FieldNames[..1][..0] == [];
    assert FieldNames[..2][..1] == FieldNames[..1];
    assert FieldNames[..3][..2] == FieldNames[..2];
    assert FieldNames[..4][..3] == FieldNames[..3];
    assert FieldNames[..4] == FieldNames;
    assert Puts(t.token, d, FieldNames[..1]) == map[k0 := d["token"]];
    assert Puts(t.token, d, FieldNames[..2]) == map[k0 := d["token"], k1 := d["uuid"]];
    assert Puts(t.token, d, FieldNames[..3]) == map[k0 := d["token"], k1 := d["uuid"], k2 := d["issued_at"]];
  }

  lemma FieldKeysDistinct(token: string)
    ensures var k0, k1, k2, k3 := Key(token, "token"), Key(token, "uuid"), Key(token, "issued_at"), Key(token, "expires_at");
            k0 != k1 && k0 != k2 && k0 != k3 && k1 != k2 && k1 != k3 && k2 != k3
  {
    forall f, g | f in FieldNames && g in FieldNames && f != g ensures Key(token, f) != Key(token, g) {
      if Key(token, f) == Key(token, g) {
        KeyInjective(token, f, g);
      }
    }
  }

  /** The fields stored for `token`, by name. */
  function Entries(kv: map<string, Value>, token: string): map<string, Value> {
    map f | f in FieldNames && Key(token, f) in kv :: kv[Key(token, f)]
  }

  /** Something is stored under the token's prefix. */
  predicate HasEntriesUnder(kv: map<string, Value>, token: string) {
    exists k :: k in kv && Prefix(token) <= k
  }

  /** `Manager.get`: nothing under the prefix is a `LookupError`; otherwise the
      token is read back from its fields. */
  function Lookup(kv: map<string, Value>, token: string): (r: Result<Token, LegacyError>)
    ensures r == Err(NoSuchToken) <==> !HasEntriesUnder(kv, token)
    ensures r.Ok? ==> forall f :: f in FieldNames ==> Key(token, f) in kv && kv[Key(token, f)] == ToDict(r.value)[f]
  {
    if !HasEntriesUnder(kv, token) then Err(NoSuchToken)
    else FromDict(Entries(kv, token))
  }

  /** `remove_expired_token`: deletes every key under the token's prefix. */
  function RemoveUnder(kv: map<string, Value>, token: string): (r: map<string, Value>)
    ensures r.Keys <= kv.Keys
    ensures forall k :: k in r ==> r[k] == kv[k] && !(Prefix(token) <= k)
    ensures forall k :: k in kv && !(Prefix(token) <= k) ==> k in r
  {
    map k | k in kv && !(Prefix(token) <= k) :: kv[k]
  }

  lemma FieldAfterPush(kv: map<string, Value>, t: Token, f: string)
    requires f in FieldNames
    ensures f in Entries(kv + Written(t), t.token)
    ensures Entries(kv + Written(t), t.token)[f] == ToDict(t)[f]
  {
    WrittenIsOneKeyPerField(t);
  }

  /** After a push the token reads back as pushed, whatever was stored before. */
  lemma LookupAfterPush(kv: map<string, Value>, t: Token)
    ensures Lookup(kv + Written(t), t.token) == Ok(t)
  {
    var kv' := kv + Written(t);
    var e := Entries(kv', t.token);
    FieldAfterPush(kv, t, "token");
    FieldAfterPush(kv, t, "uuid");
    FieldAfterPush(kv, t, "issued_at");
    FieldAfterPush(kv, t, "expires_at");
    assert Key(t.token, "token") in kv';
    assert Prefix(t.token) <= Key(t.token, "token");
    assert HasEntriesUnder(kv', t.token);
    assert StrField(e, "token") == Ok(t.token);
    assert StrField(e, "uuid") == Ok(t.uuid);
    assert TimeField(e, "issued_at") == Ok(t.issuedAt);
    assert TimeField(e, "expires_at") == Ok(t.expiresAt);
  }

  /** After removal the token is unknown, and removing a token that was
      never stored is not an error and changes nothing. */
  lemma LookupAfterRemove(kv: map<string, Value>, token: string)
    ensures Lookup(RemoveUnder(kv, token), token) == Err(NoSuchToken)
    ensures !HasEntriesUnder(kv, token) ==> RemoveUnder(kv, token) == kv
  {
  }

  /** Removing a token leaves another token of the same length readable as
      before. */
  lemma RemoveKeepsOtherTokens(kv: map<string, Value>, token: string, other: string)
    requires |token| == |other| && token != other
    requires Lookup(kv, other).Ok?
    ensures Lookup(RemoveUnder(kv, token), other) == Lookup(kv, other)
  {
    var r := RemoveUnder(kv, token);
    forall f | f in FieldNames ensures Key(other, f) in r <==> Key(other, f) in kv {
      KeysOfOtherToken(token, other, "", f);
    }
    assert Entries(r, other) == Entries(kv, other);
    var k :| k in kv && Prefix(other) <= k;
    var f := "token";
    assert Key(other, f) in kv by {
      assert Entries(kv, other) != map[];
    }
    assert Prefix(other) <= Key(other, f);
  }

  // ---------------------------------------------------------------------------
  // Access policy

  datatype KeyPolicy = Deny | Write

  /** `_ACLGenerator.create`: the `key` section of the rule set, by prefix. */
  function AclRules(uuid: string): (r: map<string, KeyPolicy>)
    ensures r.Keys == {"", "xivo/private/" + uuid}
    ensures "" in r && r[""] == Deny
    ensures forall p :: p in r ==> (r[p] == Write <==> p == "xivo/private/" + uuid)
  {
    map["" := Deny, "xivo/private/" + uuid := Write]
  }

  /** The rule that decides for `key`: the longest rule prefix of `key`. */
  ghost predicate Governs(rules: map<string, KeyPolicy>, key: string, p: string) {
    p in rules && p <= key && forall q :: q in rules && q <= key ==> |q| <= |p|
  }

  /** A token's user may write exactly below its private prefix; every other
      key is denied. */
  lemma AclRulesConfineWrites(uuid: string, key: string)
    ensures "xivo/private/" + uuid <= key ==> Governs(AclRules(uuid), key, "xivo/private/" + uuid)
    ensures !("xivo/private/" + uuid <= key) ==> Governs(AclRules(uuid), key, "")
    ensures forall p :: Governs(AclRules(uuid), key, p) ==>
              AclRules(uuid)[p] == (if "xivo/private/" + uuid <= key then Write else Deny)
  {
    var own := "xivo/private/" + uuid;
    forall p | Governs(AclRules(uuid), key, p)
      ensures AclRules(uuid)[p] == (if own <= key then Write else Deny)
    {
      if own <= key {
        assert |own| <= |p|;
      }
    }
  }

  // ---------------------------------------------------------------------------
  // Manager

  /** The token manager over its key/value store. */
  class LegacyManager {
    var kv: map<string, Value>
    const defaultExpiration: int

    constructor (kv: map<string, Value>, defaultExpiration: int)
      ensures this.kv == kv && this.defaultExpiration == defaultExpiration
    {
      this.kv := kv;
      this.defaultExpiration := defaultExpiration;
    }

    /** `_push_token_data`: one `put` per field of `to_dict()`. */
    method PushTokenData(t: Token)
      modifies this
      ensures kv == old(kv) + Written(t)
    {
      var d := ToDict(t);
      var i := 0;
      while i < |FieldNames|
        invariant 0 <= i <= |FieldNames|
        invariant kv == old(kv) + Puts(t.token, d, FieldNames[..i])
      {
        var field := FieldNames[i];
        UnionUpdate(old(kv), Puts(t.token, d, FieldNames[..i]), Key(t.token, field), d[field]);
        kv := kv[Key(t.token, field) := d[field]];
        PutsStep(t.token, d, FieldNames, i);
        i := i + 1;
      }
      assert FieldNames[..i] == FieldNames;
    }

    /** `new_token`: the store-facing part.  `consulToken` is the token id the
        access-control service returned for the generated rules. */
    method NewToken(uuid: string, expiration: Option<int>, consulToken: string, now: int) returns (t: Token)
      modifies this
      ensures t == Token(consulToken, uuid, now, now + EffectiveExpiration(expiration, defaultExpiration))
      ensures kv == old(kv) + Written(t)
      ensures Lookup(kv, consulToken) == Ok(t)
    {
      var lifetime := if expiration.None? || expiration.value == 0 then defaultExpiration else expiration.value;
      t := Token(consulToken, uuid, now, now + lifetime);
      PushTokenData(t);
      LookupAfterPush(old(kv), t);
    }

    /** `remove_expired_token`. */
    method RemoveExpiredToken(token: string)
      modifies this
      ensures kv == RemoveUnder(old(kv), token)
      ensures Lookup(kv, token) == Err(NoSuchToken)
    {
      kv := RemoveUnder(kv, token);
      LookupAfterRemove(old(kv), token);
    }

    /** `remove_token`: the store-facing part is `remove_expired_token`. */
    method RemoveToken(token: string)
      modifies this
      ensures kv == RemoveUnder(old(kv), token)
    {
      RemoveExpiredToken(token);
    }
  }
}
