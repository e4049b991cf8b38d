/** The API-key store (maas-api/internal/api_keys/store_mock.go) as a timed state machine.
    Each operation is one atomic step at an explicit instant; the store's mutex justifies that. */
module KeyStore {
  import opened Strings

  datatype Status = Active | Revoked | Expired

  /** Go's zero `time.Time`, the stored form of "no expiration". Instants are nanoseconds after it. */
  const ZERO_TIME := 0
  const MINUTE := 60 * 1_000_000_000
  const GRACE := 30 * MINUTE

  datatype StoredKey = StoredKey(
    username: string, keyHash: string, name: string, description: string, subscription: string,
    groups: seq<string>, status: Status, createdAt: int, expiresAt: int, lastUsedAt: Option<int>, ephemeral: bool)

  type Keys = map<string, StoredKey>

  datatype NewKey = NewKey(
    id: string, username: string, keyHash: string, name: string, description: string,
    groups: seq<string>, subscription: string, expiresAt: Option<int>, ephemeral: bool)

  datatype ApiKey = ApiKey(
    id: string, username: string, name: string, description: string, subscription: string,
    groups: seq<string>, status: Status, createdAt: int, expiresAt: Option<int>, lastUsedAt: Option<int>,
    ephemeral: bool)

  datatype Error = EmptyJTI | EmptyName | SubscriptionRequired | KeyNotFound | InvalidKey

  datatype Op =
    | AddKey(key: NewKey)
    | Get(id: string)
    | GetByHash(hash: string)
    | InvalidateAll(username: string)
    | Revoke(id: string)
    | UpdateLastUsed(id: string)
    | DeleteExpiredEphemeral

  datatype Reply = Done | Failed(error: Error) | Found(key: ApiKey) | Count(n: nat)

  // ---- Status over time ----

  predicate Lapsed(k: StoredKey, now: int) {
    k.expiresAt != ZERO_TIME && k.expiresAt < now
  }

  function Effective(k: StoredKey, now: int): Status {
    if k.status.Active? && Lapsed(k, now) then Expired else k.status
  }

  predicate Live(k: StoredKey, now: int) {
    Effective(k, now).Active?
  }

  /** The lazy expiry that `GetByHash` writes back. */
  function WriteBack(k: StoredKey, now: int): StoredKey {
    if Lapsed(k, now) && k.status.Active? then k.(status := Expired) else k
  }

  function Expiry(k: StoredKey): Option<int> {
    if k.expiresAt == ZERO_TIME then None else Some(k.expiresAt)
  }

  function Describe(id: string, k: StoredKey, status: Status, expiresAt: Option<int>): ApiKey {
    ApiKey(id, k.username, k.name, k.description, k.subscription, k.groups, status, k.createdAt,
           expiresAt, k.lastUsedAt, k.ephemeral)
  }

  // ---- The PostgreSQL predicates, as the specification (store_postgres.go) ----

  datatype Row = Row(status: Status, expiresAt: Option<int>, ephemeral: bool)

  function ToRow(k: StoredKey): Row {
    Row(k.status, Expiry(k), k.ephemeral)
  }

  function SqlEffectiveStatus(row: Row, now: int): Status {
    if row.status.Active? && row.expiresAt.Some? && row.expiresAt.value < now then Expired else row.status
  }

  predicate SqlDeletes(row: Row, now: int) {
    row.ephemeral && row.expiresAt.Some? && row.expiresAt.value < now - GRACE
  }

  // ---- What each operation does to the keys ----

  function Rejection(key: NewKey): Option<Error> {
    if key.id == "" then Some(EmptyJTI)
    else if key.name == "" then Some(EmptyName)
    else if key.subscription == "" then Some(SubscriptionRequired)
    else None
  }

  function Fresh(key: NewKey, now: int): StoredKey {
    StoredKey(key.username, key.keyHash, key.name, key.description, key.subscription, key.groups, Active, now,
              if key.expiresAt.Some? then key.expiresAt.value else ZERO_TIME, None, key.ephemeral)
  }

  function RevokeOne(s: Keys, id: string): Keys {
    if id in s && s[id].status.Active? then s[id := s[id].(status := Revoked)] else s
  }

  function RevokeOwned(s: Keys, username: string): Keys {
    map id | id in s ::
      if s[id].username == username && s[id].status.Active? then s[id].(status := Revoked) else s[id]
  }

  function ActiveOwned(s: Keys, username: string): set<string> {
    set id | id in s && s[id].username == username && s[id].status.Active?
  }

  function Swept(s: Keys, now: int): set<string> {
    set id | id in s && SqlDeletes(ToRow(s[id]), now)
  }

  /** `RevokeOwned`, with the ids in `rest` still to visit. */
  ghost function RevokeVisited(s: Keys, username: string, rest: set<string>): Keys {
    map id | id in s ::
      if id !in rest && s[id].username == username && s[id].status.Active? then s[id].(status := Revoked) else s[id]
  }

  lemma RevokeVisitedEnds(s: Keys, username: string)
    ensures RevokeVisited(s, username, s.Keys) == s
    ensures RevokeVisited(s, username, {}) == RevokeOwned(s, username)
    ensures ActiveOwned(s, username) - s.Keys == {}
    ensures ActiveOwned(s, username) - {} == ActiveOwned(s, username)
  {
  }

  lemma RevokeVisitedStep(s: Keys, username: string, rest: set<string>, id: string)
    requires id in rest && rest <= s.Keys
    ensures var before, hit := RevokeVisited(s, username, rest), id in ActiveOwned(s, username);
            && id in before && before[id] == s[id]
            && RevokeVisited(s, username, rest - {id}) ==
               (if hit then before[id := s[id].(status := Revoked)] else before)
            && |ActiveOwned(s, username) - (rest - {id})| ==
               |ActiveOwned(s, username) - rest| + (if hit then 1 else 0)
  {
    var owned := ActiveOwned(s, username);
    if id in owned {
      assert owned - (rest - {id}) == owned - rest + {id};
    } else {
      assert owned - (rest - {id}) == owned - rest;
    }
  }

  /** The guard of the in-memory clean-up also looks at the status; the grace period makes that redundant. */
  predicate MemoryDeletes(k: StoredKey, now: int) {
    k.ephemeral && k.expiresAt != ZERO_TIME && (k.status == Expired || k.expiresAt < now) &&
    k.expiresAt < now - 30 * MINUTE
  }

  lemma GuardIsSql(k: StoredKey, now: int)
    ensures MemoryDeletes(k, now) <==> SqlDeletes(ToRow(k), now)
  {
  }

  lemma SweepStep(s: Keys, doomed: set<string>, rest: set<string>, id: string)
    requires id in rest && rest <= s.Keys && doomed <= s.Keys
    ensures var before, hit := doomed - rest, id in doomed;
            && id in s - before && (s - before)[id] == s[id]
            && s - (doomed - (rest - {id})) == (if hit then (s - before) - {id} else s - before)
            && |doomed - (rest - {id})| == |before| + (if hit then 1 else 0)
  {
    var before := doomed - rest;
    if id in doomed {
      assert doomed - (rest - {id}) == before + {id};
    } else {
      assert doomed - (rest - {id}) == before;
    }
  }

  /** The lookup hits some key with the hash; the map iteration order picks which. */
  ghost predicate Hit(s: Keys, now: int, hash: string, id: string, s': Keys, r: Reply) {
    && id in s && s[id].keyHash == hash
    && s' == s[id := WriteBack(s[id], now)]
    && r == if Live(s[id], now) then Found(Describe(id, s[id], Active, None)) else Failed(InvalidKey)
  }

  ghost predicate Step(s: Keys, now: int, op: Op, s': Keys, r: Reply) {
    match op
    case AddKey(key) =>
      if Rejection(key).Some? then s' == s && r == Failed(Rejection(key).value)
      else s' == s[key.id := Fresh(key, now)] && r == Done
    case Get(id) =>
      s' == s &&
      r == if id in s then Found(Describe(id, s[id], SqlEffectiveStatus(ToRow(s[id]), now), Expiry(s[id])))
           else Failed(KeyNotFound)
    case GetByHash(hash) =>
      if exists id :: id in s && s[id].keyHash == hash then exists id :: Hit(s, now, hash, id, s', r)
      else s' == s && r == Failed(KeyNotFound)
    case InvalidateAll(username) =>
      s' == RevokeOwned(s, username) && r == Count(|ActiveOwned(s, username)|)
    case Revoke(id) =>
      s' == RevokeOne(s, id) && r == if id in s && s[id].status.Active? then Done else Failed(KeyNotFound)
    case UpdateLastUsed(id) =>
      if id in s then s' == s[id := s[id].(lastUsedAt := Some(now))] && r == Done
      else s' == s && r == Failed(KeyNotFound)
    case DeleteExpiredEphemeral =>
      s' == s - Swept(s, now) && r == Count(|Swept(s, now)|)
  }

  /** The in-memory `MetadataStore`. */
  class MockStore {
    var keys: Keys

    constructor ()
      ensures keys == map[]
    {
      keys := map[];
    }

    method AddKey(now: int, key: NewKey) returns (r: Reply)
      modifies this
      ensures Step(old(keys), now, Op.AddKey(key), keys, r)
    {
      if key.id == "" { return Failed(EmptyJTI); }
      if key.name == "" { return Failed(EmptyName); }
      if key.subscription == "" { return Failed(SubscriptionRequired); }
      var expiresAt := ZERO_TIME;
      if key.expiresAt.Some? {
        expiresAt := key.expiresAt.value;
      }
      keys := keys[key.id := StoredKey(key.username, key.keyHash, key.name, key.description, key.subscription,
                                       key.groups, Active, now, expiresAt, None, key.ephemeral)];
      return Done;
    }

    method Get(now: int, id: string) returns (r: Reply)
      ensures Step(keys, now, Op.Get(id), keys, r)
    {
      if id !in keys { return Failed(KeyNotFound); }
      var k := keys[id];
      var status := k.status;
      if status == Active && k.expiresAt != ZERO_TIME && k.expiresAt < now {
        status := Expired;
      }
      var expiresAt := None;
      if k.expiresAt != ZERO_TIME {
        expiresAt := Some(k.expiresAt);
      }
      return Found(Describe(id, k, status, expiresAt));
    }

    method GetByHash(now: int, hash: string) returns (r: Reply)
      modifies this
      ensures Step(old(keys), now, Op.GetByHash(hash), keys, r)
    {
      var rest := keys.Keys;
      while rest != {}
        invariant keys == old(keys) && rest <= keys.Keys
        invariant forall id :: id in keys && keys[id].keyHash == hash ==> id in rest
      {
        var id :| id in rest;
        rest := rest - {id};
        var k := keys[id];
        if k.keyHash == hash {
          if k.expiresAt != ZERO_TIME && k.expiresAt < now {
            if k.status == Active {
              k := k.(status := Expired);
            }
          }
          keys := keys[id := k];
          if k.status == Revoked || k.status == Expired {
            r := Failed(InvalidKey);
          } else {
            r := Found(Describe(id, k, k.status, None));
          }
          assert Hit(old(keys), now, hash, id, keys, r);
          return;
        }
      }
      return Failed(KeyNotFound);
    }

    method InvalidateAll(username: string) returns (count: nat)
      modifies this
      ensures keys == RevokeOwned(old(keys), username) && count == |ActiveOwned(old(keys), username)|
    {
      count := 0;
      var rest := keys.Keys;
      ghost var s := keys;
      RevokeVisitedEnds(s, username);
      while rest != {}
        invariant rest <= s.Keys
        invariant keys == RevokeVisited(s, username, rest)
        invariant count == |ActiveOwned(s, username) - rest|
      {
        var id :| id in rest;
        RevokeVisitedStep(s, username, rest, id);
        rest := rest - {id};
        if keys[id].username == username && keys[id].status == Active {
          keys := keys[id := keys[id].(status := Revoked)];
          count := count + 1;
        }
      }
    }

    method Revoke(id: string) returns (r: Reply)
      modifies this
      ensures Step(old(keys), 0, Op.Revoke(id), keys, r)
    {
      if id !in keys { return Failed(KeyNotFound); }
      if keys[id].status != Active { return Failed(KeyNotFound); }
      keys := keys[id := keys[id].(status := Revoked)];
      return Done;
    }

    method UpdateLastUsed(now: int, id: string) returns (r: Reply)
      modifies this
      ensures Step(old(keys), now, Op.UpdateLastUsed(id), keys, r)
    {
      if id !in keys { return Failed(KeyNotFound); }
      keys := keys[id := keys[id].(lastUsedAt := Some(now))];
      return Done;
    }

    method DeleteExpiredEphemeral(now: int) returns (count: nat)
      modifies this
      ensures keys == old(keys) - Swept(old(keys), now) && count == |Swept(old(keys), now)|
    {
      count := 0;
      var rest := keys.Keys;
      ghost var s, doomed := keys, Swept(keys, now);
      assert doomed - rest == {} && s - {} == s && doomed - {} == doomed;
      while rest != {}
        invariant rest <= s.Keys
        invariant keys == s - (doomed - rest)
        invariant count == |doomed - rest|
      {
        var id :| id in rest;
        SweepStep(s, doomed, rest, id);
        rest := rest - {id};
        GuardIsSql(keys[id], now);
        if MemoryDeletes(keys[id], now) {
          keys := keys - {id};
          count := count + 1;
        }
      }
    }
  }
}
