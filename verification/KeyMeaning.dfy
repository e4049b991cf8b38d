/** What the key store and the key service do, in terms of the fields of keys and requests
    (maas-api/internal/api_keys/store_mock.go, service.go). */
module KeyMeaning {
  import opened Strings
  import opened KeyCodec
  import opened KeyStore
  import opened KeyLifecycle
  import opened KeyService
  import Selector
  import SelectionMeaning

  // ---- The store ----

  /** A mint is refused for an empty id, then an empty name, then an empty subscription. */
  lemma MintOutcome(s: Keys, now: int, key: NewKey, s': Keys, r: Reply)
    requires Step(s, now, AddKey(key), s', r)
    ensures r == Done <==> key.id != "" && key.name != "" && key.subscription != ""
    ensures r != Done ==> s' == s
    ensures key.id == "" ==> r == Failed(EmptyJTI)
    ensures key.id != "" && key.name == "" ==> r == Failed(EmptyName)
    ensures key.id != "" && key.name != "" && key.subscription == "" ==> r == Failed(SubscriptionRequired)
  {
  }

  /** A minted key reads back field by field, Active until its expiry has passed and Expired after it. */
  lemma MintedReads(s: Keys, now: int, key: NewKey, s': Keys, t: int, s2: Keys, r: Reply)
    requires Step(s, now, AddKey(key), s', Done) && Step(s', t, Get(key.id), s2, r) && key.expiresAt != Some(0)
    ensures r.Found?
    ensures var k := r.key;
            && k.id == key.id && k.username == key.username && k.name == key.name && k.description == key.description
            && k.subscription == key.subscription && k.groups == key.groups && k.ephemeral == key.ephemeral
            && k.createdAt == now && k.expiresAt == key.expiresAt && k.lastUsedAt == None
            && (k.status == Expired <==> key.expiresAt.Some? && key.expiresAt.value < t)
            && (k.status == Active <==> key.expiresAt.Some? ==> t <= key.expiresAt.value)
  {
  }

  /** Minting touches no other key. */
  lemma MintFrame(s: Keys, now: int, key: NewKey, s': Keys, r: Reply, id: string)
    requires Step(s, now, AddKey(key), s', r) && id != key.id
    ensures (id in s' <==> id in s) && (id in s ==> s'[id] == s[id])
  {
  }

  /** After a successful revocation the key reads Revoked at every instant and is otherwise unchanged; no other key is
      touched. A key that reads anything but Active is not revoked. */
  lemma RevokedReads(
      s: Keys, now: int, id: string, s': Keys, r: Reply, t: int, s1: Keys, r1: Reply, s2: Keys, r2: Reply)
    requires Step(s, now, Revoke(id), s', r) && Step(s, t, Get(id), s1, r1) && Step(s', t, Get(id), s2, r2)
    ensures r == Done ==> r1.Found? && r2 == Found(r1.key.(status := Revoked))
    ensures r != Done ==> r == Failed(KeyNotFound) && s' == s
    ensures r1.Found? && r1.key.status == Active ==> r == Done
    ensures r1.Found? && r1.key.status == Revoked ==> r != Done
    ensures forall x :: x != id && x in s ==> x in s' && s'[x] == s[x]
  {
  }

  /** A usage stamp is the only change it makes. */
  lemma UsedReads(s: Keys, now: int, id: string, s': Keys, r: Reply, t: int, s1: Keys, r1: Reply, s2: Keys, r2: Reply)
    requires Step(s, now, UpdateLastUsed(id), s', r) && Step(s, t, Get(id), s1, r1) && Step(s', t, Get(id), s2, r2)
    ensures r == Done <==> r1.Found?
    ensures r == Done ==> r2 == Found(r1.key.(lastUsedAt := Some(now)))
    ensures forall x :: x != id && x in s ==> x in s' && s'[x] == s[x]
  {
  }

  /** Clean-up removes exactly the ephemeral keys that expired more than thirty minutes ago, in nanoseconds, and
      returns how many that are. */
  lemma CleanupReads(s: Keys, now: int, s': Keys, r: Reply)
    requires Step(s, now, DeleteExpiredEphemeral, s', r)
    ensures forall id :: id in s' <==>
              id in s && !(s[id].ephemeral && s[id].expiresAt != 0 && s[id].expiresAt + 1_800_000_000_000 < now)
    ensures forall id :: id in s' ==> s'[id] == s[id]
    ensures r.Count? && r.n + |s'| == |s|
  {
    var gone := Swept(s, now);
    assert s'.Keys == s.Keys - gone && gone <= s.Keys;
    assert s.Keys == s'.Keys + gone && s'.Keys * gone == {};
    assert |s.Keys| == |s| && |s'.Keys| == |s'|;
  }

  /** A lookup of a hash that only `id` has answers with that key's fields while it is active and not past its
      expiry. */
  lemma LookupReads(s: Keys, now: int, id: string, s': Keys, r: Reply)
    requires UniqueHashes(s) && id in s && Step(s, now, GetByHash(s[id].keyHash), s', r)
    ensures s[id].status == Active && (s[id].expiresAt == 0 || now <= s[id].expiresAt) ==>
            r.Found? && r.key.id == id && r.key.username == s[id].username && r.key.groups == s[id].groups &&
            r.key.subscription == s[id].subscription && r.key.name == s[id].name &&
            r.key.description == s[id].description && r.key.ephemeral == s[id].ephemeral && r.key.status == Active
    ensures !(s[id].status == Active && (s[id].expiresAt == 0 || now <= s[id].expiresAt)) ==> r == Failed(InvalidKey)
    ensures s'.Keys == s.Keys && forall x :: x != id && x in s ==> s'[x] == s[x]
  {
    var x :| Hit(s, now, s[id].keyHash, x, s', r);
  }

  // ---- Validation ----

  /** Every outcome of validating a well-formed key, from what the store holds. */
  lemma ValidationMeaning(s: Keys, now: int, hash: string, s': Keys, r: Reply, isUuid: string -> bool, id: string)
    requires UniqueHashes(s) && Step(s, now, GetByHash(hash), s', r)
    ensures (forall x :: x in s ==> s[x].keyHash != hash) ==> Verdict(r, isUuid) == Invalid("key not found") && s' == s
    ensures id in s && s[id].keyHash == hash ==>
            var k, v := s[id], Verdict(r, isUuid);
            if k.status != Active || (k.expiresAt != 0 && k.expiresAt < now) then v == Invalid("key revoked or expired")
            else if AllSpace(k.subscription) then v == Invalid("key has no subscription bound")
            else if !isUuid(id) then v == BrokenId
            else v == Validation.Valid(id, k.username, k.groups, k.subscription)
  {
    if id in s && s[id].keyHash == hash {
      LookupReads(s, now, id, s', r);
      TrimEmptyIff(s[id].subscription);
    }
  }

  // ---- Lifetimes ----

  /** Lifetimes in nanoseconds: an hour for ephemeral keys; 90 days, or the configured number, for others, which is both
      the cap and what a request without a lifetime gets. */
  lemma LifetimeMeaning(configured: int, requested: Option<Duration>, ephemeral: bool)
    requires configured <= 106_751
    ensures var cap := if ephemeral then 3_600_000_000_000
                       else 86_400_000_000_000 * if configured <= 0 then 90 else configured;
            && (requested.None? ==> LifetimeOf(configured, requested, ephemeral) == For(cap))
            && (requested.Some? && 0 < requested.value <= cap ==>
                  LifetimeOf(configured, requested, ephemeral) == For(requested.value))
            && (requested.Some? && requested.value <= 0 ==>
                  LifetimeOf(configured, requested, ephemeral) == Refused(ExpirationNotPositive))
            && (requested.Some? && requested.value > cap ==>
                  LifetimeOf(configured, requested, ephemeral) == Refused(ExpirationExceedsMax))
  {
    WrapTwice(MaxDays(configured));
    WrapSmall(MaxDays(configured) * DAY);
  }

  lemma WrapSmall(x: int)
    requires -TWO_63 <= x < TWO_63
    ensures Wrap(x) == x
  {
  }

  // ---- Creation ----

  /** The record a successful creation stores, field by field, and that nothing else changes. */
  lemma CreatedRecord(
      service: Service, before: Keys, after: Keys, c: Created, now: int, id: string, life: Lifetime,
      selected: Selector.Result<Selector.Response>, r: Request)
    requires c.Created? && service.Creates(before, after, c, now, id, life, selected, r)
    ensures life.For? && selected.Ok? && id != "" && r.name != "" && selected.value.name != ""
    ensures c.id == id && c.subscription == selected.value.name && c.expiresAt == now + life.duration
    ensures id in after && after == before[id := after[id]]
    ensures var k := after[id];
            && k.username == r.username && k.groups == r.groups && k.name == r.name && k.description == r.description
            && k.subscription == c.subscription && k.ephemeral == r.ephemeral && k.status == Active
            && k.createdAt == now && k.expiresAt == c.expiresAt && k.lastUsedAt == None
            && k.keyHash == HashApiKey(c.key, service.sha)
  {
  }

  /** Why a creation fails, in the order of the checks; a failed one stores nothing. */
  lemma RefusedCreation(
      service: Service, before: Keys, after: Keys, c: Created, now: int, id: string, life: Lifetime,
      selected: Selector.Result<Selector.Response>, r: Request)
    requires service.Creates(before, after, c, now, id, life, selected, r)
    ensures c.NotCreated? <==> life.Refused? || selected.Err? || id == "" || r.name == "" || selected.value.name == ""
    ensures c.NotCreated? ==> after == before
    ensures life.Refused? ==> c == NotCreated(life.error)
    ensures life.For? && selected.Err? ==> c == NotCreated(SelectionFailed(selected.error))
    ensures life.For? && selected.Ok? && id != "" && r.name == "" ==> c == NotCreated(StoreFailed(EmptyName))
  {
  }

  /** The request names `s`, bare or qualified. */
  ghost predicate Names(r: Request, s: Selector.Subscription) {
    r.subscription == s.name || r.subscription == s.ns + "/" + s.name
  }

  ghost predicate Usable(subs: seq<Selector.Subscription>, r: Request, s: Selector.Subscription) {
    s in subs && SelectionMeaning.Owned(s, r.username, r.groups)
  }

  /** Which subscription a created key is bound to: the one the request names, or, when it names none, an owned one
      that no other owned one precedes by priority, largest limit and name. */
  lemma BoundSubscription(
      service: Service, before: Keys, after: Keys, c: Created, now: int, id: string,
      subs: seq<Selector.Subscription>, r: Request)
    requires c.Created?
    requires service.Creates(before, after, c, now, id, LifetimeOf(service.configuredMaxDays, r.expiresIn, r.ephemeral),
                             Binding(subs, r), r)
    ensures r.subscription != "" ==>
            exists s :: Usable(subs, r, s) && s.name == c.subscription && Names(r, s)
    ensures r.subscription == "" ==>
            exists s :: Usable(subs, r, s) && s.name == c.subscription &&
                        forall x :: Usable(subs, r, x) ==> SelectionMeaning.NotAfter(s, x)
  {
    CreationMints(service, before, after, c, now, id, subs, r);
    if r.subscription != "" {
      var s := SelectionMeaning.NamedSource(subs, Selector.Query(r.groups, r.username, r.subscription, ""));
      assert Usable(subs, r, s) && Names(r, s);
    } else {
      SelectionMeaning.HighestMeaning(subs, r.groups, r.username);
    }
  }
}
