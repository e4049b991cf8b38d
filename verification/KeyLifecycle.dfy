/** What holds of an API key over every run of the store: validation refines a ledger that only
    minting and revocation write to, and invalidation is final. */
module KeyLifecycle {
  import opened Strings
  import opened KeyStore

  datatype Event = Event(now: int, op: Op)

  /** A run: `events[i]`, answered by `replies[i]`, leads from `states[i]` to `states[i + 1]`. */
  ghost predicate Run(states: seq<Keys>, events: seq<Event>, replies: seq<Reply>) {
    && |states| == |events| + 1 && |replies| == |events|
    && (forall i :: 0 <= i < |events| ==> Step(states[i], events[i].now, events[i].op, states[i + 1], replies[i]))
    && (forall i, j :: 0 <= i < j < |events| ==> events[i].now <= events[j].now)
  }

  ghost predicate UniqueHashes(s: Keys) {
    forall id, id' :: id in s && id' in s && s[id].keyHash == s[id'].keyHash ==> id == id'
  }

  /** Ids are UUIDs and hashes are salted digests: no `AddKey` reuses either. */
  ghost predicate FreshMints(start: Keys, events: seq<Event>) {
    && UniqueHashes(start)
    && (forall i, id :: 0 <= i < |events| && events[i].op.AddKey? && id in start ==>
          events[i].op.key.id != id && events[i].op.key.keyHash != start[id].keyHash)
    && (forall i, j :: 0 <= i < j < |events| && events[i].op.AddKey? && events[j].op.AddKey? ==>
          events[i].op.key.id != events[j].op.key.id && events[i].op.key.keyHash != events[j].op.key.keyHash)
  }

  // ---- The ledger ----

  ghost predicate LiveIn(s: Keys, id: string, t: int) {
    id in s && Live(s[id], t)
  }

  /** Everything about a key but its bookkeeping. */
  function Grant(k: StoredKey): StoredKey {
    k.(status := Active, lastUsedAt := None)
  }

  ghost predicate AgreeOn(s: Keys, a: Keys, id: string, t: int) {
    LiveIn(s, id, t) == LiveIn(a, id, t) && (LiveIn(s, id, t) ==> Grant(s[id]) == Grant(a[id]))
  }

  /** `s` and `a` hold the same live keys at `t`. */
  ghost predicate Agree(s: Keys, a: Keys, t: int) {
    forall id :: AgreeOn(s, a, id, t)
  }

  function Record(a: Keys, e: Event): Keys {
    match e.op
    case AddKey(key) => if Rejection(key).Some? then a else a[key.id := Fresh(key, e.now)]
    case Revoke(id) => a - {id}
    case InvalidateAll(username) => map id | id in a && a[id].username != username :: a[id]
    case _ => a
  }

  /** The keys minted and not revoked, with no expiry and no clean-up at all. */
  function Ledger(start: Keys, events: seq<Event>): Keys {
    if events == [] then start else Record(Ledger(start, events[..|events| - 1]), events[|events| - 1])
  }

  lemma AgreeLater(s: Keys, a: Keys, t: int, t': int)
    requires Agree(s, a, t) && t <= t'
    ensures Agree(s, a, t')
  {
    forall id ensures AgreeOn(s, a, id, t') {
      assert AgreeOn(s, a, id, t);
    }
  }

  lemma StepRefinesOn(s: Keys, a: Keys, e: Event, s': Keys, r: Reply, id: string)
    requires AgreeOn(s, a, id, e.now) && Step(s, e.now, e.op, s', r)
    ensures AgreeOn(s', Record(a, e), id, e.now)
  {
    match e.op
    case AddKey(key) =>
    case Get(_) =>
    case GetByHash(hash) =>
      if exists i :: i in s && s[i].keyHash == hash {
        var i :| Hit(s, e.now, hash, i, s', r);
      }
    case InvalidateAll(username) =>
    case Revoke(i) =>
    case UpdateLastUsed(i) =>
    case DeleteExpiredEphemeral =>
  }

  /** Each store step does to the live keys what the ledger records. */
  lemma StepRefines(s: Keys, a: Keys, e: Event, s': Keys, r: Reply)
    requires Agree(s, a, e.now) && Step(s, e.now, e.op, s', r)
    ensures Agree(s', Record(a, e), e.now)
  {
    forall id ensures AgreeOn(s', Record(a, e), id, e.now) {
      StepRefinesOn(s, a, e, s', r, id);
    }
  }

  ghost function LastTime(events: seq<Event>, default: int): int {
    if events == [] then default else events[|events| - 1].now
  }

  /** The store refines the ledger after every run. */
  lemma {:induction false} RunRefines(states: seq<Keys>, events: seq<Event>, replies: seq<Reply>, t: int)
    requires Run(states, events, replies) && LastTime(events, t) <= t
    ensures Agree(states[|events|], Ledger(states[0], events), t)
  {
    if events != [] {
      var n := |events| - 1;
      var e := events[n];
      assert Step(states[n], events[n].now, events[n].op, states[n + 1], replies[n]);
      RunRefines(states[..n + 1], events[..n], replies[..n], e.now);
      assert states[..n + 1][n] == states[n];
      StepRefines(states[n], Ledger(states[0], events[..n]), e, states[n + 1], replies[n]);
      AgreeLater(states[n + 1], Ledger(states[0], events), e.now, t);
    }
  }

  lemma RunPrefix(states: seq<Keys>, events: seq<Event>, replies: seq<Reply>, n: nat)
    requires Run(states, events, replies) && n <= |events|
    ensures Run(states[..n + 1], events[..n], replies[..n])
  {
  }

  // ---- Freshness along a run ----

  ghost predicate Comes(start: Keys, events: seq<Event>, n: nat, id: string, hash: string)
    requires n <= |events|
  {
    || (id in start && start[id].keyHash == hash)
    || (exists j :: 0 <= j < n && events[j].op.AddKey? && events[j].op.key.id == id && events[j].op.key.keyHash == hash)
  }

  lemma {:induction false} Provenance(states: seq<Keys>, events: seq<Event>, replies: seq<Reply>, n: nat, id: string)
    requires Run(states, events, replies) && n <= |events| && id in states[n]
    ensures Comes(states[0], events, n, id, states[n][id].keyHash)
  {
    if n > 0 {
      var e := events[n - 1];
      assert Step(states[n - 1], events[n - 1].now, events[n - 1].op, states[n], replies[n - 1]);
      if e.op.AddKey? && e.op.key.id == id && Rejection(e.op.key).None? {
        assert events[n - 1].op.key.keyHash == states[n][id].keyHash;
      } else {
        assert id in states[n - 1] && states[n - 1][id].keyHash == states[n][id].keyHash;
        Provenance(states, events, replies, n - 1, id);
      }
    }
  }

  lemma HashesStayUnique(states: seq<Keys>, events: seq<Event>, replies: seq<Reply>, n: nat)
    requires Run(states, events, replies) && FreshMints(states[0], events) && n <= |events|
    ensures UniqueHashes(states[n])
  {
    forall id, id' | id in states[n] && id' in states[n] && states[n][id].keyHash == states[n][id'].keyHash
      ensures id == id'
    {
      Provenance(states, events, replies, n, id);
      Provenance(states, events, replies, n, id');
    }
  }

  /** A validation finds exactly the live ledger entry with the hash. */
  lemma LookupMatchesLedger(s: Keys, a: Keys, now: int, hash: string, s': Keys, r: Reply)
    requires Agree(s, a, now) && UniqueHashes(s) && Step(s, now, GetByHash(hash), s', r)
    ensures r.Found? <==> exists id :: LiveIn(a, id, now) && a[id].keyHash == hash
    ensures r.Found? ==> LiveIn(a, r.key.id, now) && a[r.key.id].keyHash == hash &&
                         r.key.username == a[r.key.id].username && r.key.groups == a[r.key.id].groups &&
                         r.key.subscription == a[r.key.id].subscription
  {
    if exists id :: id in s && s[id].keyHash == hash {
      var id :| Hit(s, now, hash, id, s', r);
      assert AgreeOn(s, a, id, now);
    }
    forall id | LiveIn(a, id, now) && a[id].keyHash == hash ensures r.Found? {
      assert AgreeOn(s, a, id, now);
      assert id in s && s[id].keyHash == hash;
    }
  }

  // ---- Mint to validate ----

  ghost predicate Withdraws(op: Op, id: string, username: string) {
    op == Revoke(id) || op == InvalidateAll(username)
  }

  lemma {:induction false} LedgerTracks(start: Keys, events: seq<Event>, m: nat, n: nat)
    requires FreshMints(start, events) && m < n <= |events|
    requires events[m].op.AddKey? && Rejection(events[m].op.key).None?
    ensures var key, a := events[m].op.key, Ledger(start, events[..n]);
            && (key.id in a <==> forall i :: m < i < n ==> !Withdraws(events[i].op, key.id, key.username))
            && (key.id in a ==> a[key.id] == Fresh(key, events[m].now))
  {
    var key := events[m].op.key;
    assert events[..n][..n - 1] == events[..n - 1];
    if n - 1 > m {
      LedgerTracks(start, events, m, n - 1);
      assert events[n - 1].op.AddKey? ==> events[n - 1].op.key.id != key.id;
    }
  }

  /** Where a hash in the ledger comes from. */
  lemma {:induction false} LedgerHash(start: Keys, events: seq<Event>, n: nat, id: string)
    requires n <= |events| && id in Ledger(start, events[..n])
    ensures Comes(start, events, n, id, Ledger(start, events[..n])[id].keyHash)
  {
    if n > 0 {
      var e := events[n - 1];
      assert events[..n][..n - 1] == events[..n - 1];
      if e.op.AddKey? && e.op.key.id == id && Rejection(e.op.key).None? {
        assert events[n - 1].op.key.keyHash == Ledger(start, events[..n])[id].keyHash;
      } else {
        LedgerHash(start, events, n - 1, id);
      }
    } else {
      assert events[..0] == [];
    }
  }

  /** A minted key validates later exactly while it is unexpired and neither it nor its owner
      was revoked, always for the identity it was minted with. */
  lemma MintToValidate(states: seq<Keys>, events: seq<Event>, replies: seq<Reply>, m: nat, v: nat)
    requires Run(states, events, replies) && FreshMints(states[0], events)
    requires m < v < |events| && events[m].op.AddKey? && replies[m] == Done
    requires events[v].op == GetByHash(events[m].op.key.keyHash)
    requires events[m].op.key.expiresAt != Some(ZERO_TIME)
    ensures var key := events[m].op.key;
            && (replies[v].Found? <==>
                (key.expiresAt.Some? ==> events[v].now <= key.expiresAt.value) &&
                forall i :: m < i < v ==> !Withdraws(events[i].op, key.id, key.username))
            && (replies[v].Found? ==>
                replies[v].key.id == key.id && replies[v].key.username == key.username &&
                replies[v].key.groups == key.groups && replies[v].key.subscription == key.subscription)
  {
    var key, now := events[m].op.key, events[v].now;
    assert Step(states[m], events[m].now, events[m].op, states[m + 1], replies[m]);
    var a := Ledger(states[0], events[..v]);
    RunPrefix(states, events, replies, v);
    assert LastTime(events[..v], now) <= now;
    RunRefines(states[..v + 1], events[..v], replies[..v], now);
    assert states[..v + 1][v] == states[v];
    HashesStayUnique(states, events, replies, v);
    assert Step(states[v], events[v].now, events[v].op, states[v + 1], replies[v]);
    LookupMatchesLedger(states[v], a, now, key.keyHash, states[v + 1], replies[v]);
    LedgerTracks(states[0], events, m, v);
    forall id | id in a && a[id].keyHash == key.keyHash ensures id == key.id {
      LedgerHash(states[0], events, v, id);
    }
    assert LiveIn(a, key.id, now) <==> replies[v].Found?;
  }

  // ---- Invalidation is final ----

  ghost predicate Dead(s: Keys, hash: string, t: int) {
    forall id :: id in s && s[id].keyHash == hash ==> !Live(s[id], t)
  }

  ghost predicate Mints(op: Op, hash: string) {
    op.AddKey? && op.key.keyHash == hash
  }

  lemma DeadStaysDead(s: Keys, hash: string, t: int, e: Event, s': Keys, r: Reply)
    requires Dead(s, hash, t) && t <= e.now && !Mints(e.op, hash)
    requires Step(s, e.now, e.op, s', r)
    ensures Dead(s', hash, e.now) && (e.op == GetByHash(hash) ==> !r.Found?)
  {
  }

  lemma {:induction false} DeadForever(
      states: seq<Keys>, events: seq<Event>, replies: seq<Reply>, hash: string, t: int, i: nat, j: nat)
    requires Run(states, events, replies) && i <= j < |events| && Dead(states[i], hash, t) && t <= events[i].now
    requires forall k :: i <= k <= j ==> !Mints(events[k].op, hash)
    ensures Dead(states[j + 1], hash, events[j].now) && (events[j].op == GetByHash(hash) ==> !replies[j].Found?)
  {
    assert Step(states[j], events[j].now, events[j].op, states[j + 1], replies[j]);
    if i == j {
      DeadStaysDead(states[i], hash, t, events[j], states[j + 1], replies[j]);
    } else {
      DeadForever(states, events, replies, hash, t, i, j - 1);
      DeadStaysDead(states[j], hash, events[j - 1].now, events[j], states[j + 1], replies[j]);
    }
  }

  /** Step `i` rejected `hash`, revoked its key, or revoked everything of its owner. */
  ghost predicate Invalidates(s: Keys, op: Op, r: Reply, hash: string) {
    match op
    case GetByHash(h) => h == hash && r == Failed(InvalidKey)
    case Revoke(id) => r == Done && id in s && s[id].keyHash == hash
    case InvalidateAll(username) => exists id :: id in s && s[id].keyHash == hash && s[id].username == username
    case _ => false
  }

  lemma InvalidatesKills(s: Keys, e: Event, s': Keys, r: Reply, hash: string)
    requires UniqueHashes(s) && Step(s, e.now, e.op, s', r) && Invalidates(s, e.op, r, hash)
    ensures Dead(s', hash, e.now) && exists id :: id in s && s[id].keyHash == hash
  {
  }

  /** Once a key is revoked or rejected as revoked or expired, its hash never validates again. */
  lemma InvalidationIsFinal(states: seq<Keys>, events: seq<Event>, replies: seq<Reply>, hash: string, i: nat, j: nat)
    requires Run(states, events, replies) && FreshMints(states[0], events)
    requires i < j < |events| && Invalidates(states[i], events[i].op, replies[i], hash)
    ensures events[j].op == GetByHash(hash) ==> !replies[j].Found?
  {
    HashesStayUnique(states, events, replies, i);
    assert Step(states[i], events[i].now, events[i].op, states[i + 1], replies[i]);
    InvalidatesKills(states[i], events[i], states[i + 1], replies[i], hash);
    var id :| id in states[i] && states[i][id].keyHash == hash;
    Provenance(states, events, replies, i, id);
    DeadForever(states, events, replies, hash, events[i].now, i + 1, j);
  }

  // ---- Housekeeping is unobservable to validity ----

  predicate Housekeeping(op: Op) {
    op.GetByHash? || op.Get? || op.UpdateLastUsed? || op.DeleteExpiredEphemeral?
  }

  function Essential(events: seq<Event>): seq<Event> {
    if events == [] then []
    else
      var rest, e := Essential(events[..|events| - 1]), events[|events| - 1];
      if Housekeeping(e.op) then rest else rest + [e]
  }

  lemma LedgerOfHousekeeping(a: Keys, e: Event)
    requires Housekeeping(e.op)
    ensures Record(a, e) == a
  {
  }

  lemma LedgerSnoc(start: Keys, events: seq<Event>, e: Event)
    ensures Ledger(start, events + [e]) == Record(Ledger(start, events), e)
  {
    assert (events + [e])[..|events|] == events;
  }

  lemma {:induction false} LedgerOfEssential(start: Keys, events: seq<Event>)
    ensures Ledger(start, Essential(events)) == Ledger(start, events)
  {
    if events != [] {
      var e, rest := events[|events| - 1], Essential(events[..|events| - 1]);
      LedgerOfEssential(start, events[..|events| - 1]);
      if Housekeeping(e.op) {
        LedgerOfHousekeeping(Ledger(start, rest), e);
      } else {
        LedgerSnoc(start, rest, e);
      }
    }
  }

  /** Two runs that mint and revoke alike, whatever lookups, lazy expiries, usage stamps and
      clean-ups they interleave, agree on every later validation. */
  lemma HousekeepingIsInvisible(
      states: seq<Keys>, events: seq<Event>, replies: seq<Reply>,
      states': seq<Keys>, events': seq<Event>, replies': seq<Reply>,
      now: int, hash: string, s: Keys, r: Reply, s': Keys, r': Reply)
    requires Run(states, events, replies) && Run(states', events', replies')
    requires states[0] == states'[0] && Essential(events) == Essential(events')
    requires FreshMints(states[0], events) && FreshMints(states[0], events')
    requires LastTime(events, now) <= now && LastTime(events', now) <= now
    requires Step(states[|events|], now, GetByHash(hash), s, r)
    requires Step(states'[|events'|], now, GetByHash(hash), s', r')
    ensures r.Found? == r'.Found?
    ensures r.Found? ==> r.key.id == r'.key.id && r.key.username == r'.key.username &&
                         r.key.groups == r'.key.groups && r.key.subscription == r'.key.subscription
  {
    var a := Ledger(states[0], events);
    LedgerOfEssential(states[0], events);
    LedgerOfEssential(states[0], events');
    RunRefines(states, events, replies, now);
    RunRefines(states', events', replies', now);
    HashesStayUnique(states, events, replies, |events|);
    HashesStayUnique(states', events', replies', |events'|);
    LookupMatchesLedger(states[|events|], a, now, hash, s, r);
    LookupMatchesLedger(states'[|events'|], a, now, hash, s', r');
    if r.Found? {
      var k, k' := r.key.id, r'.key.id;
      assert AgreeOn(states[|events|], a, k, now) && AgreeOn(states[|events|], a, k', now);
    }
  }

  /** The write-back of lazy expiry changes no key's effective status, now or later. */
  lemma WriteBackKeepsStatus(k: StoredKey, now: int, t: int)
    requires now <= t
    ensures Effective(WriteBack(k, now), t) == Effective(k, t)
    ensures Effective(k, t) == SqlEffectiveStatus(ToRow(k), t)
  {
  }

  /** Clean-up removes exactly the rows of the SQL delete, all ephemeral and dead for good. */
  lemma CleanupRemovesOnlyTheDead(s: Keys, now: int, s': Keys, r: Reply, id: string, t: int)
    requires Step(s, now, DeleteExpiredEphemeral, s', r) && id in s && now <= t
    ensures id !in s' <==> SqlDeletes(ToRow(s[id]), now)
    ensures id !in s' ==> s[id].ephemeral && !Live(s[id], t)
    ensures id in s' ==> s'[id] == s[id]
  {
  }

  /** The write-back of one key changes the reply of a later `Revoke` exactly when it is about that key and the key
      was active and lapsed: then the revoke fails where it would have succeeded. Validity is the same either way. */
  lemma WriteBackVisibleToRevoke(
      s: Keys, id: string, now: int, x: string, t: int, s1: Keys, r1: Reply, s2: Keys, r2: Reply)
    requires id in s && Step(s, t, Revoke(x), s1, r1)
    requires Step(s[id := WriteBack(s[id], now)], t, Revoke(x), s2, r2)
    ensures r1 != r2 <==> x == id && s[id].status.Active? && Lapsed(s[id], now)
    ensures r1 != r2 ==> r1 == Done && r2 == Failed(KeyNotFound)
    ensures forall y, u :: now <= u ==> LiveIn(s1, y, u) == LiveIn(s2, y, u)
  {
  }

  // ---- Bulk revocation is a fold ----

  function RevokeEach(s: Keys, ids: seq<string>): (Keys, nat) {
    if ids == [] then (s, 0)
    else
      var (rest, n) := RevokeEach(s, ids[..|ids| - 1]);
      var id := ids[|ids| - 1];
      (RevokeOne(rest, id), if id in rest && rest[id].status.Active? then n + 1 else n)
  }

  lemma {:induction false} RevokeEachAt(s: Keys, ids: seq<string>, id: string)
    ensures id in RevokeEach(s, ids).0 <==> id in s
    ensures id in s ==> RevokeEach(s, ids).0[id] ==
                        if id in ids && s[id].status.Active? then s[id].(status := Revoked) else s[id]
  {
    if ids != [] {
      RevokeEachAt(s, ids[..|ids| - 1], id);
      assert ids == ids[..|ids| - 1] + [ids[|ids| - 1]];
    }
  }

  function ActiveAmong(s: Keys, ids: seq<string>): set<string> {
    set id | id in ids && id in s && s[id].status.Active?
  }

  lemma {:induction false} RevokeEachCounts(s: Keys, ids: seq<string>)
    ensures RevokeEach(s, ids).1 == |ActiveAmong(s, ids)|
  {
    if ids != [] {
      var init, last := ids[..|ids| - 1], ids[|ids| - 1];
      RevokeEachCounts(s, init);
      RevokeEachAt(s, init, last);
      assert ids == init + [last];
      if last in s && s[last].status.Active? && last !in init {
        assert ActiveAmong(s, ids) == ActiveAmong(s, init) + {last};
      } else {
        assert ActiveAmong(s, ids) == ActiveAmong(s, init);
      }
    }
  }

  /** `InvalidateAll` is `Revoke` on the owner's keys, in any order and with any repetition:
      same keys afterwards, and it counts the revokes that succeed. */
  lemma BulkRevocationIsAFold(s: Keys, username: string, ids: seq<string>, s': Keys, r: Reply, now: int)
    requires forall id :: id in ids <==> id in s && s[id].username == username
    requires Step(s, now, InvalidateAll(username), s', r)
    ensures RevokeEach(s, ids).0 == s' && r == Count(RevokeEach(s, ids).1)
    ensures forall id, t :: id in s && s[id].username != username ==> Effective(s'[id], t) == Effective(s[id], t)
  {
    forall id ensures id in RevokeEach(s, ids).0 <==> id in s {
      RevokeEachAt(s, ids, id);
    }
    forall id | id in s ensures RevokeEach(s, ids).0[id] == s'[id] {
      RevokeEachAt(s, ids, id);
    }
    assert RevokeEach(s, ids).0 == s';
    RevokeEachCounts(s, ids);
    assert ActiveAmong(s, ids) == ActiveOwned(s, username);
  }
}
