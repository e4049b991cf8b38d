/** Minting and validating API keys (maas-api/internal/api_keys/service.go) on top of the codec, the store and the
    subscription selector. The clock, the entropy, the UUID, SHA-256 and the UUID parser are parameters. */
module KeyService {
  import opened Strings
  import opened KeyCodec
  import opened KeyStore
  import opened KeyLifecycle
  import Selector

  const HOUR := 3_600_000_000_000
  const DAY := 24 * HOUR
  const DEFAULT_MAX_DAYS := 90
  const TWO_63 := 0x8000_0000_0000_0000

  /** `time.Duration`: nanoseconds in an int64. */
  type Duration = x: int | -TWO_63 <= x < TWO_63

  /** int64 arithmetic wraps around. */
  function Wrap(x: int): Duration {
    (x + TWO_63) % (2 * TWO_63) - TWO_63
  }

  function MaxDays(configured: int): int {
    if configured > 0 then configured else DEFAULT_MAX_DAYS
  }

  function MaxRegular(configured: int): Duration {
    Wrap(Wrap(MaxDays(configured) * 24) * HOUR)
  }

  datatype CreateError =
    | ExpirationNotPositive
    | ExpirationExceedsMax
    | SelectionFailed(selection: Selector.SelectError)
    | StoreFailed(store: KeyStore.Error)

  datatype Lifetime = For(duration: Duration) | Refused(error: CreateError)

  /** The expiry checks of `CreateAPIKey`. */
  function LifetimeOf(configured: int, requested: Option<Duration>, ephemeral: bool): Lifetime {
    var d := if requested.Some? then requested.value else if ephemeral then HOUR else MaxRegular(configured);
    if d <= 0 then Refused(ExpirationNotPositive)
    else if ephemeral && d > HOUR then Refused(ExpirationExceedsMax)
    else if !ephemeral && d > MaxRegular(configured) then Refused(ExpirationExceedsMax)
    else For(d)
  }

  lemma WrapTwice(x: int)
    ensures Wrap(Wrap(x * 24) * HOUR) == Wrap(x * DAY)
  {
    var q := (x * 24 + TWO_63) / (2 * TWO_63);
    assert Wrap(x * 24) == x * 24 - q * (2 * TWO_63);
    assert Wrap(x * 24) * HOUR == x * DAY - q * HOUR * (2 * TWO_63);
    WrapShift(x * DAY, q * HOUR);
  }

  lemma WrapShift(x: int, k: int)
    ensures Wrap(x - k * (2 * TWO_63)) == Wrap(x)
  {
  }

  /** An accepted lifetime is positive and within the cap, for every configuration, overflow included. */
  lemma LifetimeBounds(configured: int, requested: Option<Duration>, ephemeral: bool)
    ensures var l := LifetimeOf(configured, requested, ephemeral);
            l.For? ==> 0 < l.duration <= if ephemeral then HOUR else MaxDays(configured) * DAY
  {
    WrapTwice(MaxDays(configured));
  }

  /** The cap means what it says, for every request, exactly up to 106751 days; beyond that the product overflows
      an int64 and long requests are refused that the configuration allows. */
  lemma CapIsExactIff(configured: int)
    requires configured > 0
    ensures (forall d: Duration :: LifetimeOf(configured, Some(d), false).For? <==> 0 < d <= configured * DAY)
            <==> configured <= 106_751
  {
    WrapTwice(configured);
    if configured > 106_751 {
      var d: Duration := TWO_63 - 1;
      WrapIsEven(configured);
      assert d <= configured * DAY;
      assert !LifetimeOf(configured, Some(d), false).For?;
    }
  }

  lemma WrapIsEven(days: int)
    ensures Wrap(days * DAY) != TWO_63 - 1
  {
    var h := days * 12 * HOUR;
    assert days * DAY == 2 * h;
    var q := (2 * h + TWO_63) / (2 * TWO_63);
    assert Wrap(2 * h) == 2 * (h - q * TWO_63);
  }

  datatype Request = Request(
    username: string, groups: seq<string>, name: string, description: string, expiresIn: Option<Duration>,
    ephemeral: bool, subscription: string)

  datatype Created =
    | Created(key: string, prefix: string, id: string, subscription: string, expiresAt: int)
    | NotCreated(error: CreateError)

  datatype Validation =
    | Valid(userId: string, username: string, groups: seq<string>, subscription: string)
    | Invalid(reason: string)
    | BrokenId

  /** `Select` for an explicit request, else the highest priority. */
  function Binding(subs: seq<Selector.Subscription>, r: Request): Selector.Result<Selector.Response> {
    if r.subscription != "" then Selector.Selected(subs, Selector.Query(r.groups, r.username, r.subscription, ""))
    else Selector.HighestPriority(subs, r.groups, r.username)
  }

  function Minted(id: string, hash: string, subscription: string, expiresAt: int, r: Request): NewKey {
    NewKey(id, r.username, hash, r.name, r.description, r.groups, subscription, Some(expiresAt), r.ephemeral)
  }

  /** What `ValidateAPIKey` makes of the store's answer. */
  function Verdict(reply: Reply, isUuid: string -> bool): Validation {
    match reply
    case Found(k) =>
      if Trim(k.subscription) == "" then Invalid("key has no subscription bound")
      else if !isUuid(k.id) then BrokenId
      else Validation.Valid(k.id, k.username, k.groups, k.subscription)
    case Failed(KeyNotFound) => Invalid("key not found")
    case _ => Invalid("key revoked or expired")
  }

  method CheckExpiry(configured: int, requested: Option<Duration>, ephemeral: bool) returns (l: Lifetime)
    ensures l == LifetimeOf(configured, requested, ephemeral)
  {
    var maxRegular: Duration := MaxRegular(configured);
    var expiresIn: Duration := maxRegular;
    if requested.Some? {
      expiresIn := requested.value;
    } else if ephemeral {
      expiresIn := HOUR;
    }
    if expiresIn <= 0 { return Refused(ExpirationNotPositive); }
    if ephemeral {
      if expiresIn > HOUR { return Refused(ExpirationExceedsMax); }
    } else if expiresIn > maxRegular {
      return Refused(ExpirationExceedsMax);
    }
    return For(expiresIn);
  }

  /** The key is the printed form of this entropy. */
  ghost predicate Carries(key: string, idEntropy: seq<byte>, secretEntropy: seq<byte>) {
    var k := ParseApiKey(key);
    k.Key? && Encodes(k.keyId, idEntropy) && Encodes(k.secret, secretEntropy)
  }

  method NewSecret(idEntropy: seq<byte>, secretEntropy: seq<byte>, sha: string -> string)
    returns (key: string, hash: string, prefix: string)
    requires |idEntropy| == KEY_ID_BYTES && |secretEntropy| == ENTROPY_BYTES
    ensures IsValidKeyFormat(key) && hash == HashApiKey(key, sha) && prefix == DisplayPrefix(key)
    ensures Carries(key, idEntropy, secretEntropy)
  {
    key, hash, prefix := GenerateApiKey(idEntropy, secretEntropy, sha);
  }

  method Bind(subs: seq<Selector.Subscription>, r: Request) returns (selected: Selector.Result<Selector.Response>)
    ensures selected == Binding(subs, r)
  {
    if r.subscription != "" {
      selected := Selector.Select(subs, Selector.Query(r.groups, r.username, r.subscription, ""));
    } else {
      selected := Selector.SelectHighestPriority(subs, r.groups, r.username);
    }
  }

  class Service {
    const store: MockStore
    const configuredMaxDays: int
    const sha: string -> string
    const isUuid: string -> bool

    constructor (store: MockStore, configuredMaxDays: int, sha: string -> string, isUuid: string -> bool)
      ensures this.store == store && this.configuredMaxDays == configuredMaxDays && this.sha == sha &&
              this.isUuid == isUuid
    {
      this.store, this.configuredMaxDays, this.sha, this.isUuid := store, configuredMaxDays, sha, isUuid;
    }

    /** What a request with this lifetime and this answer of the selector does to the store and returns. */
    ghost predicate Creates(before: Keys, after: Keys, c: Created, now: int, id: string, life: Lifetime,
                            selected: Selector.Result<Selector.Response>, r: Request) {
      if life.Refused? then c == NotCreated(life.error) && after == before
      else if selected.Err? then c == NotCreated(SelectionFailed(selected.error)) && after == before
      else
        var rejection := Rejection(Minted(id, "", selected.value.name, now + life.duration, r));
        if rejection.Some? then c == NotCreated(StoreFailed(rejection.value)) && after == before
        else
          && c.Created? && IsValidKeyFormat(c.key) && c.prefix == DisplayPrefix(c.key) && c.id == id
          && c.subscription == selected.value.name && c.expiresAt == now + life.duration
          && after == before[id := Fresh(Minted(id, HashApiKey(c.key, sha), c.subscription, c.expiresAt, r), now)]
    }

    /** `subs` is what the subscription lister returns. */
    method CreateApiKey(now: int, id: string, idEntropy: seq<byte>, secretEntropy: seq<byte>,
                        subs: seq<Selector.Subscription>, r: Request) returns (c: Created)
      requires |idEntropy| == KEY_ID_BYTES && |secretEntropy| == ENTROPY_BYTES
      modifies store
      ensures Creates(old(store.keys), store.keys, c, now, id,
                      LifetimeOf(configuredMaxDays, r.expiresIn, r.ephemeral), Binding(subs, r), r)
      ensures c.Created? ==> Carries(c.key, idEntropy, secretEntropy)
    {
      var life := CheckExpiry(configuredMaxDays, r.expiresIn, r.ephemeral);
      if life.Refused? { return NotCreated(life.error); }
      var key, hash, prefix := NewSecret(idEntropy, secretEntropy, sha);
      var selected := Bind(subs, r);
      if selected.Err? { return NotCreated(SelectionFailed(selected.error)); }
      c := Finish(now, id, key, hash, prefix, life, selected, r);
    }

    /** Storing the key under the selected subscription. */
    method Finish(now: int, id: string, key: string, hash: string, prefix: string, life: Lifetime,
                  selected: Selector.Result<Selector.Response>, r: Request) returns (c: Created)
      requires life.For? && selected.Ok?
      requires IsValidKeyFormat(key) && hash == HashApiKey(key, sha) && prefix == DisplayPrefix(key)
      modifies store
      ensures Creates(old(store.keys), store.keys, c, now, id, life, selected, r)
      ensures c.Created? ==> c.key == key
    {
      var expiresAt := now + life.duration;
      var reply := Save(now, Minted(id, hash, selected.value.name, expiresAt, r));
      if reply.Failed? { return NotCreated(StoreFailed(reply.error)); }
      return Created.Created(key, prefix, id, selected.value.name, expiresAt);
    }

    method Save(now: int, key: NewKey) returns (reply: Reply)
      modifies store
      ensures if Rejection(key).Some? then reply == Failed(Rejection(key).value) && store.keys == old(store.keys)
              else reply == Done && store.keys == old(store.keys)[key.id := Fresh(key, now)]
    {
      reply := store.AddKey(now, key);
    }

    /** The `last_used_at` update it spawns is a later step of the store. */
    method ValidateApiKey(now: int, key: string) returns (v: Validation, ghost reply: Reply)
      modifies store
      ensures !IsValidKeyFormat(key) || HashApiKey(key, sha) == "" ==>
              v == Invalid("invalid key format") && store.keys == old(store.keys)
      ensures IsValidKeyFormat(key) && HashApiKey(key, sha) != "" ==>
              Step(old(store.keys), now, GetByHash(HashApiKey(key, sha)), store.keys, reply) &&
              v == Verdict(reply, isUuid)
    {
      reply := Failed(InvalidKey);
      if !IsValidKeyFormat(key) { return Invalid("invalid key format"), reply; }
      var hash := HashApiKey(key, sha);
      if hash == "" { return Invalid("invalid key format"), reply; }
      var found := store.GetByHash(now, hash);
      reply := found;
      LookupReplies(old(store.keys), now, hash, store.keys, found);
      if found.Failed? {
        if found.error == KeyNotFound { return Invalid("key not found"), reply; }
        return Invalid("key revoked or expired"), reply;
      }
      var k := found.key;
      if Trim(k.subscription) == "" { return Invalid("key has no subscription bound"), reply; }
      if !isUuid(k.id) { return BrokenId, reply; }
      return Validation.Valid(k.id, k.username, k.groups, k.subscription), reply;
    }
  }

  lemma LookupReplies(s: Keys, now: int, hash: string, s': Keys, r: Reply)
    requires Step(s, now, GetByHash(hash), s', r)
    ensures r.Found? || r == Failed(KeyNotFound) || r == Failed(InvalidKey)
  {
  }

  /** From minting to validation over a whole run: the plaintext validates at a later instant exactly while it is
      unexpired and neither it nor its owner was revoked, for the identity and subscription it was minted with. */
  lemma MintedKeyValidates(
      states: seq<Keys>, events: seq<Event>, replies: seq<Reply>, m: nat, v: nat,
      key: string, r: Request, subscription: string, life: Duration, id: string,
      sha: string -> string, isUuid: string -> bool)
    requires Run(states, events, replies) && FreshMints(states[0], events) && m < v < |events|
    requires 0 < events[m].now && 0 < life && Trim(subscription) != "" && isUuid(id) && IsValidKeyFormat(key)
    requires events[m].op == AddKey(Minted(id, HashApiKey(key, sha), subscription, events[m].now + life, r)) &&
             replies[m] == Done
    requires events[v].op == GetByHash(HashApiKey(key, sha))
    ensures Verdict(replies[v], isUuid).Valid? ==>
            Verdict(replies[v], isUuid) == Validation.Valid(id, r.username, r.groups, subscription)
    ensures Verdict(replies[v], isUuid).Valid? <==>
            events[v].now <= events[m].now + life && forall i :: m < i < v ==> !Withdraws(events[i].op, id, r.username)
  {
    MintToValidate(states, events, replies, m, v);
    assert Step(states[v], events[v].now, events[v].op, states[v + 1], replies[v]);
    LookupReplies(states[v], events[v].now, HashApiKey(key, sha), states[v + 1], replies[v]);
  }

  /** The `AddKey` of a successful creation. */
  function MintOf(c: Created, id: string, r: Request, sha: string -> string): Op
    requires c.Created?
  {
    AddKey(Minted(id, HashApiKey(c.key, sha), c.subscription, c.expiresAt, r))
  }

  /** A successful `CreateApiKey` is one `AddKey` step of the store, for the subscription of the binding and a lifetime
      within the bounds. */
  lemma CreationMints(
      service: Service, before: Keys, after: Keys, c: Created, now: int, id: string,
      subs: seq<Selector.Subscription>, r: Request)
    requires c.Created?
    requires service.Creates(before, after, c, now, id, LifetimeOf(service.configuredMaxDays, r.expiresIn, r.ephemeral),
                             Binding(subs, r), r)
    ensures Step(before, now, MintOf(c, id, r, service.sha), after, Done) && IsValidKeyFormat(c.key) && c.id == id
    ensures Binding(subs, r).Ok? && c.subscription == Binding(subs, r).value.name
    ensures 0 < c.expiresAt - now <= if r.ephemeral then HOUR else MaxDays(service.configuredMaxDays) * DAY
  {
    LifetimeBounds(service.configuredMaxDays, r.expiresIn, r.ephemeral);
    CreationSteps(service, before, after, c, now, id, LifetimeOf(service.configuredMaxDays, r.expiresIn, r.ephemeral),
                  Binding(subs, r), r);
  }

  lemma CreationSteps(
      service: Service, before: Keys, after: Keys, c: Created, now: int, id: string, life: Lifetime,
      selected: Selector.Result<Selector.Response>, r: Request)
    requires c.Created? && service.Creates(before, after, c, now, id, life, selected, r)
    ensures Step(before, now, MintOf(c, id, r, service.sha), after, Done) && IsValidKeyFormat(c.key) && c.id == id
    ensures selected.Ok? && c.subscription == selected.value.name && life.For? && c.expiresAt == now + life.duration
  {
  }

  /** Mint to validate, for any lifetime and any answer of the selector. */
  lemma CreationValidates(
      states: seq<Keys>, events: seq<Event>, replies: seq<Reply>, m: nat, v: nat, service: Service, c: Created,
      id: string, life: Lifetime, selected: Selector.Result<Selector.Response>, r: Request)
    requires Run(states, events, replies) && FreshMints(states[0], events) && m < v < |events| && 0 < events[m].now
    requires c.Created? && events[m].op == MintOf(c, id, r, service.sha)
    requires service.Creates(states[m], states[m + 1], c, events[m].now, id, life, selected, r)
    requires life.For? && 0 < life.duration && Trim(c.subscription) != "" && service.isUuid(id)
    requires events[v].op == GetByHash(HashApiKey(c.key, service.sha))
    ensures Verdict(replies[v], service.isUuid).Valid? ==>
            Verdict(replies[v], service.isUuid) == Validation.Valid(c.id, r.username, r.groups, c.subscription)
    ensures Verdict(replies[v], service.isUuid).Valid? <==>
            events[v].now <= c.expiresAt && forall i :: m < i < v ==> !Withdraws(events[i].op, id, r.username)
  {
    StepHolds(states, events, replies, m);
    CreationSteps(service, states[m], states[m + 1], c, events[m].now, id, life, selected, r);
    MintReply(states[m], events[m].now, c, id, r, service.sha, states[m + 1], replies[m]);
    MintedKeyValidates(states, events, replies, m, v, c.key, r, c.subscription, life.duration, id, service.sha,
                       service.isUuid);
  }

  /** From `CreateApiKey` to `ValidateApiKey` over a whole run: the key created at event `m` validates at event `v`
      exactly while it is unexpired and neither it nor its owner was revoked, always for the user, groups and
      subscription it was created with, and it expires within the bounds. */
  lemma CreatedKeyValidates(
      states: seq<Keys>, events: seq<Event>, replies: seq<Reply>, m: nat, v: nat,
      service: Service, c: Created, id: string, subs: seq<Selector.Subscription>, r: Request)
    requires Run(states, events, replies) && FreshMints(states[0], events) && m < v < |events| && 0 < events[m].now
    requires c.Created? && events[m].op == MintOf(c, id, r, service.sha)
    requires service.Creates(states[m], states[m + 1], c, events[m].now, id,
                             LifetimeOf(service.configuredMaxDays, r.expiresIn, r.ephemeral), Binding(subs, r), r)
    requires Trim(c.subscription) != "" && service.isUuid(id)
    requires events[v].op == GetByHash(HashApiKey(c.key, service.sha))
    ensures Verdict(replies[v], service.isUuid).Valid? ==>
            Verdict(replies[v], service.isUuid) == Validation.Valid(c.id, r.username, r.groups, c.subscription)
    ensures Verdict(replies[v], service.isUuid).Valid? <==>
            events[v].now <= c.expiresAt && forall i :: m < i < v ==> !Withdraws(events[i].op, id, r.username)
    ensures 0 < c.expiresAt - events[m].now <= if r.ephemeral then HOUR else MaxDays(service.configuredMaxDays) * DAY
    ensures Binding(subs, r).Ok? && c.subscription == Binding(subs, r).value.name
  {
    CreationMints(service, states[m], states[m + 1], c, events[m].now, id, subs, r);
    CreationValidates(states, events, replies, m, v, service, c, id,
                      LifetimeOf(service.configuredMaxDays, r.expiresIn, r.ephemeral), Binding(subs, r), r);
  }

  lemma StepHolds(states: seq<Keys>, events: seq<Event>, replies: seq<Reply>, i: nat)
    requires Run(states, events, replies) && i < |events|
    ensures Step(states[i], events[i].now, events[i].op, states[i + 1], replies[i])
  {
  }

  /** A mint has one reply. */
  lemma MintReply(s: Keys, now: int, c: Created, id: string, r: Request, sha: string -> string, s': Keys, reply: Reply)
    requires c.Created? && Step(s, now, MintOf(c, id, r, sha), s', Done)
    requires Step(s, now, MintOf(c, id, r, sha), s', reply)
    ensures reply == Done
  {
  }

  /** The bound subscription is one the user may use. */
  lemma BindingIsAccessible(subs: seq<Selector.Subscription>, r: Request) returns (s: Selector.Subscription)
    requires Binding(subs, r).Ok?
    ensures s in subs && Selector.UserHasAccess(s, r.username, r.groups) &&
            Binding(subs, r) == Selector.Ok(Selector.ToResponse(s))
  {
    if r.subscription != "" {
      s := Selector.SelectedSource(subs, Selector.Query(r.groups, r.username, r.subscription, ""));
    } else {
      s := Selector.HighestPrioritySource(subs, r.groups, r.username);
    }
  }
}
