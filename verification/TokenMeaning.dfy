/** What one reconcile of a MaaSSubscription leaves and reports, in terms of the objects in the cluster
    (maas-controller/pkg/controller/maas/maassubscription_controller.go). */
module TokenMeaning {
  import opened Strings
  import opened Sorting
  import opened Cluster
  import opened TokenLimits
  import opened Phases
  import opened Subscriptions
  import AuthMeaning
  import TokenConvergence

  // ---- Rates ----

  /** A number of seconds, minutes or hours of at most 366 days, in one to four digits without a leading zero. */
  ghost predicate Window(w: string) {
    exists digits, n: nat, unit ::
      && w == digits + [unit] && Denotes(digits, n) && |digits| <= 4 && digits != "" && digits[0] != '0'
      && (unit == 's' || unit == 'm' || (unit == 'h' && n <= 8784))
  }

  /** `digits` is a decimal numeral of `n`. */
  ghost predicate Denotes(digits: string, n: nat)
    decreases |digits|
  {
    if digits == "" then n == 0
    else
      var last := digits[|digits| - 1];
      '0' <= last <= '9' && n % 10 == last as int - '0' as int && Denotes(digits[..|digits| - 1], n / 10)
  }

  lemma {:induction false} DenotesIff(digits: string, n: nat)
    ensures Denotes(digits, n) <==> IsDecimal(digits) && DecimalValue(digits) == n
    decreases |digits|
  {
    if digits != "" {
      DenotesIff(digits[..|digits| - 1], n / 10);
      if IsDecimal(digits) && DecimalValue(digits) == n {
        assert n / 10 == DecimalValue(digits[..|digits| - 1]);
      }
      if Denotes(digits, n) {
        assert forall i :: 0 <= i < |digits| - 1 ==> digits[i] == digits[..|digits| - 1][i];
      }
    }
  }

  ghost predicate Acceptable(r: RateLimit) {
    1 <= r.limit <= 1_000_000_000 && Window(r.window)
  }

  lemma WindowIff(w: string)
    ensures Window(w) <==> WindowPattern(w) && WindowSeconds(w) <= MAX_WINDOW_SECONDS
  {
    if digits, n: nat, unit :| w == digits + [unit] && Denotes(digits, n) && |digits| <= 4 && digits != "" &&
                               digits[0] != '0' && (unit == 's' || unit == 'm' || (unit == 'h' && n <= 8784))
    {
      DenotesIff(digits, n);
      assert w[..|w| - 1] == digits;
      DecimalBound(digits);
    }
    if WindowPattern(w) && WindowSeconds(w) <= MAX_WINDOW_SECONDS {
      var digits, unit := w[..|w| - 1], w[|w| - 1];
      DenotesIff(digits, DecimalValue(digits));
      assert w == digits + [unit];
    }
  }

  lemma AcceptableIff(r: RateLimit)
    ensures Acceptable(r) <==> ValidRate(r)
  {
    WindowIff(r.window);
  }

  ghost predicate AllAcceptable(rates: seq<RateLimit>) {
    forall k :: 0 <= k < |rates| ==> Acceptable(rates[k])
  }

  lemma AllAcceptableIff(rates: seq<RateLimit>)
    ensures AllAcceptable(rates) <==> ValidRates(rates)
  {
    forall k | 0 <= k < |rates| ensures Acceptable(rates[k]) <==> ValidRate(rates[k]) {
      AcceptableIff(rates[k]);
    }
  }

  /** Reference `i` is the first to the model whose rates are all acceptable. */
  ghost predicate FirstUsable(refs: seq<SubRef>, key: Key, i: int) {
    && 0 <= i < |refs| && refs[i].key == key && AllAcceptable(refs[i].limits)
    && forall j :: 0 <= j < i && refs[j].key == key ==> !AllAcceptable(refs[j].limits)
  }

  /** `rates` are all the rates of that reference, in order; 100 a minute when it has none. */
  ghost predicate RatesAre(refs: seq<SubRef>, key: Key, rates: seq<RateLimit>) {
    exists i :: FirstUsable(refs, key, i) &&
                if refs[i].limits == [] then rates == [RateLimit(100, "1m")]
                else |rates| == |refs[i].limits| && forall k :: 0 <= k < |rates| ==> rates[k] == refs[i].limits[k]
  }

  lemma {:induction false} UsableFrom(refs: seq<SubRef>, key: Key, from: nat)
    requires from <= |refs| && forall j :: 0 <= j < from && refs[j].key == key ==> !AllAcceptable(refs[j].limits)
    ensures EffectiveRates(refs[from..], key).Some? ==> RatesAre(refs, key, EffectiveRates(refs[from..], key).value)
    ensures EffectiveRates(refs[from..], key).None? ==>
            forall i :: 0 <= i < |refs| && refs[i].key == key ==> !AllAcceptable(refs[i].limits)
    decreases |refs| - from
  {
    if from < |refs| {
      assert refs[from..][0] == refs[from] && refs[from..][1..] == refs[from + 1..];
      AllAcceptableIff(refs[from].limits);
      if refs[from].key == key && AllAcceptable(refs[from].limits) {
        assert FirstUsable(refs, key, from);
      } else {
        UsableFrom(refs, key, from + 1);
      }
    }
  }

  lemma FirstUsableUnique(refs: seq<SubRef>, key: Key, i: int, j: int)
    requires FirstUsable(refs, key, i) && FirstUsable(refs, key, j)
    ensures i == j
  {
    assert !(i < j) && !(j < i);
  }

  /** The rates a subscription contributes to a model: none if and only if every reference to it has a rate that is not
      acceptable, else all rates of the first reference that has none such. */
  lemma RatesIff(refs: seq<SubRef>, key: Key, rates: seq<RateLimit>)
    ensures EffectiveRates(refs, key) == Some(rates) <==> RatesAre(refs, key, rates)
    ensures EffectiveRates(refs, key) == None <==>
            forall i :: 0 <= i < |refs| && refs[i].key == key ==>
              exists k :: 0 <= k < |refs[i].limits| && !Acceptable(refs[i].limits[k])
  {
    assert refs[0..] == refs;
    UsableFrom(refs, key, 0);
    if RatesAre(refs, key, rates) {
      var i :| FirstUsable(refs, key, i) &&
               if refs[i].limits == [] then rates == [RateLimit(100, "1m")]
               else |rates| == |refs[i].limits| && forall k :: 0 <= k < |rates| ==> rates[k] == refs[i].limits[k];
      assert EffectiveRates(refs, key).Some?;
      var v := EffectiveRates(refs, key).value;
      var j :| FirstUsable(refs, key, j) &&
               if refs[j].limits == [] then v == [RateLimit(100, "1m")]
               else |v| == |refs[j].limits| && forall k :: 0 <= k < |v| ==> v[k] == refs[j].limits[k];
      FirstUsableUnique(refs, key, i, j);
      assert v == rates;
    }
  }

  // ---- Subscriptions of a model ----

  /** `n` is a live subscription with a reference to the model. */
  ghost predicate Subscribes(s: State, n: string, key: Key) {
    && n in s.subscriptions && !s.subscriptions[n].deleting
    && exists i :: 0 <= i < |s.subscriptions[n].refs| && s.subscriptions[n].refs[i].key == key
  }

  ghost predicate Limits(s: State, n: string, key: Key, rates: seq<RateLimit>) {
    Subscribes(s, n, key) && RatesAre(s.subscriptions[n].refs, key, rates)
  }

  lemma RefKeysAt(refs: seq<SubRef>, key: Key)
    ensures key in RefKeys(refs) <==> exists i :: 0 <= i < |refs| && refs[i].key == key
  {
    if i :| 0 <= i < |refs| && refs[i].key == key {
      assert RefKeys(refs)[i] == key;
    }
  }

  lemma SubscribesIff(s: State, n: string, key: Key)
    ensures Subscribes(s, n, key) <==> n in LiveSubs(s, key)
  {
    if n in s.subscriptions {
      RefKeysAt(s.subscriptions[n].refs, key);
    }
  }

  lemma LimitsIff(s: State, n: string, key: Key, rates: seq<RateLimit>)
    ensures Limits(s, n, key, rates) <==>
            n in EffectiveSubs(s, key) && EffectiveRates(s.subscriptions[n].refs, key) == Some(rates)
  {
    SubscribesIff(s, n, key);
    if n in s.subscriptions {
      RatesIff(s.subscriptions[n].refs, key, rates);
    }
  }

  lemma EffectiveIff(s: State, n: string, key: Key)
    ensures n in EffectiveSubs(s, key) <==> exists rates :: Limits(s, n, key, rates)
  {
    if n in EffectiveSubs(s, key) {
      LimitsIff(s, n, key, EffectiveRates(s.subscriptions[n].refs, key).value);
    }
    if rates :| Limits(s, n, key, rates) {
      LimitsIff(s, n, key, rates);
    }
  }

  ghost predicate Needed(s: State, key: Key) {
    exists n, rates :: Limits(s, n, key, rates)
  }

  lemma NeededIff(s: State, key: Key)
    ensures Needed(s, key) <==> EffectiveSubs(s, key) != {}
  {
    if n :| n in EffectiveSubs(s, key) {
      EffectiveIff(s, n, key);
    }
    if n, rates :| Limits(s, n, key, rates) {
      LimitsIff(s, n, key, rates);
    }
  }

  /** The name of an entry and the key a request must carry to be counted by it. */
  function EntryName(s: State, n: string, key: Key): string {
    s.namespace + "-" + n + "-" + key.name + "-tokens"
  }

  function RequestKey(s: State, n: string, key: Key): string {
    s.namespace + "/" + n + "@" + key.ns + "/" + key.name
  }

  lemma EntryTexts(s: State, n: string, key: Key)
    requires WellNamed(s) && n in s.subscriptions
    ensures LimitKey(s.namespace, n, key) == EntryName(s, n, key)
    ensures SubscriptionKey(s.namespace, n, key) == RequestKey(s, n, key)
  {
    FlattenedName(s.namespace, n);
  }

  /** `t` has one entry for each subscription that limits the model, with its rates and its request key, and no other;
      names those subscriptions in order; and targets the model's route, which controls it. */
  ghost predicate Enforces(s: State, key: Key, t: TokenPolicy) {
    && (forall n, rates :: Limits(s, n, key, rates) ==>
          EntryName(s, n, key) in t.limits &&
          t.limits[EntryName(s, n, key)] == LimitEntry(rates, RequestKey(s, n, key)))
    && (forall name :: name in t.limits ==> exists n, rates :: Limits(s, n, key, rates) && name == EntryName(s, n, key))
    && (exists names :: StrictlyIncreasing(names) && t.contributors == Join(names, ',') &&
                        forall n :: n in names <==> exists rates :: Limits(s, n, key, rates))
    && key in s.routes && t.route == s.routes[key] == t.owner
  }

  lemma AggregateEnforces(s: State, key: Key, managed: Option<string>, accepted: bool)
    requires WellNamed(s) && Resolve(s, key).Route?
    ensures Enforces(s, key, Aggregate(s, key, managed, accepted))
  {
    var t := Aggregate(s, key, managed, accepted);
    forall n, rates | Limits(s, n, key, rates)
      ensures EntryName(s, n, key) in t.limits
      ensures t.limits[EntryName(s, n, key)] == LimitEntry(rates, RequestKey(s, n, key))
    {
      LimitsIff(s, n, key, rates);
      EntryTexts(s, n, key);
      LimitAt(s, key, n);
    }
    forall name | name in t.limits ensures exists n, rates :: Limits(s, n, key, rates) && name == EntryName(s, n, key) {
      var n := LimitSource(s, key, name);
      EffectiveIff(s, n, key);
      EntryTexts(s, n, key);
    }
    AggregateNamesEffective(s, key);
  }

  lemma AggregateNamesEffective(s: State, key: Key)
    ensures var names := Arranged(EffectiveSubs(s, key));
            StrictlyIncreasing(names) && forall n :: n in names <==> exists rates :: Limits(s, n, key, rates)
  {
    var names := Arranged(EffectiveSubs(s, key));
    forall n ensures n in names <==> exists rates :: Limits(s, n, key, rates) {
      assert n in names <==> n in Elems(names);
      EffectiveIff(s, n, key);
    }
  }

  // ---- One reference ----

  ghost predicate OptedOut(cur: Option<TokenPolicy>) {
    cur.Some? && cur.value.managed == Some("false")
  }

  ghost predicate Foreign(s: State, key: Key, cur: Option<TokenPolicy>) {
    cur.Some? && key in s.routes && cur.value.owner != s.routes[key]
  }

  /** Reconciling a reference to `key` is an error: a live subscription references a model of unknown kind, or a policy
      that is needed and not opted out is controlled by another route. */
  ghost predicate Erring(s: State, key: Key) {
    || (AuthMeaning.OddKind(s, key) && exists n :: Subscribes(s, n, key))
    || (AuthMeaning.Served(s, key) && Needed(s, key) && !OptedOut(s.trlps.Get(key)) &&
        Foreign(s, key, s.trlps.Get(key)))
  }

  lemma AnySubscriber(s: State, key: Key)
    ensures (exists n :: Subscribes(s, n, key)) <==> LiveSubs(s, key) != {}
  {
    forall n ensures Subscribes(s, n, key) <==> n in LiveSubs(s, key) {
      SubscribesIff(s, n, key);
    }
    if LiveSubs(s, key) != {} {
      var n :| n in LiveSubs(s, key);
    }
  }

  lemma ErringIff(s: State, key: Key)
    ensures Erring(s, key) <==> Errs(s, key)
  {
    AuthMeaning.Resolution(s, key);
    AnySubscriber(s, key);
    NeededIff(s, key);
  }

  ghost predicate Removed(cur: Option<TokenPolicy>, after: Option<TokenPolicy>) {
    after == if OptedOut(cur) then cur else None
  }

  /** What reconciling a reference to `key` leaves. A policy annotated "false", and no other, is left as it is. On a
      served model the policy enforces the limits if there are any and is removed otherwise; it is removed for a model
      that is gone, and for one without a route that nobody references; else it stays. */
  ghost predicate Rebuilt(s: State, key: Key, cur: Option<TokenPolicy>, after: Option<TokenPolicy>) {
    if OptedOut(cur) then after == cur
    else if AuthMeaning.Served(s, key) && Needed(s, key) then
      && after.Some? && Enforces(s, key, after.value)
      && after.value.managed == (if cur.Some? then cur.value.managed else None)
      && after.value.accepted == (cur.Some? && cur.value.accepted)
    else if AuthMeaning.Served(s, key) || AuthMeaning.Gone(s, key) || !exists n :: Subscribes(s, n, key) then
      after == None
    else after == cur
  }

  lemma RebuiltByRef(s: State, key: Key)
    requires WellNamed(s) && !Erring(s, key)
    ensures Rebuilt(s, key, s.trlps.Get(key), AfterRef(s, key, s.trlps.Get(key)))
  {
    var cur := s.trlps.Get(key);
    AuthMeaning.Resolution(s, key);
    AnySubscriber(s, key);
    NeededIff(s, key);
    ErringIff(s, key);
    if AuthMeaning.Served(s, key) && !OptedOut(cur) && Needed(s, key) {
      AggregateEnforces(s, key, if cur.Some? then cur.value.managed else None, cur.Some? && cur.value.accepted);
    }
  }

  ghost predicate Named(cur: Option<TokenPolicy>, n: string) {
    cur.Some? && n in Split(cur.value.contributors, ',')
  }

  // ---- One reconcile ----

  /** The subscription references the model. */
  ghost predicate Refers(s: State, n: string, key: Key) {
    n in s.subscriptions && exists i :: 0 <= i < |s.subscriptions[n].refs| && s.subscriptions[n].refs[i].key == key
  }

  ghost predicate NoErrors(s: State, n: string) {
    forall key :: Refers(s, n, key) ==> !Erring(s, key)
  }

  lemma NoErrorsIff(s: State, n: string)
    requires n in s.subscriptions
    ensures NoErrors(s, n) <==> Complete(s, RefKeys(s.subscriptions[n].refs))
  {
    var refs := s.subscriptions[n].refs;
    CompleteIff(s, RefKeys(refs));
    forall key ensures Erring(s, key) <==> Errs(s, key) {
      ErringIff(s, key);
    }
    if NoErrors(s, n) {
      forall i | 0 <= i < |refs| ensures !Errs(s, RefKeys(refs)[i]) {
        assert Refers(s, n, refs[i].key);
      }
    }
    if Complete(s, RefKeys(refs)) {
      forall key | Refers(s, n, key) ensures !Erring(s, key) {
        var i :| 0 <= i < |refs| && refs[i].key == key;
        assert RefKeys(refs)[i] == key;
      }
    }
  }

  /** Without an error: the references are rebuilt, and policies that name the subscription but are no longer referenced
      are removed; nothing else changes. */
  ghost predicate Passed(s: State, n: string, key: Key, after: Option<TokenPolicy>) {
    if Refers(s, n, key) then Rebuilt(s, key, s.trlps.Get(key), after)
    else if Named(s.trlps.Get(key), n) then Removed(s.trlps.Get(key), after)
    else after == s.trlps.Get(key)
  }

  lemma PassMeaning(s: State, n: string, key: Key)
    requires WellNamed(s) && n in s.subscriptions && NoErrors(s, n)
    ensures Passed(s, n, key, AfterPass(s, n, RefKeys(s.subscriptions[n].refs), key))
  {
    NoErrorsIff(s, n);
    RefKeysAt(s.subscriptions[n].refs, key);
    if Refers(s, n, key) {
      RebuiltByRef(s, key);
    }
  }

  /** Some referenced model exists. */
  ghost predicate SomeModel(s: State, n: string) {
    exists key :: Refers(s, n, key) && key in s.models
  }

  lemma SomeModelIff(s: State, n: string)
    requires n in s.subscriptions
    ensures SomeModel(s, n) <==> HasValidModels(s, RefKeys(s.subscriptions[n].refs))
  {
    var refs := s.subscriptions[n].refs;
    if key :| Refers(s, n, key) && key in s.models {
      var i :| 0 <= i < |refs| && refs[i].key == key;
      assert RefKeys(refs)[i] in s.models;
    }
    if HasValidModels(s, RefKeys(refs)) {
      var i :| 0 <= i < |RefKeys(refs)| && RefKeys(refs)[i] in s.models;
      assert Refers(s, n, refs[i].key);
    }
  }

  /** A live subscription without an error: with a model that exists its references are rebuilt, without one only the
      clean-up happens. */
  lemma LiveReconcile(s: State, n: string, s': State, key: Key)
    requires WellNamed(s) && Reconciles(s, n, s') && n in s.subscriptions && !s.subscriptions[n].deleting
    requires SomeModel(s, n) ==> NoErrors(s, n)
    ensures if SomeModel(s, n) then Passed(s, n, key, s'.trlps.Get(key))
            else if !Refers(s, n, key) && Named(s.trlps.Get(key), n) then Removed(s.trlps.Get(key), s'.trlps.Get(key))
            else s'.trlps.Get(key) == s.trlps.Get(key)
    ensures n in s'.subscriptions && s'.subscriptions == s.subscriptions[n := s'.subscriptions[n]]
    ensures s'.subscriptions[n] == s.subscriptions[n].(finalizer := true, status := s'.subscriptions[n].status)
  {
    SomeModelIff(s, n);
    var keys := RefKeys(s.subscriptions[n].refs);
    if SomeModel(s, n) {
      assert s'.trlps.Get(key) == AfterPass(s, n, keys, key);
      PassMeaning(s, n, key);
    } else {
      assert s'.trlps.Get(key) == Cleaned(s.trlps.Get(key), key, n, keys);
      RefKeysAt(s.subscriptions[n].refs, key);
    }
  }

  /** Deleting a subscription does the same and then drops it, unless there is an error, which keeps it. */
  lemma DeletingReconcile(s: State, n: string, s': State, key: Key)
    requires WellNamed(s) && Reconciles(s, n, s') && n in s.subscriptions && s.subscriptions[n].deleting
    ensures !s.subscriptions[n].finalizer ==> s' == s
    ensures s.subscriptions[n].finalizer && NoErrors(s, n) ==>
            Passed(s, n, key, s'.trlps.Get(key)) && s'.subscriptions == s.subscriptions - {n}
    ensures s.subscriptions[n].finalizer && !NoErrors(s, n) ==> s'.subscriptions == s.subscriptions
  {
    NoErrorsIff(s, n);
    if s.subscriptions[n].finalizer {
      assert s'.trlps.Get(key) == AfterPass(s, n, RefKeys(s.subscriptions[n].refs), key);
      if NoErrors(s, n) {
        PassMeaning(s, n, key);
      }
    }
  }

  lemma {:induction false} FirstErrorStops(s: State, keys: seq<Key>, i: nat)
    requires i < |keys| && Errs(s, keys[i]) && forall j :: 0 <= j < i ==> !Errs(s, keys[j])
    ensures Reached(s, keys) == keys[..i]
  {
    ReachedPrefix(s, keys, i);
  }

  /** With the first error at reference `i`: the references before it are rebuilt and nothing else changes. */
  lemma ErringReconcile(s: State, n: string, s': State, i: nat, key: Key)
    requires WellNamed(s) && Reconciles(s, n, s') && n in s.subscriptions && i < |s.subscriptions[n].refs|
    requires if s.subscriptions[n].deleting then s.subscriptions[n].finalizer else SomeModel(s, n)
    requires Erring(s, s.subscriptions[n].refs[i].key)
    requires forall j :: 0 <= j < i ==> !Erring(s, s.subscriptions[n].refs[j].key)
    ensures if exists j :: 0 <= j < i && s.subscriptions[n].refs[j].key == key
            then Rebuilt(s, key, s.trlps.Get(key), s'.trlps.Get(key))
            else s'.trlps.Get(key) == s.trlps.Get(key)
  {
    var refs := s.subscriptions[n].refs;
    var keys := RefKeys(refs);
    SomeModelIff(s, n);
    forall j | 0 <= j < |refs| ensures Erring(s, refs[j].key) <==> Errs(s, keys[j]) {
      ErringIff(s, refs[j].key);
    }
    FirstErrorStops(s, keys, i);
    assert |keys[..i]| != |keys|;
    assert s'.trlps.Get(key) == AfterPass(s, n, keys, key);
    assert key in keys[..i] <==> exists j :: 0 <= j < i && refs[j].key == key;
    if key in keys[..i] {
      RebuiltByRef(s, key);
    }
  }

  /** The opt-out, exactly: when a reconcile without errors gets to a served model whose policy no other route controls,
      and which some subscription limits, the policy enforces the limits afterwards if and only if it is not annotated
      "false", or it did already. */
  lemma OptOutIff(s: State, n: string, s': State, key: Key, cur: TokenPolicy)
    requires WellNamed(s) && Reconciles(s, n, s') && Refers(s, n, key) && NoErrors(s, n)
    requires s.subscriptions[n].deleting ==> s.subscriptions[n].finalizer
    requires AuthMeaning.Served(s, key) && Needed(s, key) && s.trlps.Get(key) == Some(cur) && cur.owner == s.routes[key]
    ensures s'.trlps.Get(key).Some?
    ensures Enforces(s, key, s'.trlps.Get(key).value) <==> cur.managed != Some("false") || Enforces(s, key, cur)
  {
    if s.subscriptions[n].deleting {
      DeletingReconcile(s, n, s', key);
    } else {
      LiveReconcile(s, n, s', key);
    }
    assert Rebuilt(s, key, Some(cur), s'.trlps.Get(key));
  }

  // ---- The status ----

  /** The model is usable as far as the controller can tell: it exists, is not being deleted, and its route, if its kind
      says where to look for one, exists. */
  ghost predicate Backed(s: State, key: Key) {
    key in s.models && !s.models[key].deleting && (s.models[key].knownKind ==> key in s.routes)
  }

  /** The model is served and its policy exists and is accepted. */
  ghost predicate Enforcing(s: State, key: Key) {
    AuthMeaning.Served(s, key) && key in s.trlps.items && s.trlps.items[key].accepted
  }

  /** Why an entry is or is not Ready. */
  lemma LimitReasons(s: State, key: Key)
    ensures LimitStatusOf(s, key).reason == BackendNotReady <==> !Backed(s, key)
    ensures LimitStatusOf(s, key).reason == GetFailed <==> AuthMeaning.OddKind(s, key)
    ensures LimitStatusOf(s, key).reason == NotFound <==> AuthMeaning.Served(s, key) && key !in s.trlps.items
    ensures LimitStatusOf(s, key).reason == Accepted <==> Enforcing(s, key)
    ensures LimitStatusOf(s, key).reason == NotAccepted <==>
            AuthMeaning.Served(s, key) && key in s.trlps.items && !s.trlps.items[key].accepted
  {
    AuthMeaning.Resolution(s, key);
  }

  lemma LimitReadyIff(s: State, key: Key)
    ensures LimitStatusOf(s, key).ready <==> Enforcing(s, key)
    ensures LimitStatusOf(s, key).model == key.name && LimitStatusOf(s, key).ns == key.ns
    ensures key in s.models && LimitStatusOf(s, key).reason != BackendNotReady <==> Backed(s, key)
  {
    AuthMeaning.Resolution(s, key);
  }

  ghost predicate ListedIn(refs: seq<SubRef>, key: Key) {
    exists i :: 0 <= i < |refs| && refs[i].key == key
  }

  /** Entry by entry: the two lists have one entry for each referenced model, in the same order, Ready exactly when the
      model is backed and when its policy is in force. */
  ghost predicate Reports(s: State, refs: seq<SubRef>, st: SubStatus) {
    && |st.models| == |st.limits|
    && (forall i :: 0 <= i < |st.models| ==>
          var key := st.models[i].key;
          && ListedIn(refs, key) && (st.models[i].ready <==> Backed(s, key))
          && st.models[i].reason == (if Backed(s, key) then Valid else NotFound)
          && st.limits[i].model == key.name && st.limits[i].ns == key.ns && (st.limits[i].ready <==> Enforcing(s, key))
          && (st.limits[i].reason == BackendNotReady <==> !Backed(s, key))
          && (st.limits[i].reason == GetFailed <==> AuthMeaning.OddKind(s, key))
          && (st.limits[i].reason == NotFound <==> AuthMeaning.Served(s, key) && key !in s.trlps.items)
          && (st.limits[i].reason == Accepted <==> Enforcing(s, key)))
    && (forall i, j :: 0 <= i < j < |st.models| ==> st.models[i].key != st.models[j].key)
    && (forall key :: ListedIn(refs, key) ==> exists i :: 0 <= i < |st.models| && st.models[i].key == key)
  }

  lemma StatusReports(s: State, refs: seq<SubRef>)
    ensures Reports(s, refs, StatusOf(s, RefKeys(refs)))
  {
    var keys := RefKeys(refs);
    var st, d := StatusOf(s, keys), Distinct(keys);
    forall i | 0 <= i < |d|
      ensures st.models[i].key == d[i] && ListedIn(refs, d[i]) && (st.models[i].ready <==> Backed(s, d[i]))
      ensures st.models[i].reason == if Backed(s, d[i]) then Valid else NotFound
      ensures st.limits[i] == LimitStatusOf(s, d[i])
    {
      assert d[i] in keys;
      RefKeysAt(refs, d[i]);
      ContradictedIff(s, keys, d[i]);
      LimitReadyIff(s, d[i]);
    }
    forall i | 0 <= i < |d|
      ensures (st.limits[i].ready <==> Enforcing(s, d[i]))
      ensures st.limits[i].model == d[i].name && st.limits[i].ns == d[i].ns
      ensures (st.limits[i].reason == BackendNotReady <==> !Backed(s, d[i]))
      ensures (st.limits[i].reason == GetFailed <==> AuthMeaning.OddKind(s, d[i]))
      ensures (st.limits[i].reason == NotFound <==> AuthMeaning.Served(s, d[i]) && d[i] !in s.trlps.items)
      ensures (st.limits[i].reason == Accepted <==> Enforcing(s, d[i]))
    {
      LimitReadyIff(s, d[i]);
      LimitReasons(s, d[i]);
    }
    forall key | ListedIn(refs, key) ensures exists i :: 0 <= i < |st.models| && st.models[i].key == key {
      RefKeysAt(refs, key);
      var i :| 0 <= i < |d| && d[i] == key;
      assert st.models[i].key == key;
    }
  }

  ghost predicate DistinctNames(refs: seq<SubRef>) {
    forall i, j :: 0 <= i < |refs| && 0 <= j < |refs| && refs[i].key.name == refs[j].key.name ==>
      refs[i].key == refs[j].key
  }

  /** Active: there is a reference and every referenced model is served with an accepted policy. Failed, with distinct
      bare names: no referenced model is backed. Degraded: anything else. */
  lemma PhaseMeaning(s: State, refs: seq<SubRef>)
    ensures StatusOf(s, RefKeys(refs)).phase == Active <==>
            refs != [] && forall key :: ListedIn(refs, key) ==> Enforcing(s, key)
    ensures DistinctNames(refs) ==>
            (StatusOf(s, RefKeys(refs)).phase == Failed <==> forall key :: ListedIn(refs, key) ==> !Backed(s, key))
    ensures StatusOf(s, RefKeys(refs)).phase in {Active, Degraded, Failed}
  {
    var st := StatusOf(s, RefKeys(refs));
    StatusReports(s, refs);
    ActiveMeaning(s, refs, st);
    ActiveIff(st.models, st.limits);
    if DistinctNames(refs) {
      FailedMeaning(s, refs);
    }
  }

  lemma ActiveMeaning(s: State, refs: seq<SubRef>, st: SubStatus)
    requires Reports(s, refs, st)
    ensures st.models != [] && (forall i :: 0 <= i < |st.models| ==> st.models[i].ready) &&
            (forall i :: 0 <= i < |st.limits| ==> st.limits[i].ready) <==>
            refs != [] && forall key :: ListedIn(refs, key) ==> Enforcing(s, key)
  {
    if refs != [] {
      assert ListedIn(refs, refs[0].key);
    }
    if refs != [] && forall key :: ListedIn(refs, key) ==> Enforcing(s, key) {
      forall i | 0 <= i < |st.models| ensures st.models[i].ready && st.limits[i].ready {
        assert Enforcing(s, st.models[i].key);
      }
    }
    if st.models != [] {
      assert ListedIn(refs, st.models[0].key);
    }
  }

  lemma FailedMeaning(s: State, refs: seq<SubRef>)
    requires DistinctNames(refs)
    ensures StatusOf(s, RefKeys(refs)).phase == Failed <==> forall key :: ListedIn(refs, key) ==> !Backed(s, key)
  {
    var keys := RefKeys(refs);
    var st := StatusOf(s, keys);
    StatusReports(s, refs);
    ReportedNames(s, refs, st);
    FailedIff(st.models, st.limits);
    forall m | m in st.models && m.ready ensures Backed(s, m.key) && ListedIn(refs, m.key) {
      var i :| 0 <= i < |st.models| && st.models[i] == m;
    }
    forall m, t | m in st.models && m.ready && t in st.limits && t.model == m.key.name ensures !BackendMissing(t) {
      var i :| 0 <= i < |st.models| && st.models[i] == m;
      var key := LimitStatusSource(s, keys, t);
      RefKeysAt(refs, key);
      LimitReadyIff(s, key);
      assert key == m.key;
    }
    if key :| ListedIn(refs, key) && Backed(s, key) {
      var i :| 0 <= i < |st.models| && st.models[i].key == key;
      assert st.models[i] in st.models;
    }
  }

  lemma ReportedNames(s: State, refs: seq<SubRef>, st: SubStatus)
    requires DistinctNames(refs) && Reports(s, refs, st)
    ensures DistinctModelNames(st.models) && DistinctLimitNames(st.limits)
  {
  }

  /** The model statuses before the back-propagation. */
  lemma FirstStatuses(s: State, n: string)
    requires n in s.subscriptions
    ensures var models := ModelStatuses(s, RefKeys(s.subscriptions[n].refs));
            && (forall i :: 0 <= i < |models| ==> (models[i].ready <==> models[i].key in s.models))
            && (forall key :: Refers(s, n, key) <==> exists i :: 0 <= i < |models| && models[i].key == key)
  {
    var refs := s.subscriptions[n].refs;
    var models, d := ModelStatuses(s, RefKeys(refs)), Distinct(RefKeys(refs));
    assert forall i :: 0 <= i < |d| ==> models[i].key == d[i];
    forall key ensures Refers(s, n, key) <==> exists i :: 0 <= i < |models| && models[i].key == key {
      RefKeysAt(refs, key);
      if key in d {
        var i :| 0 <= i < |d| && d[i] == key;
        assert models[i].key == key;
      }
      if i :| 0 <= i < |models| && models[i].key == key {
        assert d[i] in d;
      }
    }
  }

  /** The status a reconcile writes: it reports the cluster as the reconcile leaves it; after an error it is Failed. */
  lemma StatusMeaning(s: State, n: string, s': State)
    requires WellNamed(s) && Reconciles(s, n, s') && n in s.subscriptions && !s.subscriptions[n].deleting
    ensures n in s'.subscriptions
    ensures SomeModel(s, n) && !NoErrors(s, n) ==>
            var st := s'.subscriptions[n].status;
            && st.phase == Failed && st.limits == s.subscriptions[n].status.limits
            && (forall i :: 0 <= i < |st.models| ==> (st.models[i].ready <==> st.models[i].key in s.models))
            && (forall key :: Refers(s, n, key) <==> exists i :: 0 <= i < |st.models| && st.models[i].key == key)
    ensures !SomeModel(s, n) || NoErrors(s, n) ==>
            var st, refs := s'.subscriptions[n].status, s.subscriptions[n].refs;
            && Reports(s', refs, st)
            && (st.phase == Active <==> refs != [] && forall key :: ListedIn(refs, key) ==> Enforcing(s', key))
            && (DistinctNames(refs) ==>
                  (st.phase == Failed <==> forall key :: ListedIn(refs, key) ==> !Backed(s', key)))
  {
    var refs := s.subscriptions[n].refs;
    NoErrorsIff(s, n);
    SomeModelIff(s, n);
    StatusesIgnore(s.(trlps := s'.trlps), s', RefKeys(refs));
    StatusReports(s', refs);
    PhaseMeaning(s', refs);
    FirstStatuses(s, n);
  }
}
