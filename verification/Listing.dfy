/** GET /v1/models: concurrent access probes and the aggregation of their answers
    (maas-api/internal/models/discovery.go, maas-api/internal/handlers/models.go). A probe is an arbitrary fixed
    function; `None` is a denied or failed one. */
module Listing {
  import opened Strings
  import opened Sorting
  import Selector

  datatype SubInfo = SubInfo(name: string, displayName: string, description: string)

  datatype Model = Model(
    id: string, created: int, ownedBy: string, kind: string, url: Option<string>, ready: bool,
    details: Option<string>, subscriptions: seq<SubInfo>)

  datatype Discovered = Discovered(id: string, created: int)

  type Probe = (Model, string) -> Option<seq<Discovered>>

  datatype ModelKey = ModelKey(id: string, url: string, ownedBy: string)

  function KeyOf(m: Model): ModelKey {
    ModelKey(m.id, if m.url.Some? then m.url.value else "", m.ownedBy)
  }

  // ---- One probe ----

  function Renamed(d: Discovered, original: Model): Model {
    Model(d.id, if d.created == 0 then original.created else d.created, original.ownedBy, original.kind, original.url,
          original.ready, original.details, [])
  }

  function NamedModels(ds: seq<Discovered>, original: Model): seq<Model> {
    if ds == [] then []
    else NamedModels(ds[..|ds| - 1], original) +
         (if ds[|ds| - 1].id == "" then [] else [Renamed(ds[|ds| - 1], original)])
  }

  function Converted(ds: seq<Discovered>, original: Model): seq<Model> {
    var named := NamedModels(ds, original);
    if named == [] then [original] else named
  }

  /** `discoveredToModels`. */
  method DiscoveredToModels(ds: seq<Discovered>, original: Model) returns (out: seq<Model>)
    ensures out == Converted(ds, original)
  {
    if ds == [] { return [original]; }
    out := [];
    for i := 0 to |ds|
      invariant out == NamedModels(ds[..i], original)
    {
      assert ds[..i + 1][..i] == ds[..i];
      if ds[i].id != "" {
        var created := ds[i].created;
        if created == 0 {
          created := original.created;
        }
        out := out + [Model(ds[i].id, created, original.ownedBy, original.kind, original.url, original.ready,
                            original.details, [])];
      }
    }
    assert ds[..|ds|] == ds;
    if out == [] { return [original]; }
  }

  /** What one model contributes to the listing of subscription `sub`. */
  function Block(m: Model, sub: string, probe: Probe): seq<Model> {
    if m.kind == "ExternalModel" then (if m.ready then [m] else [])
    else if m.url.None? then []
    else match probe(m, sub)
      case None => []
      case Some(ds) => Converted(ds, m)
  }

  lemma {:induction false} NamedOwner(ds: seq<Discovered>, original: Model)
    ensures forall m :: m in NamedModels(ds, original) ==> m.ownedBy == original.ownedBy
  {
    if ds != [] {
      NamedOwner(ds[..|ds| - 1], original);
    }
  }

  /** The namespace and name of the MaaSModelRef are never taken from the backend. */
  lemma BlockOwner(m: Model, sub: string, probe: Probe)
    ensures forall x :: x in Block(m, sub, probe) ==> x.ownedBy == m.ownedBy
  {
    if m.kind != "ExternalModel" && m.url.Some? && probe(m, sub).Some? {
      NamedOwner(probe(m, sub).value, m);
    }
  }

  // ---- All probes of one subscription, in any interleaving ----

  predicate InRange(order: seq<nat>, n: nat) {
    forall j :: 0 <= j < |order| ==> order[j] < n
  }

  function Blocks(models: seq<Model>, order: seq<nat>, sub: string, probe: Probe): seq<Model>
    requires InRange(order, |models|)
  {
    if order == [] then []
    else Blocks(models, order[..|order| - 1], sub, probe) + Block(models[order[|order| - 1]], sub, probe)
  }

  /** The first `i` models were started; those in `pending` have not answered, those in `order` have appended
      their blocks in that order, and the others contribute nothing. */
  ghost predicate Running(models: seq<Model>, sub: string, probe: Probe, i: nat, pending: set<nat>, order: seq<nat>) {
    && i <= |models| && InRange(order, i)
    && (forall j, k :: 0 <= j < k < |order| ==> order[j] != order[k])
    && (forall j :: j in pending ==> j < i && j !in order)
    && (forall j :: 0 <= j < i && j !in order && j !in pending ==> Block(models[j], sub, probe) == [])
  }

  ghost predicate Interleaving(order: seq<nat>, models: seq<Model>, sub: string, probe: Probe) {
    Running(models, sub, probe, |models|, {}, order)
  }

  lemma Start(models: seq<Model>, sub: string, probe: Probe, i: nat, pending: set<nat>, order: seq<nat>)
    requires Running(models, sub, probe, i, pending, order) && i < |models|
    ensures Running(models, sub, probe, i + 1, pending + {i}, order)
  {
    assert i !in order;
  }

  lemma Answer(models: seq<Model>, sub: string, probe: Probe, i: nat, pending: set<nat>, order: seq<nat>, j: nat)
    requires Running(models, sub, probe, i, pending, order) && j in pending
    ensures Running(models, sub, probe, i, pending - {j}, order + [j])
    ensures Blocks(models, order + [j], sub, probe) == Blocks(models, order, sub, probe) + Block(models[j], sub, probe)
    ensures Block(models[j], sub, probe) == [] ==> Running(models, sub, probe, i, pending - {j}, order)
  {
    assert (order + [j])[..|order|] == order;
  }

  /** A model answered by the loop itself, without a probe. */
  lemma Immediate(models: seq<Model>, sub: string, probe: Probe, i: nat, pending: set<nat>, order: seq<nat>)
    requires Running(models, sub, probe, i, pending, order) && i < |models|
    requires models[i].kind == "ExternalModel" || models[i].url.None?
    ensures if models[i].kind == "ExternalModel" && models[i].ready
            then Running(models, sub, probe, i + 1, pending, order + [i]) &&
                 Blocks(models, order + [i], sub, probe) == Blocks(models, order, sub, probe) + [models[i]]
            else Running(models, sub, probe, i + 1, pending, order)
  {
    Start(models, sub, probe, i, pending, order);
    Answer(models, sub, probe, i + 1, pending + {i}, order, i);
    assert pending + {i} - {i} == pending;
  }

  /** One goroutine: probe and convert; a denied probe appends nothing. */
  method ProbeModel(model: Model, sub: string, probe: Probe) returns (block: seq<Model>)
    requires model.kind != "ExternalModel" && model.url.Some?
    ensures block == Block(model, sub, probe)
  {
    block := [];
    var answer := probe(model, sub);
    if answer.Some? {
      block := DiscoveredToModels(answer.value, model);
    }
  }

  /** `FilterModelsByAccess`: the loop starts goroutines, each appends its block when its answer comes, and the
      scheduler chooses freely between them and the loop. */
  method FilterModelsByAccess(models: seq<Model>, sub: string, probe: Probe)
    returns (out: seq<Model>, ghost order: seq<nat>)
    ensures Interleaving(order, models, sub, probe) && out == Blocks(models, order, sub, probe)
    ensures DistinctOwners(models) ==> forall k :: FirstWith(out, k) == OwnerAnswer(models, sub, probe, k)
  {
    out, order := [], [];
    var i: nat := 0;
    var pending: set<nat> := {};
    while i < |models| || pending != {}
      invariant Running(models, sub, probe, i, pending, order)
      invariant forall j :: j in pending ==> models[j].kind != "ExternalModel" && models[j].url.Some?
      invariant out == Blocks(models, order, sub, probe)
      decreases |models| - i, |pending|
    {
      var advance: bool := *;
      if i < |models| && (advance || pending == {}) {
        var model := models[i];
        if model.kind == "ExternalModel" {
          Immediate(models, sub, probe, i, pending, order);
          if model.ready {
            out, order := out + [model], order + [i];
          }
        } else if model.url.None? {
          Immediate(models, sub, probe, i, pending, order);
        } else {
          Start(models, sub, probe, i, pending, order);
          pending := pending + {i};
        }
        i := i + 1;
      } else {
        var j :| j in pending;
        Answer(models, sub, probe, i, pending, order, j);
        pending := pending - {j};
        var block := ProbeModel(models[j], sub, probe);
        out, order := out + block, order + [j];
      }
    }
    if DistinctOwners(models) {
      forall k ensures FirstWith(out, k) == OwnerAnswer(models, sub, probe, k) {
        InterleavingIsInvisible(models, order, sub, probe, k);
      }
    }
  }

  function FirstWith(items: seq<Model>, k: ModelKey): Option<Model> {
    if items == [] then None
    else if KeyOf(items[0]) == k then Some(items[0])
    else FirstWith(items[1..], k)
  }

  lemma {:induction false} FirstWithConcat(a: seq<Model>, b: seq<Model>, k: ModelKey)
    ensures FirstWith(a + b, k) == if FirstWith(a, k).Some? then FirstWith(a, k) else FirstWith(b, k)
  {
    if a == [] {
      assert a + b == b;
    } else {
      assert (a + b)[1..] == a[1..] + b;
      FirstWithConcat(a[1..], b, k);
    }
  }

  lemma {:induction false} FirstWithOwner(items: seq<Model>, k: ModelKey)
    ensures FirstWith(items, k).Some? ==> FirstWith(items, k).value in items && KeyOf(FirstWith(items, k).value) == k
    ensures FirstWith(items, k).Some? <==> exists m :: m in items && KeyOf(m) == k
  {
    if items != [] {
      FirstWithOwner(items[1..], k);
      assert items == [items[0]] + items[1..];
    }
  }

  /** `ownedBy` is the namespace and name of a MaaSModelRef, hence unique. */
  ghost predicate DistinctOwners(models: seq<Model>) {
    forall i, j :: 0 <= i < j < |models| ==> models[i].ownedBy != models[j].ownedBy
  }

  /** The answer to look at for `k`: the block of the one model with that owner. */
  ghost function OwnerAnswer(models: seq<Model>, sub: string, probe: Probe, k: ModelKey): Option<Model> {
    if i: nat :| i < |models| && models[i].ownedBy == k.ownedBy
    then FirstWith(Block(models[i], sub, probe), k) else None
  }

  lemma BlockAnswer(models: seq<Model>, sub: string, probe: Probe, k: ModelKey, i: nat)
    requires DistinctOwners(models) && i < |models|
    ensures FirstWith(Block(models[i], sub, probe), k).Some? ==> models[i].ownedBy == k.ownedBy
    ensures models[i].ownedBy == k.ownedBy ==>
            OwnerAnswer(models, sub, probe, k) == FirstWith(Block(models[i], sub, probe), k)
  {
    BlockOwner(models[i], sub, probe);
    FirstWithOwner(Block(models[i], sub, probe), k);
  }

  lemma {:induction false} PartialAnswer(models: seq<Model>, order: seq<nat>, sub: string, probe: Probe, k: ModelKey)
    requires DistinctOwners(models) && InRange(order, |models|)
    ensures FirstWith(Blocks(models, order, sub, probe), k) ==
            if exists j :: 0 <= j < |order| && models[order[j]].ownedBy == k.ownedBy
            then OwnerAnswer(models, sub, probe, k) else None
  {
    if order != [] {
      var init, last := order[..|order| - 1], order[|order| - 1];
      assert order == init + [last];
      PartialAnswer(models, init, sub, probe, k);
      FirstWithConcat(Blocks(models, init, sub, probe), Block(models[last], sub, probe), k);
      BlockAnswer(models, sub, probe, k, last);
    }
  }

  /** Every interleaving answers alike. */
  lemma InterleavingIsInvisible(models: seq<Model>, order: seq<nat>, sub: string, probe: Probe, k: ModelKey)
    requires DistinctOwners(models) && Interleaving(order, models, sub, probe)
    ensures FirstWith(Blocks(models, order, sub, probe), k) == OwnerAnswer(models, sub, probe, k)
  {
    PartialAnswer(models, order, sub, probe, k);
    if i: nat :| i < |models| && models[i].ownedBy == k.ownedBy {
      BlockAnswer(models, sub, probe, k, i);
    }
  }

  // ---- Aggregation over subscriptions ----

  function InfoOf(sub: Selector.Response): SubInfo {
    SubInfo(sub.name, sub.displayName, sub.description)
  }

  /** `addSubscriptionIfNew`. */
  function AddInfo(m: Model, info: SubInfo): Model {
    if exists e :: e in m.subscriptions && e.name == info.name then m
    else m.(subscriptions := m.subscriptions + [info])
  }

  function Allowed(refs: seq<Selector.ModelRefInfo>): set<string> {
    set r | r in refs :: r.ns + "/" + r.name
  }

  function OwnedIn(list: seq<Model>, allowed: set<string>): seq<Model> {
    if list == [] then []
    else OwnedIn(list[..|list| - 1], allowed) + (if list[|list| - 1].ownedBy in allowed then [list[|list| - 1]] else [])
  }

  function Candidates(list: seq<Model>, refs: seq<Selector.ModelRefInfo>): seq<Model> {
    if refs == [] then list else OwnedIn(list, Allowed(refs))
  }

  /** `filterModelsBySubscription`. */
  method FilterModelsBySubscription(list: seq<Model>, refs: seq<Selector.ModelRefInfo>) returns (filtered: seq<Model>)
    ensures filtered == Candidates(list, refs)
  {
    if refs == [] { return list; }
    var allowed: set<string> := {};
    for i := 0 to |refs|
      invariant allowed == Allowed(refs[..i])
    {
      allowed := allowed + {refs[i].ns + "/" + refs[i].name};
      assert refs[..i + 1] == refs[..i] + [refs[i]];
    }
    assert refs[..|refs|] == refs;
    filtered := [];
    for i := 0 to |list|
      invariant filtered == OwnedIn(list[..i], allowed)
    {
      assert list[..i + 1][..i] == list[..i];
      if list[i].ownedBy in allowed {
        filtered := filtered + [list[i]];
      }
    }
    assert list[..|list|] == list;
  }

  lemma {:induction false} OwnedInDistinct(list: seq<Model>, allowed: set<string>)
    requires DistinctOwners(list)
    ensures DistinctOwners(OwnedIn(list, allowed))
    ensures forall m :: m in OwnedIn(list, allowed) ==> m in list
  {
    if list != [] {
      var init := list[..|list| - 1];
      OwnedInDistinct(init, allowed);
      assert list == init + [list[|list| - 1]];
      forall m | m in OwnedIn(init, allowed) ensures m.ownedBy != list[|list| - 1].ownedBy {
        assert m in init;
      }
    }
  }

  type Table = map<ModelKey, Model>

  function Lookup(t: Table, k: ModelKey): Option<Model> {
    if k in t then Some(t[k]) else None
  }

  ghost predicate Keyed(t: Table) {
    forall k :: k in t ==> KeyOf(t[k]) == k
  }

  /** What one subscription's answer does to the entry of a key. */
  function Merge(cur: Option<Model>, first: Option<Model>, info: SubInfo): Option<Model> {
    if first.None? then cur
    else if cur.None? then Some(first.value.(subscriptions := [info]))
    else Some(AddInfo(cur.value, info))
  }

  ghost function AnswerFor(list: seq<Model>, sub: Selector.Response, probe: Probe, k: ModelKey): Option<Model> {
    OwnerAnswer(Candidates(list, sub.modelRefs), sub.name, probe, k)
  }

  /** The listing's entry for `k`, as a function of the probe answers alone. */
  ghost function EntryAt(list: seq<Model>, subs: seq<Selector.Response>, probe: Probe, k: ModelKey): Option<Model> {
    if subs == [] then None
    else
      var sub := subs[|subs| - 1];
      Merge(EntryAt(list, subs[..|subs| - 1], probe, k), AnswerFor(list, sub, probe, k), InfoOf(sub))
  }

  predicate KeyLess(a: ModelKey, b: ModelKey) {
    if a.id != b.id then Less(a.id, b.id)
    else if a.url != b.url then Less(a.url, b.url)
    else Less(a.ownedBy, b.ownedBy)
  }

  predicate ModelLess(a: Model, b: Model) {
    KeyLess(KeyOf(a), KeyOf(b))
  }

  /** `r` is sorted strictly by (id, url, ownedBy) and holds exactly the entries. */
  ghost predicate IsListing(r: seq<Model>, list: seq<Model>, subs: seq<Selector.Response>, probe: Probe) {
    && (forall i, j :: 0 <= i < j < |r| ==> ModelLess(r[i], r[j]))
    && (forall m :: m in r <==> EntryAt(list, subs, probe, KeyOf(m)) == Some(m))
  }

  /** The inner loop of `aggregateModelsFromSubscriptions`. */
  method MergeModels(table: Table, items: seq<Model>, info: SubInfo) returns (t: Table)
    ensures forall k :: Lookup(t, k) == Merge(Lookup(table, k), FirstWith(items, k), info)
    ensures Keyed(table) ==> Keyed(t)
  {
    t := table;
    for i := 0 to |items|
      invariant Keyed(table) ==> Keyed(t)
      invariant forall k :: Lookup(t, k) == Merge(Lookup(table, k), FirstWith(items[..i], k), info)
    {
      assert items[..i + 1] == items[..i] + [items[i]];
      forall k ensures FirstWith(items[..i + 1], k) ==
                       if FirstWith(items[..i], k).Some? then FirstWith(items[..i], k)
                       else if KeyOf(items[i]) == k then Some(items[i]) else None {
        FirstWithConcat(items[..i], [items[i]], k);
      }
      var key := KeyOf(items[i]);
      assert Lookup(t, key) == Merge(Lookup(table, key), FirstWith(items[..i], key), info);
      if key in t {
        t := t[key := AddInfo(t[key], info)];
      } else {
        t := t[key := items[i].(subscriptions := [info])];
      }
    }
    assert items[..|items|] == items;
  }

  lemma KeyOrderIsWeak()
    ensures WeakOrder(KeyLess) && WeakOrder(ModelLess)
  {
    StringOrderIsWeak();
    forall a, b | KeyLess(a, b) ensures !KeyLess(b, a) {
      KeyTrichotomy(a, b);
    }
    forall a, b, c | !KeyLess(b, a) && !KeyLess(c, b) ensures !KeyLess(c, a) {
      KeyTrichotomy(a, b);
      KeyTrichotomy(b, c);
      KeyTrichotomy(a, c);
      KeyTransitive(a, b, c);
    }
    assert forall a, b :: ModelLess(a, b) ==> KeyLess(KeyOf(a), KeyOf(b));
  }

  lemma KeyTrichotomy(a: ModelKey, b: ModelKey)
    ensures KeyLess(a, b) || KeyLess(b, a) || a == b
    ensures !(KeyLess(a, b) && KeyLess(b, a)) && (a == b ==> !KeyLess(a, b))
  {
    LessTrichotomy(a.id, b.id);
    LessTrichotomy(a.url, b.url);
    LessTrichotomy(a.ownedBy, b.ownedBy);
  }

  lemma KeyTransitive(a: ModelKey, b: ModelKey, c: ModelKey)
    ensures KeyLess(a, b) && KeyLess(b, c) ==> KeyLess(a, c)
  {
    StringOrderIsWeak();
    KeyTrichotomy(a, c);
    if Less(a.id, b.id) && Less(b.id, c.id) { LessTransitive(a.id, b.id, c.id); }
    if Less(a.url, b.url) && Less(b.url, c.url) { LessTransitive(a.url, b.url, c.url); }
    if Less(a.ownedBy, b.ownedBy) && Less(b.ownedBy, c.ownedBy) { LessTransitive(a.ownedBy, b.ownedBy, c.ownedBy); }
    LessTrichotomy(a.id, c.id);
    LessTrichotomy(a.url, c.url);
  }

  /** The final loops: list the keys in any order, sort, look up. */
  method Flatten(table: Table) returns (r: seq<Model>)
    requires Keyed(table)
    ensures forall i, j :: 0 <= i < j < |r| ==> ModelLess(r[i], r[j])
    ensures forall m :: m in r <==> Lookup(table, KeyOf(m)) == Some(m)
  {
    var keys: seq<ModelKey> := [];
    var rest := table.Keys;
    while rest != {}
      invariant rest <= table.Keys && Elems(keys) == table.Keys - rest
      invariant forall i, j :: 0 <= i < j < |keys| ==> keys[i] != keys[j]
    {
      var k :| k in rest;
      assert k !in Elems(keys);
      ElemsConcat(keys, [k]);
      keys := keys + [k];
      rest := rest - {k};
    }
    ghost var listed := keys;
    SortPermutes(keys, KeyLess);
    KeyOrderIsWeak();
    SortSorts(keys, KeyLess);
    keys := Sort(keys, KeyLess);
    SameElements(listed, keys);
    DistinctFromMultiset(listed, keys);
    assert forall k :: k in keys <==> k in Elems(listed);
    r := [];
    for i := 0 to |keys|
      invariant |r| == i && forall j :: 0 <= j < i ==> keys[j] in table && r[j] == table[keys[j]]
    {
      assert keys[i] in keys;
      r := r + [table[keys[i]]];
    }
    forall i, j | 0 <= i < j < |r| ensures ModelLess(r[i], r[j]) {
      KeyTrichotomy(keys[i], keys[j]);
    }
    forall m ensures m in r <==> Lookup(table, KeyOf(m)) == Some(m) {
      if Lookup(table, KeyOf(m)) == Some(m) {
        assert KeyOf(m) in Elems(listed);
        var i :| 0 <= i < |keys| && keys[i] == KeyOf(m);
        assert r[i] == m;
      }
    }
  }

  /** One round of the outer loop: pre-filter, probe, merge. */
  method AddSubscription(table: Table, list: seq<Model>, sub: Selector.Response, probe: Probe) returns (t: Table)
    requires Keyed(table)
    ensures Keyed(t)
    ensures DistinctOwners(list) ==>
            forall k :: Lookup(t, k) == Merge(Lookup(table, k), AnswerFor(list, sub, probe, k), InfoOf(sub))
  {
    var candidates := FilterModelsBySubscription(list, sub.modelRefs);
    var found, order := FilterModelsByAccess(candidates, sub.name, probe);
    t := MergeModels(table, found, InfoOf(sub));
    if DistinctOwners(list) {
      OwnedInDistinct(list, Allowed(sub.modelRefs));
      forall k ensures Lookup(t, k) == Merge(Lookup(table, k), AnswerFor(list, sub, probe, k), InfoOf(sub)) {
        InterleavingIsInvisible(candidates, order, sub.name, probe, k);
      }
    }
  }

  /** `aggregateModelsFromSubscriptions`: whatever the scheduler does, the result is the listing. */
  method ListModels(list: seq<Model>, subs: seq<Selector.Response>, probe: Probe) returns (r: seq<Model>)
    ensures DistinctOwners(list) ==> IsListing(r, list, subs, probe)
  {
    var table: Table := map[];
    for i := 0 to |subs|
      invariant Keyed(table)
      invariant DistinctOwners(list) ==> forall k :: Lookup(table, k) == EntryAt(list, subs[..i], probe, k)
    {
      table := AddSubscription(table, list, subs[i], probe);
      assert subs[..i + 1][..i] == subs[..i];
    }
    assert subs[..|subs|] == subs;
    r := Flatten(table);
  }

  /** Two runs over the same answers give the identical list, however their probes were scheduled. */
  lemma ScheduleIndependent(r: seq<Model>, r': seq<Model>, list: seq<Model>, subs: seq<Selector.Response>, probe: Probe)
    requires IsListing(r, list, subs, probe) && IsListing(r', list, subs, probe)
    ensures r == r'
  {
    KeyOrderIsWeak();
    forall m ensures m in Elems(r) <==> m in Elems(r') {
      assert m in r <==> EntryAt(list, subs, probe, KeyOf(m)) == Some(m);
      assert m in r' <==> EntryAt(list, subs, probe, KeyOf(m)) == Some(m);
    }
    IncreasingByUnique(r, r', ModelLess);
  }

  // ---- What each entry carries ----

  /** The subscriptions whose probes returned `k`, in order. */
  ghost function Serving(list: seq<Model>, subs: seq<Selector.Response>, probe: Probe, k: ModelKey): seq<SubInfo> {
    if subs == [] then []
    else
      var sub := subs[|subs| - 1];
      Serving(list, subs[..|subs| - 1], probe, k) + (if AnswerFor(list, sub, probe, k).Some? then [InfoOf(sub)] else [])
  }

  lemma {:induction false} ServingNames(list: seq<Model>, subs: seq<Selector.Response>, probe: Probe, k: ModelKey)
    ensures forall e :: e in Serving(list, subs, probe, k) ==> exists i :: 0 <= i < |subs| && subs[i].name == e.name
  {
    if subs != [] {
      var init := subs[..|subs| - 1];
      ServingNames(list, init, probe, k);
      forall e | e in Serving(list, subs, probe, k) ensures exists i :: 0 <= i < |subs| && subs[i].name == e.name {
        if e in Serving(list, init, probe, k) {
          var i :| 0 <= i < |init| && init[i].name == e.name;
          assert subs[i].name == e.name;
        }
      }
    }
  }

  /** A model is listed exactly when some subscription's probe returned it, and carries exactly those
      subscriptions, once each. */
  lemma {:induction false} EntryCarriesItsSubscriptions(
      list: seq<Model>, subs: seq<Selector.Response>, probe: Probe, k: ModelKey)
    requires forall i, j :: 0 <= i < j < |subs| ==> subs[i].name != subs[j].name
    ensures EntryAt(list, subs, probe, k).Some? <==> Serving(list, subs, probe, k) != []
    ensures EntryAt(list, subs, probe, k).Some? ==>
            EntryAt(list, subs, probe, k).value.subscriptions == Serving(list, subs, probe, k)
    ensures var s := Serving(list, subs, probe, k); forall i, j :: 0 <= i < j < |s| ==> s[i].name != s[j].name
  {
    if subs != [] {
      var init, sub := subs[..|subs| - 1], subs[|subs| - 1];
      EntryCarriesItsSubscriptions(list, init, probe, k);
      ServingNames(list, init, probe, k);
      forall e | e in Serving(list, init, probe, k) ensures e.name != sub.name {
        var i :| 0 <= i < |init| && init[i].name == e.name;
        assert subs[i].name == e.name;
      }
    }
  }
}
