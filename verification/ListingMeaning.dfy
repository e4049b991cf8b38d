/** What GET /v1/models returns, in terms of the models, the subscriptions and the probe answers
    (maas-api/internal/models/discovery.go:94-212, maas-api/internal/handlers/models.go:165-427). */
module ListingMeaning {
  import opened Strings
  import opened Sorting
  import opened Listing
  import Selector

  // ---- One model and one subscription ----

  /** The subscription restricts itself to no models, or names this one. */
  ghost predicate Covers(sub: Selector.Response, x: Model) {
    || sub.modelRefs == []
    || exists i :: 0 <= i < |sub.modelRefs| && sub.modelRefs[i].ns + "/" + sub.modelRefs[i].name == x.ownedBy
  }

  /** An external model is granted when it is ready; any other when it has a URL and its probe is not denied. */
  ghost predicate Granted(x: Model, sub: string, probe: Probe) {
    if x.kind == "ExternalModel" then x.ready else x.url.Some? && probe(x, sub).Some?
  }

  /** `m` is what a granted `x` contributes: for each discovered model with an id, `x` under that id and, if it has one,
      that creation time; `x` itself if it is external or none has an id. */
  ghost predicate Shown(x: Model, sub: string, probe: Probe, m: Model) {
    && m.ownedBy == x.ownedBy && m.kind == x.kind && m.url == x.url && m.ready == x.ready && m.details == x.details
    && if x.kind == "ExternalModel" || probe(x, sub) == None || AllBlank(probe(x, sub).value)
       then m.id == x.id && m.created == x.created
       else exists i :: Discovers(x, probe(x, sub).value, i, m)
  }

  predicate AllBlank(ds: seq<Discovered>) {
    forall i :: 0 <= i < |ds| ==> ds[i].id == ""
  }

  ghost predicate Discovers(x: Model, ds: seq<Discovered>, i: int, m: Model) {
    && 0 <= i < |ds| && ds[i].id != "" && m.id == ds[i].id
    && m.created == if ds[i].created == 0 then x.created else ds[i].created
  }

  lemma {:induction false} NamedMembers(ds: seq<Discovered>, x: Model)
    ensures forall m :: m in NamedModels(ds, x) <==>
              exists i :: 0 <= i < |ds| && ds[i].id != "" && m == Renamed(ds[i], x)
    ensures NamedModels(ds, x) == [] <==> AllBlank(ds)
  {
    if ds != [] {
      NamedMembers(ds[..|ds| - 1], x);
      assert forall i :: 0 <= i < |ds| - 1 ==> ds[..|ds| - 1][i] == ds[i];
    }
  }

  /** The key of an entry: what `KeyOf` makes of the three fields. */
  predicate Keyed(m: Model, k: ModelKey) {
    m.id == k.id && m.ownedBy == k.ownedBy && (m.url == Some(k.url) || (m.url == None && k.url == ""))
  }

  lemma BlockShows(x: Model, sub: string, probe: Probe, k: ModelKey)
    ensures Block(x, sub, probe) != [] ==> Granted(x, sub, probe)
    ensures forall m :: m in Block(x, sub, probe) ==> Shown(x, sub, probe, m)
    ensures Granted(x, sub, probe) ==>
            ((exists m :: m in Block(x, sub, probe) && KeyOf(m) == k) <==>
             (exists m :: Shown(x, sub, probe, m) && Keyed(m, k)))
  {
    if x.kind != "ExternalModel" && x.url.Some? && probe(x, sub).Some? {
      DiscoveredShow(x, sub, probe, probe(x, sub).value, k);
    } else if Granted(x, sub, probe) {
      assert x in Block(x, sub, probe) && Shown(x, sub, probe, x);
      forall m | Shown(x, sub, probe, m) ensures KeyOf(m) == KeyOf(x) {
      }
    }
  }

  lemma DiscoveredShow(x: Model, sub: string, probe: Probe, ds: seq<Discovered>, k: ModelKey)
    requires x.kind != "ExternalModel" && probe(x, sub) == Some(ds)
    ensures forall m :: m in Converted(ds, x) ==> Shown(x, sub, probe, m)
    ensures (exists m :: m in Converted(ds, x) && KeyOf(m) == k) <==>
            (exists m :: Shown(x, sub, probe, m) && Keyed(m, k))
  {
    NamedMembers(ds, x);
    forall m | m in Converted(ds, x) ensures Shown(x, sub, probe, m) && (KeyOf(m) == k <==> Keyed(m, k)) {
      if !AllBlank(ds) {
        var i :| 0 <= i < |ds| && ds[i].id != "" && m == Renamed(ds[i], x);
        assert Discovers(x, ds, i, m);
      }
    }
    if m :| Shown(x, sub, probe, m) && Keyed(m, k) {
      if AllBlank(ds) {
        assert x in Converted(ds, x) && KeyOf(x) == k;
      } else {
        var i :| Discovers(x, ds, i, m);
        assert Renamed(ds[i], x) in Converted(ds, x) && KeyOf(Renamed(ds[i], x)) == k;
      }
    }
  }

  // ---- The candidates of a subscription ----

  lemma {:induction false} OwnedMembers(list: seq<Model>, allowed: set<string>)
    ensures forall m :: m in OwnedIn(list, allowed) <==> m in list && m.ownedBy in allowed
  {
    if list != [] {
      OwnedMembers(list[..|list| - 1], allowed);
      assert list == list[..|list| - 1] + [list[|list| - 1]];
    }
  }

  lemma CandidatesAreCovered(list: seq<Model>, sub: Selector.Response, x: Model)
    ensures x in Candidates(list, sub.modelRefs) <==> x in list && Covers(sub, x)
  {
    OwnedMembers(list, Allowed(sub.modelRefs));
    if i :| 0 <= i < |sub.modelRefs| && sub.modelRefs[i].ns + "/" + sub.modelRefs[i].name == x.ownedBy {
      assert sub.modelRefs[i] in sub.modelRefs;
    }
  }

  // ---- The answer of a subscription ----

  /** `sub` returns `x` under the key `k`. */
  ghost predicate Returns(list: seq<Model>, sub: Selector.Response, probe: Probe, x: Model, k: ModelKey) {
    && x in list && Covers(sub, x) && Granted(x, sub.name, probe)
    && exists m :: Shown(x, sub.name, probe, m) && Keyed(m, k)
  }

  lemma AnswerIff(list: seq<Model>, sub: Selector.Response, probe: Probe, k: ModelKey)
    requires DistinctOwners(list)
    ensures AnswerFor(list, sub, probe, k).Some? <==> exists x :: Returns(list, sub, probe, x, k)
    ensures AnswerFor(list, sub, probe, k).Some? ==>
            exists x :: Returns(list, sub, probe, x, k) &&
                        Shown(x, sub.name, probe, AnswerFor(list, sub, probe, k).value)
  {
    var models := Candidates(list, sub.modelRefs);
    OwnedInDistinct(list, Allowed(sub.modelRefs));
    if i: nat :| i < |models| && models[i].ownedBy == k.ownedBy {
      OwnerAnswers(list, sub, probe, k, i);
    }
    if x :| Returns(list, sub, probe, x, k) {
      CandidatesAreCovered(list, sub, x);
      var i: nat :| i < |models| && models[i] == x;
      OwnerAnswers(list, sub, probe, k, i);
    }
  }

  lemma OwnerAnswers(list: seq<Model>, sub: Selector.Response, probe: Probe, k: ModelKey, i: nat)
    requires DistinctOwners(Candidates(list, sub.modelRefs)) && i < |Candidates(list, sub.modelRefs)|
    requires Candidates(list, sub.modelRefs)[i].ownedBy == k.ownedBy
    ensures var x := Candidates(list, sub.modelRefs)[i];
            && (AnswerFor(list, sub, probe, k).Some? <==> Returns(list, sub, probe, x, k))
            && (AnswerFor(list, sub, probe, k).Some? ==>
                  Shown(x, sub.name, probe, AnswerFor(list, sub, probe, k).value))
  {
    var models := Candidates(list, sub.modelRefs);
    var x := models[i];
    assert x in models;
    CandidatesAreCovered(list, sub, x);
    BlockAnswer(models, sub.name, probe, k, i);
    BlockShows(x, sub.name, probe, k);
    FirstWithOwner(Block(x, sub.name, probe), k);
    if AnswerFor(list, sub, probe, k).Some? {
      var m := AnswerFor(list, sub, probe, k).value;
      assert m in Block(x, sub.name, probe) && KeyOf(m) == k;
    }
  }

  // ---- The entries ----

  /** `e` describes `sub`. */
  ghost predicate Describes(e: SubInfo, sub: Selector.Response) {
    e.name == sub.name && e.displayName == sub.displayName && e.description == sub.description
  }

  lemma {:induction false} ServingMembers(list: seq<Model>, subs: seq<Selector.Response>, probe: Probe, k: ModelKey)
    ensures forall e :: e in Serving(list, subs, probe, k) <==>
              exists i :: 0 <= i < |subs| && AnswerFor(list, subs[i], probe, k).Some? && e == InfoOf(subs[i])
  {
    if subs != [] {
      var n := |subs| - 1;
      ServingMembers(list, subs[..n], probe, k);
      forall e ensures e in Serving(list, subs, probe, k) <==>
                       e in Serving(list, subs[..n], probe, k) ||
                       (AnswerFor(list, subs[n], probe, k).Some? && e == InfoOf(subs[n])) {
      }
      assert forall i :: 0 <= i < n ==> subs[..n][i] == subs[i];
    }
  }

  lemma {:induction false} EntrySource(list: seq<Model>, subs: seq<Selector.Response>, probe: Probe, k: ModelKey)
    returns (i: nat)
    requires EntryAt(list, subs, probe, k).Some?
    ensures i < |subs| && AnswerFor(list, subs[i], probe, k).Some?
    ensures forall j :: 0 <= j < i ==> AnswerFor(list, subs[j], probe, k).None?
    ensures var m := EntryAt(list, subs, probe, k).value;
            m == AnswerFor(list, subs[i], probe, k).value.(subscriptions := m.subscriptions)
  {
    var n := |subs| - 1;
    var init := subs[..n];
    MergeKeeps(EntryAt(list, init, probe, k), AnswerFor(list, subs[n], probe, k), InfoOf(subs[n]));
    if EntryAt(list, init, probe, k).Some? {
      i := EntrySource(list, init, probe, k);
      assert init[i] == subs[i];
      assert forall j :: 0 <= j < i ==> init[j] == subs[j];
    } else {
      NoEntryNoAnswer(list, init, probe, k);
      i := n;
      forall j | 0 <= j < n ensures AnswerFor(list, subs[j], probe, k).None? {
        assert init[j] == subs[j];
      }
    }
  }

  /** Merging changes nothing but the subscriptions of the first answer. */
  lemma MergeKeeps(cur: Option<Model>, first: Option<Model>, info: SubInfo)
    ensures var m := Merge(cur, first, info);
            && (cur.Some? ==> m.Some? && m.value == cur.value.(subscriptions := m.value.subscriptions))
            && (cur.None? && m.Some? ==> first.Some? && m.value == first.value.(subscriptions := m.value.subscriptions))
  {
  }

  lemma {:induction false} NoEntryNoAnswer(list: seq<Model>, subs: seq<Selector.Response>, probe: Probe, k: ModelKey)
    requires EntryAt(list, subs, probe, k).None?
    ensures forall j :: 0 <= j < |subs| ==> AnswerFor(list, subs[j], probe, k).None?
  {
    if subs != [] {
      NoEntryNoAnswer(list, subs[..|subs| - 1], probe, k);
      assert forall j :: 0 <= j < |subs| - 1 ==> subs[..|subs| - 1][j] == subs[j];
    }
  }

  /** Entries do not collide on names of subscriptions. */
  ghost predicate DistinctSubs(subs: seq<Selector.Response>) {
    forall i, j :: 0 <= i < j < |subs| ==> subs[i].name != subs[j].name
  }

  // ---- The listing ----

  /** Every listed model is one that some subscription returns, shows what the first of those returns, and carries
      exactly the subscriptions that return it. */
  lemma ListedIsGranted(
      r: seq<Model>, list: seq<Model>, subs: seq<Selector.Response>, probe: Probe, m: Model)
    requires DistinctOwners(list) && DistinctSubs(subs) && IsListing(r, list, subs, probe) && m in r
    ensures exists x, i :: 0 <= i < |subs| && Returns(list, subs[i], probe, x, KeyOf(m)) && x.ownedBy == m.ownedBy &&
                           Shown(x, subs[i].name, probe, m)
    ensures m.subscriptions != []
    ensures forall e :: e in m.subscriptions <==>
              exists x, i :: 0 <= i < |subs| && Returns(list, subs[i], probe, x, KeyOf(m)) && Describes(e, subs[i])
  {
    var k := KeyOf(m);
    assert EntryAt(list, subs, probe, k) == Some(m);
    var i := EntrySource(list, subs, probe, k);
    AnswerIff(list, subs[i], probe, k);
    EntryCarriesItsSubscriptions(list, subs, probe, k);
    var f := AnswerFor(list, subs[i], probe, k).value;
    var x :| Returns(list, subs[i], probe, x, k) && Shown(x, subs[i].name, probe, f);
    assert Shown(x, subs[i].name, probe, m) by { ShownIgnores(x, subs[i].name, probe, f, m.subscriptions); }
    CarriedAreReturned(list, subs, probe, k);
  }

  lemma ShownIgnores(x: Model, sub: string, probe: Probe, m: Model, subscriptions: seq<SubInfo>)
    requires Shown(x, sub, probe, m)
    ensures Shown(x, sub, probe, m.(subscriptions := subscriptions))
  {
    if !(x.kind == "ExternalModel" || probe(x, sub) == None || AllBlank(probe(x, sub).value)) {
      var i :| Discovers(x, probe(x, sub).value, i, m);
      assert Discovers(x, probe(x, sub).value, i, m.(subscriptions := subscriptions));
    }
  }

  lemma CarriedAreReturned(list: seq<Model>, subs: seq<Selector.Response>, probe: Probe, k: ModelKey)
    requires DistinctOwners(list)
    ensures forall e :: e in Serving(list, subs, probe, k) <==>
              exists x, i :: 0 <= i < |subs| && Returns(list, subs[i], probe, x, k) && Describes(e, subs[i])
  {
    ServingMembers(list, subs, probe, k);
    forall i | 0 <= i < |subs|
      ensures AnswerFor(list, subs[i], probe, k).Some? <==> exists x :: Returns(list, subs[i], probe, x, k)
    {
      AnswerIff(list, subs[i], probe, k);
    }
    forall e, i | 0 <= i < |subs| ensures e == InfoOf(subs[i]) <==> Describes(e, subs[i]) {
    }
  }

  /** Conversely, whatever some subscription returns is listed, once, under its key, with that subscription. */
  lemma GrantedIsListed(
      r: seq<Model>, list: seq<Model>, subs: seq<Selector.Response>, probe: Probe, i: nat, x: Model, k: ModelKey)
    requires DistinctOwners(list) && DistinctSubs(subs) && IsListing(r, list, subs, probe)
    requires i < |subs| && Returns(list, subs[i], probe, x, k)
    ensures exists m :: m in r && KeyOf(m) == k && exists e :: e in m.subscriptions && Describes(e, subs[i])
  {
    AnswerIff(list, subs[i], probe, k);
    ServingMembers(list, subs, probe, k);
    EntryCarriesItsSubscriptions(list, subs, probe, k);
    assert InfoOf(subs[i]) in Serving(list, subs, probe, k);
    var m := EntryAt(list, subs, probe, k).value;
    EntryKeyed(list, subs, probe, k);
    assert m in r && InfoOf(subs[i]) in m.subscriptions && Describes(InfoOf(subs[i]), subs[i]);
  }

  lemma EntryKeyed(list: seq<Model>, subs: seq<Selector.Response>, probe: Probe, k: ModelKey)
    requires DistinctOwners(list) && EntryAt(list, subs, probe, k).Some?
    ensures KeyOf(EntryAt(list, subs, probe, k).value) == k
  {
    var i := EntrySource(list, subs, probe, k);
    var models := Candidates(list, subs[i].modelRefs);
    if j: nat :| j < |models| && models[j].ownedBy == k.ownedBy {
      OwnedInDistinct(list, Allowed(subs[i].modelRefs));
      AnsweredKey(models, subs[i].name, probe, k, j);
    }
  }

  lemma AnsweredKey(models: seq<Model>, sub: string, probe: Probe, k: ModelKey, j: nat)
    requires DistinctOwners(models) && j < |models| && models[j].ownedBy == k.ownedBy
    ensures OwnerAnswer(models, sub, probe, k).Some? ==> KeyOf(OwnerAnswer(models, sub, probe, k).value) == k
  {
    BlockAnswer(models, sub, probe, k, j);
    FirstWithOwner(Block(models[j], sub, probe), k);
  }

  /** A model that every subscription denies, or does not cover, contributes no entry; one that some subscription covers
      and grants contributes at least one. */
  lemma ListedIff(r: seq<Model>, list: seq<Model>, subs: seq<Selector.Response>, probe: Probe, x: Model)
    requires DistinctOwners(list) && DistinctSubs(subs) && IsListing(r, list, subs, probe) && x in list
    ensures (exists m :: m in r && m.ownedBy == x.ownedBy) <==>
            exists i :: 0 <= i < |subs| && Covers(subs[i], x) && Granted(x, subs[i].name, probe)
  {
    if m :| m in r && m.ownedBy == x.ownedBy {
      ListedIsGranted(r, list, subs, probe, m);
      var y, i :| 0 <= i < |subs| && Returns(list, subs[i], probe, y, KeyOf(m)) && y.ownedBy == m.ownedBy &&
                  Shown(y, subs[i].name, probe, m);
      OwnerDecides(list, x, y);
    }
    if i :| 0 <= i < |subs| && Covers(subs[i], x) && Granted(x, subs[i].name, probe) {
      var m := SomethingShown(x, subs[i].name, probe);
      assert Keyed(m, KeyOf(m));
      assert Returns(list, subs[i], probe, x, KeyOf(m));
      GrantedIsListed(r, list, subs, probe, i, x, KeyOf(m));
    }
  }

  lemma OwnerDecides(list: seq<Model>, x: Model, y: Model)
    requires DistinctOwners(list) && x in list && y in list && x.ownedBy == y.ownedBy
    ensures x == y
  {
  }

  lemma SomethingShown(x: Model, sub: string, probe: Probe) returns (m: Model)
    ensures Shown(x, sub, probe, m)
  {
    m := x;
    if x.kind != "ExternalModel" && probe(x, sub).Some? && !AllBlank(probe(x, sub).value) {
      var ds := probe(x, sub).value;
      var i :| 0 <= i < |ds| && ds[i].id != "";
      m := Renamed(ds[i], x);
      assert Discovers(x, ds, i, m);
    }
  }

  /** The order of the listing: by id, then URL, then owner, and never twice the same. */
  lemma ListingOrder(r: seq<Model>, list: seq<Model>, subs: seq<Selector.Response>, probe: Probe, i: nat, j: nat)
    requires IsListing(r, list, subs, probe) && i < j < |r|
    ensures var a, b := KeyOf(r[i]), KeyOf(r[j]);
            || Less(a.id, b.id)
            || (a.id == b.id && (Less(a.url, b.url) || (a.url == b.url && Less(a.ownedBy, b.ownedBy))))
    ensures Keyed(r[i], KeyOf(r[i]))
  {
    assert ModelLess(r[i], r[j]);
  }
}
