/** How the MaaSSubscription reconciler derives a subscription's status
    (maas-controller/pkg/controller/maas/maassubscription_controller.go:128-322, 384-413). */
module Phases {
  import opened Cluster

  // ---- The two status lists ----

  /** Keys in order of first occurrence; the source skips those already `seen`. */
  function Distinct(keys: seq<Key>): (r: seq<Key>)
    ensures forall k :: k in r <==> k in keys
    ensures forall i, j :: 0 <= i < j < |r| ==> r[i] != r[j]
  {
    if keys == [] then []
    else
      var init, last := Distinct(keys[..|keys| - 1]), keys[|keys| - 1];
      assert keys == keys[..|keys| - 1] + [last];
      if last in init then init else init + [last]
  }

  function ModelStatusOf(s: State, key: Key): ModelStatus {
    if key in s.models then ModelStatus(key, true, Valid) else ModelStatus(key, false, NotFound)
  }

  function LimitStatusOf(s: State, key: Key): LimitStatus {
    match Resolve(s, key)
    case ModelMissing => LimitStatus(key.name, key.ns, false, BackendNotReady)
    case RouteMissing => LimitStatus(key.name, key.ns, false, BackendNotReady)
    case UnknownKind => LimitStatus(key.name, key.ns, false, GetFailed)
    case Route(_) =>
      if key !in s.trlps.items then LimitStatus(key.name, key.ns, false, NotFound)
      else if s.trlps.items[key].accepted then LimitStatus(key.name, key.ns, true, Accepted)
      else LimitStatus(key.name, key.ns, false, NotAccepted)
  }

  function ModelStatuses(s: State, keys: seq<Key>): seq<ModelStatus> {
    var d := Distinct(keys);
    seq(|d|, i requires 0 <= i < |d| => ModelStatusOf(s, d[i]))
  }

  function LimitStatuses(s: State, keys: seq<Key>): seq<LimitStatus> {
    var d := Distinct(keys);
    seq(|d|, i requires 0 <= i < |d| => LimitStatusOf(s, d[i]))
  }

  predicate BackendMissing(t: LimitStatus) {
    !t.ready && t.reason == BackendNotReady
  }

  predicate Contradicted(m: ModelStatus, limits: seq<LimitStatus>) {
    exists t :: t in limits && t.reason == BackendNotReady && t.ns == m.key.ns && t.model == m.key.name
  }

  /** The back-propagation of BackendNotReady into the model statuses. */
  function Propagate(models: seq<ModelStatus>, limits: seq<LimitStatus>): (r: seq<ModelStatus>)
    ensures |r| == |models|
  {
    seq(|models|, i requires 0 <= i < |models| =>
      if models[i].ready && Contradicted(models[i], limits) then ModelStatus(models[i].key, false, NotFound)
      else models[i])
  }

  // ---- The phase ----

  function CountReady(models: seq<ModelStatus>): nat {
    if models == [] then 0 else CountReady(models[..|models| - 1]) + (if models[|models| - 1].ready then 1 else 0)
  }

  function ReadyNames(models: seq<ModelStatus>): set<string> {
    set m | m in models && m.ready :: m.key.name
  }

  function CountUnready(limits: seq<LimitStatus>): nat {
    if limits == [] then 0 else CountUnready(limits[..|limits| - 1]) + (if limits[|limits| - 1].ready then 0 else 1)
  }

  function CountIssues(limits: seq<LimitStatus>, names: set<string>): nat {
    if limits == [] then 0
    else
      var t := limits[|limits| - 1];
      CountIssues(limits[..|limits| - 1], names) + (if BackendMissing(t) && t.model in names then 1 else 0)
  }

  function FinalPhase(models: seq<ModelStatus>, limits: seq<LimitStatus>): Phase {
    var valid, issues := CountReady(models), CountIssues(limits, ReadyNames(models));
    if models == [] || valid - issues <= 0 then Failed
    else if |models| - valid + issues > 0 || CountUnready(limits) - issues > 0 then Degraded
    else Active
  }

  /** `deriveFinalPhase`; its two counting loops follow. */
  method DeriveFinalPhase(models: seq<ModelStatus>, limits: seq<LimitStatus>) returns (phase: Phase)
    ensures phase == FinalPhase(models, limits)
  {
    if models == [] { return Failed; }
    var valid, invalid, validSet := CountModels(models);
    var unhealthy, issues := CountLimits(limits, validSet);
    if valid - issues <= 0 { return Failed; }
    if invalid + issues > 0 { return Degraded; }
    if unhealthy - issues > 0 { return Degraded; }
    return Active;
  }

  method CountModels(models: seq<ModelStatus>) returns (valid: nat, invalid: int, validSet: set<string>)
    ensures valid == CountReady(models) && invalid == |models| - valid && validSet == ReadyNames(models)
  {
    valid, invalid, validSet := 0, 0, {};
    for i := 0 to |models|
      invariant valid == CountReady(models[..i]) && invalid == i - valid && validSet == ReadyNames(models[..i])
    {
      assert models[..i + 1][..i] == models[..i];
      ReadyNamesSnoc(models[..i], models[i]);
      assert models[..i + 1] == models[..i] + [models[i]];
      if models[i].ready {
        valid := valid + 1;
        validSet := validSet + {models[i].key.name};
      } else {
        invalid := invalid + 1;
      }
    }
    assert models[..|models|] == models;
  }

  lemma ReadyNamesSnoc(models: seq<ModelStatus>, m: ModelStatus)
    ensures ReadyNames(models + [m]) == if m.ready then ReadyNames(models) + {m.key.name} else ReadyNames(models)
  {
    assert forall x :: x in models + [m] <==> x in models || x == m;
  }

  method CountLimits(limits: seq<LimitStatus>, validSet: set<string>) returns (unhealthy: nat, issues: nat)
    ensures unhealthy == CountUnready(limits) && issues == CountIssues(limits, validSet)
  {
    unhealthy, issues := 0, 0;
    for i := 0 to |limits|
      invariant unhealthy == CountUnready(limits[..i]) && issues == CountIssues(limits[..i], validSet)
    {
      assert limits[..i + 1][..i] == limits[..i];
      if !limits[i].ready {
        unhealthy := unhealthy + 1;
        if limits[i].reason == BackendNotReady && limits[i].model in validSet {
          issues := issues + 1;
        }
      }
    }
    assert limits[..|limits|] == limits;
  }

  lemma {:induction false} ReadyCounts(models: seq<ModelStatus>)
    ensures CountReady(models) <= |models|
    ensures CountReady(models) == |models| <==> forall i :: 0 <= i < |models| ==> models[i].ready
  {
    if models != [] {
      var n := |models| - 1;
      ReadyCounts(models[..n]);
      assert forall i :: 0 <= i < n ==> models[..n][i] == models[i];
    }
  }

  lemma {:induction false} UnreadyCounts(limits: seq<LimitStatus>, names: set<string>)
    ensures CountIssues(limits, names) <= CountUnready(limits)
    ensures CountUnready(limits) == 0 <==> forall i :: 0 <= i < |limits| ==> limits[i].ready
  {
    if limits != [] {
      var n := |limits| - 1;
      UnreadyCounts(limits[..n], names);
      assert forall i :: 0 <= i < n ==> limits[..n][i] == limits[i];
    }
  }

  /** For every input: Active exactly when there is a model status and every status of both lists is Ready. */
  lemma ActiveIff(models: seq<ModelStatus>, limits: seq<LimitStatus>)
    ensures FinalPhase(models, limits) == Active <==>
            models != [] && (forall i :: 0 <= i < |models| ==> models[i].ready) &&
            (forall i :: 0 <= i < |limits| ==> limits[i].ready)
  {
    ReadyCounts(models);
    UnreadyCounts(limits, ReadyNames(models));
  }

  ghost predicate DistinctModelNames(models: seq<ModelStatus>) {
    forall i, j :: 0 <= i < j < |models| ==> models[i].key.name != models[j].key.name
  }

  ghost predicate DistinctLimitNames(limits: seq<LimitStatus>) {
    forall i, j :: 0 <= i < j < |limits| ==> limits[i].model != limits[j].model
  }

  ghost function MissingNames(limits: seq<LimitStatus>): set<string> {
    set t | t in limits && BackendMissing(t) :: t.model
  }

  lemma {:induction false} ReadySize(models: seq<ModelStatus>)
    requires DistinctModelNames(models)
    ensures CountReady(models) == |ReadyNames(models)|
  {
    if models != [] {
      var init, last := models[..|models| - 1], models[|models| - 1];
      ReadySize(init);
      assert models == init + [last];
      if last.ready {
        assert ReadyNames(models) == ReadyNames(init) + {last.key.name};
      } else {
        assert ReadyNames(models) == ReadyNames(init);
      }
    }
  }

  lemma Grow(names: set<string>, a: set<string>, x: string)
    requires x !in a
    ensures |names * (a + {x})| == |names * a| + if x in names then 1 else 0
  {
    if x in names {
      assert names * (a + {x}) == names * a + {x};
    } else {
      assert names * (a + {x}) == names * a;
    }
  }

  lemma MissingLast(limits: seq<LimitStatus>)
    requires limits != [] && DistinctLimitNames(limits)
    ensures var init, last := limits[..|limits| - 1], limits[|limits| - 1];
            MissingNames(limits) == (if BackendMissing(last) then MissingNames(init) + {last.model}
                                     else MissingNames(init)) &&
            last.model !in MissingNames(init)
  {
    assert limits == limits[..|limits| - 1] + [limits[|limits| - 1]];
  }

  lemma {:induction false} IssuesSize(limits: seq<LimitStatus>, names: set<string>)
    requires DistinctLimitNames(limits)
    ensures CountIssues(limits, names) == |names * MissingNames(limits)|
  {
    if limits != [] {
      var init, last := limits[..|limits| - 1], limits[|limits| - 1];
      IssuesSize(init, names);
      MissingLast(limits);
      Grow(names, MissingNames(init), last.model);
    }
  }

  lemma SubsetBySize(a: set<string>, b: set<string>)
    ensures |a| <= |a * b| <==> a <= b
  {
    if a <= b {
      assert a * b == a;
    } else {
      var x :| x in a && x !in b;
      assert a * b <= a - {x};
      SubsetSize(a * b, a - {x});
    }
  }

  lemma {:induction false} SubsetSize<T>(a: set<T>, b: set<T>)
    requires a <= b
    ensures |a| <= |b|
    decreases a
  {
    if a != {} {
      var x :| x in a;
      SubsetSize(a - {x}, b - {x});
    }
  }

  /** With distinct bare names: Failed exactly when every Ready model has a BackendNotReady policy. */
  lemma FailedIff(models: seq<ModelStatus>, limits: seq<LimitStatus>)
    requires DistinctModelNames(models) && DistinctLimitNames(limits)
    ensures FinalPhase(models, limits) == Failed <==>
            forall m :: m in models && m.ready ==> exists t :: t in limits && t.model == m.key.name && BackendMissing(t)
  {
    var names, missing := ReadyNames(models), MissingNames(limits);
    ReadySize(models);
    IssuesSize(limits, names);
    SubsetBySize(names, missing);
    if names <= missing {
      forall m | m in models && m.ready ensures exists t :: t in limits && t.model == m.key.name && BackendMissing(t) {
        assert m.key.name in names;
      }
    }
    if models == [] {
      assert names == {};
    }
  }

  // ---- After back-propagation ----

  function FinalModels(s: State, keys: seq<Key>): seq<ModelStatus> {
    Propagate(ModelStatuses(s, keys), LimitStatuses(s, keys))
  }

  function StatusOf(s: State, keys: seq<Key>): SubStatus {
    SubStatus(FinalPhase(FinalModels(s, keys), LimitStatuses(s, keys)), FinalModels(s, keys), LimitStatuses(s, keys))
  }

  lemma StatusMembers(s: State, keys: seq<Key>, key: Key)
    requires key in keys
    ensures LimitStatusOf(s, key) in LimitStatuses(s, keys)
    ensures ModelStatus(key, key in s.models && LimitStatusOf(s, key).reason != BackendNotReady,
                        if key in s.models && LimitStatusOf(s, key).reason != BackendNotReady then Valid else NotFound)
            in FinalModels(s, keys)
  {
    var d := Distinct(keys);
    var i :| 0 <= i < |d| && d[i] == key;
    assert LimitStatuses(s, keys)[i] == LimitStatusOf(s, key);
    ContradictedIff(s, keys, key);
    assert FinalModels(s, keys)[i].key == key;
  }

  lemma LimitStatusSource(s: State, keys: seq<Key>, u: LimitStatus) returns (key: Key)
    requires u in LimitStatuses(s, keys)
    ensures key in keys && u == LimitStatusOf(s, key)
  {
    var i :| 0 <= i < |LimitStatuses(s, keys)| && LimitStatuses(s, keys)[i] == u;
    key := Distinct(keys)[i];
  }

  lemma ContradictedIff(s: State, keys: seq<Key>, key: Key)
    requires key in keys
    ensures Contradicted(ModelStatusOf(s, key), LimitStatuses(s, keys)) <==>
            LimitStatusOf(s, key).reason == BackendNotReady
  {
    var d := Distinct(keys);
    var i :| 0 <= i < |d| && d[i] == key;
    assert LimitStatuses(s, keys)[i] == LimitStatusOf(s, key);
  }

  lemma FinalModelSource(s: State, keys: seq<Key>, m: ModelStatus) returns (key: Key)
    requires m in FinalModels(s, keys) && m.ready
    ensures key in keys && m.key == key && key in s.models && LimitStatusOf(s, key).reason != BackendNotReady
  {
    var d := Distinct(keys);
    var i :| 0 <= i < |d| && FinalModels(s, keys)[i] == m;
    key := d[i];
    ContradictedIff(s, keys, key);
  }

  predicate Served(s: State, key: Key) {
    key in s.models && LimitStatusOf(s, key).reason != BackendNotReady
  }

  predicate Unbacked(s: State, key: Key) {
    LimitStatusOf(s, key).reason == BackendNotReady
  }

  /** A bare name shared by a served model and one whose backend is missing. */
  ghost predicate NameClash(s: State, keys: seq<Key>) {
    exists k, k' :: k in keys && k' in keys && k.name == k'.name && Served(s, k) && Unbacked(s, k')
  }

  lemma ReadyNamesAre(s: State, keys: seq<Key>, name: string)
    ensures name in ReadyNames(FinalModels(s, keys)) <==> exists k :: k in keys && Served(s, k) && k.name == name
  {
    if name in ReadyNames(FinalModels(s, keys)) {
      var m :| m in FinalModels(s, keys) && m.ready && m.key.name == name;
      var k := FinalModelSource(s, keys, m);
    }
    if k :| k in keys && Served(s, k) && k.name == name {
      StatusMembers(s, keys, k);
    }
  }

  lemma MissingAre(s: State, keys: seq<Key>, name: string)
    ensures (exists t :: t in LimitStatuses(s, keys) && BackendMissing(t) && t.model == name) <==>
            (exists k :: k in keys && Unbacked(s, k) && k.name == name)
  {
    var limits := LimitStatuses(s, keys);
    if t :| t in limits && BackendMissing(t) && t.model == name {
      var k := LimitStatusSource(s, keys, t);
      assert Unbacked(s, k) && k.name == name;
    }
    if k :| k in keys && Unbacked(s, k) && k.name == name {
      StatusMembers(s, keys, k);
      assert BackendMissing(LimitStatusOf(s, k));
    }
  }

  lemma {:induction false} IssuesPositive(limits: seq<LimitStatus>, names: set<string>)
    ensures CountIssues(limits, names) > 0 <==> exists t :: t in limits && BackendMissing(t) && t.model in names
  {
    if limits != [] {
      IssuesPositive(limits[..|limits| - 1], names);
      assert limits == limits[..|limits| - 1] + [limits[|limits| - 1]];
    }
  }

  /** The race adjustment inside `deriveFinalPhase` counts something a second time exactly on a name clash;
      with distinct bare names it is a no-op after the back-propagation. */
  lemma AdjustmentIsNoOpIff(s: State, keys: seq<Key>)
    ensures CountIssues(LimitStatuses(s, keys), ReadyNames(FinalModels(s, keys))) == 0 <==> !NameClash(s, keys)
  {
    var limits, names := LimitStatuses(s, keys), ReadyNames(FinalModels(s, keys));
    IssuesPositive(limits, names);
    if t :| t in limits && BackendMissing(t) && t.model in names {
      ReadyNamesAre(s, keys, t.model);
      MissingAre(s, keys, t.model);
    }
    if k, k' :| k in keys && k' in keys && k.name == k'.name && Served(s, k) && Unbacked(s, k') {
      ReadyNamesAre(s, keys, k.name);
      MissingAre(s, keys, k.name);
    }
  }

  /** On a clash the double count is visible: a subscription with a served model is reported Failed. */
  lemma ClashReportsFailed(s: State, k: Key, k': Key)
    requires k.name == k'.name && k.ns != k'.ns && k in s.models
    requires LimitStatusOf(s, k).ready && LimitStatusOf(s, k').reason == BackendNotReady
    ensures StatusOf(s, [k, k']).phase == Failed
    ensures StatusOf(s, [k]).phase == Active
  {
    assert [k][..0] == [];
    AloneIsActive(s, k);
    assert [k, k'][..1] == [k];
    assert Distinct([k, k']) == Distinct([k]) + [k'];
    ClashCount(s, k, k');
  }

  lemma AloneIsActive(s: State, k: Key)
    requires k in s.models && LimitStatusOf(s, k).ready
    ensures Distinct([k]) == [k] && StatusOf(s, [k]).phase == Active
  {
    assert [k][..0] == [];
    assert Distinct([k]) == [k];
    ContradictedIff(s, [k], k);
    ActiveIff(FinalModels(s, [k]), LimitStatuses(s, [k]));
  }

  lemma ClashCount(s: State, k: Key, k': Key)
    requires k.name == k'.name && k.ns != k'.ns && k in s.models && Distinct([k, k']) == [k, k']
    requires LimitStatusOf(s, k).ready && LimitStatusOf(s, k').reason == BackendNotReady
    ensures CountReady(FinalModels(s, [k, k'])) <= 1
    ensures CountIssues(LimitStatuses(s, [k, k']), ReadyNames(FinalModels(s, [k, k']))) >= 1
  {
    var keys := [k, k'];
    assert k in keys && k' in keys;
    assert Served(s, k) && Unbacked(s, k');
    AdjustmentIsNoOpIff(s, keys);
    ContradictedIff(s, keys, k');
    SecondUnready(FinalModels(s, keys));
  }

  lemma SecondUnready(models: seq<ModelStatus>)
    requires |models| == 2 && !models[1].ready
    ensures CountReady(models) <= 1
  {
    ReadyCounts(models[..1]);
  }
}
