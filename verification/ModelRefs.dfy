/** Finalization of a MaaSModelRef (maas-controller/pkg/controller/maas/maasmodelref_controller.go:103-249),
    as far as generated policies are concerned. */
module ModelRefs {
  import opened Strings
  import opened Cluster
  import AuthPolicies
  import TokenLimits

  ghost predicate Finalizes(s: State, key: Key) {
    key in s.models && s.models[key].deleting && s.models[key].finalizer
  }

  ghost predicate Reconciles(s: State, key: Key, s': State) {
    && s' == s.(models := s'.models, auths := s'.auths, trlps := s'.trlps)
    && (if Finalizes(s, key) then
          && s'.models == s.models - {key}
          && s'.auths == s.auths.SetTo(key, AuthPolicies.Deleted(s.auths.Get(key)))
          && s'.trlps == s.trlps.SetTo(key, TokenLimits.Deleted(s.trlps.Get(key)))
        else
          && s'.auths == s.auths && s'.trlps == s.trlps
          && s'.models == if key in s.models && !s.models[key].deleting
                          then s.models[key := s.models[key].(finalizer := true)] else s.models)
  }

  /** A live model gets its finalizer, and one that waits for no finalizer is left alone; no policy is touched. */
  lemma LiveModel(s: State, key: Key, s': State)
    requires Reconciles(s, key, s') && !Finalizes(s, key)
    ensures s'.auths == s.auths && s'.trlps == s.trlps
    ensures key in s.models && !s.models[key].deleting ==>
            s'.models == s.models[key := s.models[key].(finalizer := true)]
    ensures key !in s.models || s.models[key].deleting ==> s' == s
  {
  }

  /** Finalization leaves no managed generated policy for the model, and keeps exactly those annotated "false", as
      they were. */
  lemma FinalizationCleans(s: State, key: Key, s': State)
    requires Finalizes(s, key) && Reconciles(s, key, s')
    ensures key !in s'.models
    ensures s'.auths.Get(key).Some? <==> s.auths.Get(key).Some? && s.auths.Get(key).value.managed == Some("false")
    ensures s'.trlps.Get(key).Some? <==> s.trlps.Get(key).Some? && s.trlps.Get(key).value.managed == Some("false")
    ensures s'.auths.Get(key).Some? ==> s'.auths.Get(key) == s.auths.Get(key)
    ensures s'.trlps.Get(key).Some? ==> s'.trlps.Get(key) == s.trlps.Get(key)
    ensures forall k :: k != key ==> s'.auths.Get(k) == s.auths.Get(k) && s'.trlps.Get(k) == s.trlps.Get(k)
  {
  }

  class Reconciler {
    const server: ApiServer

    constructor (server: ApiServer)
      ensures this.server == server
    {
      this.server := server;
    }

    /** `Reconcile` and `handleDeletion`; kind-specific clean-up does nothing for either kind. */
    method Reconcile(key: Key)
      modifies server`models, server`auths, server`trlps
      ensures Reconciles(old(server.Snapshot()), key, server.Snapshot())
    {
      if key !in server.models { return; }
      var model := server.models[key];
      if model.deleting {
        if model.finalizer {
          var auth := server.auths.Get(key);
          if auth.Some? && IsManaged(auth.value.managed) {
            server.auths := server.auths.Delete(key);
          }
          var trlp := server.trlps.Get(key);
          if trlp.Some? && IsManaged(trlp.value.managed) {
            server.trlps := server.trlps.Delete(key);
          }
          server.models := server.models - {key};
        }
        return;
      }
      server.models := server.models[key := model.(finalizer := true)];
    }
  }
}
