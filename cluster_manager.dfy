/**
 * The cluster manager: point mutators for virtual services and destination
 * rules, the namespace ensurer, the per-kind upsert and pruner, and the Apply
 * and CleanUp orchestrators, run against the cluster store.
 */
module ClusterManager {
  import opened Wrappers
  import opened Resources
  import opened Bundles
  import opened Cluster
  import opened Reconcile


  /**
   * A pruning over the listing `items` that stopped at item `i`: that item's name
   * is not kept and its Delete faults, and exactly the unkept keys before it are gone.
   */
  ghost predicate StoppedAt(before: map<Key, Object>, after: map<Key, Object>, faults: set<Fault>,
                            items: seq<Object>, keep: set<string>, i: nat)
  {
    && i < |items|
    && items[i].meta.name !in keep
    && DeleteFault(KeyOf(items[i])) in faults
    && after == before - Unkept(items[..i], keep)
  }

  /**
   * A pruning of `kind` against `objs` that stopped in namespace `ns`: its
   * pruning does not go through, the namespaces in `done` were pruned
   * before it, and the condemned keys of every other namespace are still there.
   */
  ghost predicate KindStoppedAt(before: map<Key, Object>, after: map<Key, Object>, faults: set<Fault>,
                                kind: Kind, objs: seq<Object>, done: set<string>, ns: string)
  {
    && done <= GroupNamespaces(objs)
    && ns in GroupNamespaces(objs) && ns !in done
    && !Prunable(before, faults, kind, ns, KeepNames(objs, ns))
    && (forall k | k in before && Doomed(k, kind, objs) && k.namespace in done :: k !in after)
    && (forall k | k in before && Doomed(k, kind, objs) && k.namespace !in done && k.namespace != ns :: k in after)
  }

  /** The keys among `items` whose name `keep` does not hold: what a pruning deletes. */
  ghost function Unkept(items: seq<Object>, keep: set<string>): set<Key>
  {
    set j | 0 <= j < |items| && items[j].meta.name !in keep :: KeyOf(items[j])
  }

  lemma UnkeptSnoc(items: seq<Object>, keep: set<string>, i: nat)
    requires i < |items|
    ensures Unkept(items[..i + 1], keep) ==
              Unkept(items[..i], keep) + (if items[i].meta.name in keep then {} else {KeyOf(items[i])})
  {
    var p, q := items[..i], items[..i + 1];
    assert forall j | 0 <= j < i :: q[j] == p[j];
    assert q[i] == items[i];
  }

  /** Over a complete listing, the unkept keys are exactly the stored keys of that kind and namespace outside `keep`. */
  lemma ListingUnkept(objects: map<Key, Object>, kind: Kind, namespace: string, items: seq<Object>, keep: set<string>)
    requires Listing(objects, kind, namespace, items)
    ensures forall k :: k in Unkept(items, keep) <==>
              k in objects && k.kind == kind && k.namespace == namespace && k.name !in keep
  {
    forall k | k in objects && k.kind == kind && k.namespace == namespace && k.name !in keep
      ensures k in Unkept(items, keep)
    {
      var j :| 0 <= j < |items| && KeyOf(items[j]) == k;
      assert items[j].meta.name == k.name;
    }
  }

  /** A key of distinct listed keys is not among the keys before it. */
  lemma UnkeptFresh(items: seq<Object>, keep: set<string>, i: nat)
    requires forall a, b | 0 <= a < b < |items| :: KeyOf(items[a]) != KeyOf(items[b])
    requires i < |items|
    ensures KeyOf(items[i]) !in Unkept(items[..i], keep)
  {
  }

  lemma UpsertAllSingle(s: State, faults: set<Fault>, o: Object)
    ensures UpsertAll(s, faults, [o]) == Upsert(s, faults, o)
  {
    assert [o][..0] == [];
  }

  /** After the cleanup of the first `i` kinds, exactly the condemned keys of those kinds are gone. */
  ghost predicate PrunedBelow(before: map<Key, Object>, after: map<Key, Object>, b: ClusterResources, i: nat)
    requires AllFieldsPresent(b)
  {
    forall k | k in before :: (k in after <==> !(Condemned(b, k) && Rank(k.kind) < i))
  }

  /** One kind's cleanup, seen from the whole cleanup. */
  lemma CleanUpKindStep(before: map<Key, Object>, current: map<Key, Object>, after: map<Key, Object>,
                        faults: set<Fault>, b: ClusterResources, kind: Kind)
    requires AllFieldsPresent(b)
    requires OnlyDeletes(before, current) && PrunedBelow(before, current, b, Rank(kind))
    requires OnlyDeletes(current, after)
    requires forall k | k in current && !Doomed(k, kind, OfKind(b, kind)) :: k in after
    ensures OnlyDeletes(before, after)
    ensures forall k | k in before && !Condemned(b, k) :: k in after
    ensures AbortedAt(before, after, b, kind)
    ensures KindPrunable(current, faults, kind, OfKind(b, kind)) <==> KindPrunable(before, faults, kind, OfKind(b, kind))
    ensures (forall k | k in current && Doomed(k, kind, OfKind(b, kind)) :: k !in after) ==>
              PrunedBelow(before, after, b, Rank(kind) + 1)
  {
    var objs := OfKind(b, kind);
    forall ns | ns in GroupNamespaces(objs)
      ensures Prunable(current, faults, kind, ns, KeepNames(objs, ns)) <==>
              Prunable(before, faults, kind, ns, KeepNames(objs, ns))
    {
      PrunableFrame(before, current, faults, kind, ns, KeepNames(objs, ns));
    }
  }

  lemma PrunedAll(before: map<Key, Object>, after: map<Key, Object>, b: ClusterResources)
    requires AllFieldsPresent(b) && PrunedBelow(before, after, b, |KindOrder|)
    ensures forall k | k in before && Condemned(b, k) :: k !in after
  {
    forall k | k in before && Condemned(b, k) ensures k !in after {
      assert Rank(k.kind) < |KindOrder|;
    }
  }

  /**
   * What CleanUpKind keeps true while namespaces of `objs` remain `pending`:
   * the other namespaces are fully pruned and went through, and nothing else,
   * nor any key whose Delete or List faults, is gone.
   */
  ghost predicate KindPruning(before: map<Key, Object>, objects: map<Key, Object>, faults: set<Fault>,
                              kind: Kind, objs: seq<Object>, pending: set<string>)
  {
    && pending <= GroupNamespaces(objs)
    && OnlyDeletes(before, objects)
    && (forall k | k in before && !(Doomed(k, kind, objs) && k.namespace !in pending) :: k in objects)
    && (forall k | k in before && Doomed(k, kind, objs) && k.namespace !in pending :: k !in objects)
    && (forall ns | ns in GroupNamespaces(objs) && ns !in pending ::
          Prunable(before, faults, kind, ns, KeepNames(objs, ns)))
    && (forall k | k in before && DeleteFault(k) in faults :: k in objects)
    && (forall k | k in before && ListFault(k.kind, k.namespace) in faults :: k in objects)
  }

  /** The pruning of one pending namespace `ns`, from `current` to `after`, seen from the whole kind. */
  lemma KindPruningStep(before: map<Key, Object>, current: map<Key, Object>, after: map<Key, Object>, faults: set<Fault>,
                        kind: Kind, objs: seq<Object>, pending: set<string>, ns: string, pass: bool)
    requires KindPruning(before, current, faults, kind, objs, pending) && ns in pending
    requires OnlyDeletes(current, after)
    requires forall k | k in current && !(k.kind == kind && k.namespace == ns && k.name !in KeepNames(objs, ns)) ::
               k in after
    requires pass <==> Prunable(current, faults, kind, ns, KeepNames(objs, ns))
    requires pass ==> forall k | k in current && k.kind == kind && k.namespace == ns && k.name !in KeepNames(objs, ns) ::
               k !in after
    requires ListFault(kind, ns) in faults ==> after == current
    requires forall k | k in current && DeleteFault(k) in faults :: k in after
    ensures pass ==> KindPruning(before, after, faults, kind, objs, pending - {ns})
    ensures !pass ==> KindStoppedAt(before, after, faults, kind, objs, GroupNamespaces(objs) - pending, ns)
  {
    PrunableFrame(before, current, faults, kind, ns, KeepNames(objs, ns));
  }

  /** A kind's failed pruning, seen from before the earlier kinds were pruned, which left its keys alone. */
  lemma KindStoppedAtLift(before: map<Key, Object>, current: map<Key, Object>, after: map<Key, Object>, faults: set<Fault>,
                          kind: Kind, objs: seq<Object>, done: set<string>, ns: string)
    requires OnlyDeletes(before, current)
    requires forall k | k in before && k.kind == kind :: k in current
    requires KindStoppedAt(current, after, faults, kind, objs, done, ns)
    ensures KindStoppedAt(before, after, faults, kind, objs, done, ns)
  {
    PrunableFrame(before, current, faults, kind, ns, KeepNames(objs, ns));
  }

  /** The cut points of Apply's upsert phase. */
  lemma PlanSplits(b: ClusterResources)
    requires AllFieldsPresent(b)
    ensures var s, d, v, r, g := b.services.value, b.deployments.value, b.virtualServices.value,
                                 b.destinationRules.value, [b.gateway.value];
      && Plan(b) == s + (d + v + r + g)
      && Plan(b) == s + d + (v + r + g)
      && Plan(b) == s + d + v + (r + g)
      && Plan(b) == s + d + v + r + g
  {
  }

  /** One more upsert of the run over `objs`. */
  lemma UpsertAllSnoc(s: State, faults: set<Fault>, objs: seq<Object>, i: nat)
    requires i < |objs|
    ensures UpsertAll(s, faults, objs[..i + 1]) ==
              var prev := UpsertAll(s, faults, objs[..i]);
              if prev.outcome.Fail? then prev else Upsert(prev.state, faults, objs[i])
  {
    assert objs[..i + 1][..i] == objs[..i];
  }


  class ClusterManager {
    /** Stands for both the Kubernetes and the Istio client. */
    const store: ClusterStore

    constructor (store: ClusterStore)
      ensures this.store == store
    {
      this.store := store;
    }

    // ------------------------------------------------------------ lookups

    method GetVirtualServices(namespace: string) returns (r: Result<seq<Object>>)
      requires store.Valid()
      ensures r.Err? <==> ListFault(VirtualService, namespace) in store.faults
      ensures r.Ok? ==> Listing(store.objects, VirtualService, namespace, r.value)
      ensures r.Ok? ==> forall i | 0 <= i < |r.value| :: r.value[i].spec.VirtualServiceSpec?
    {
      r := store.List(VirtualService, namespace);
      if r.Ok? {
        forall i | 0 <= i < |r.value| ensures r.value[i].spec.VirtualServiceSpec? {
          assert KindOf(r.value[i].spec) == VirtualService;
        }
      }
    }

    method GetVirtualService(namespace: string, name: string) returns (r: Result<Object>)
      requires store.Valid()
      ensures var k := Key(VirtualService, namespace, name);
        (r.Ok? <==> k in store.objects && GetFault(k) !in store.faults) &&
        (r.Ok? ==> r.value == store.objects[k] && r.value.spec.VirtualServiceSpec? &&
                   r.value.meta.name == name && r.value.meta.namespace == namespace)
    {
      r := store.Get(Key(VirtualService, namespace, name));
    }

    method GetDestinationRules(namespace: string) returns (r: Result<seq<Object>>)
      requires store.Valid()
      ensures r.Err? <==> ListFault(DestinationRule, namespace) in store.faults
      ensures r.Ok? ==> Listing(store.objects, DestinationRule, namespace, r.value)
      ensures r.Ok? ==> forall i | 0 <= i < |r.value| :: r.value[i].spec.DestinationRuleSpec?
    {
      r := store.List(DestinationRule, namespace);
      if r.Ok? {
        forall i | 0 <= i < |r.value| ensures r.value[i].spec.DestinationRuleSpec? {
          assert KindOf(r.value[i].spec) == DestinationRule;
        }
      }
    }

    method GetDestinationRule(namespace: string, name: string) returns (r: Result<Object>)
      requires store.Valid()
      ensures var k := Key(DestinationRule, namespace, name);
        (r.Ok? <==> k in store.objects && GetFault(k) !in store.faults) &&
        (r.Ok? ==> r.value == store.objects[k] && r.value.spec.DestinationRuleSpec? &&
                   r.value.meta.name == name && r.value.meta.namespace == namespace)
    {
      r := store.Get(Key(DestinationRule, namespace, name));
    }

    // ------------------------------------------------------ point mutators

    /**
     * Puts `rule` in front of the named virtual service's HTTP routes and
     * writes the object back; a failed Get writes nothing.
     */
    method AddRoutingRule(namespace: string, vsName: string, rule: HttpRoute) returns (out: Outcome)
      requires store.Valid()
      modifies store
      ensures store.Valid() && store.namespaces == old(store.namespaces)
      ensures var k := Key(VirtualService, namespace, vsName);
        && (out.Pass? <==> k in old(store.objects) && GetFault(k) !in store.faults && UpdateFault(k) !in store.faults)
        && (out.Pass? ==> old(store.objects)[k].spec.VirtualServiceSpec? &&
                          store.objects == old(store.objects)[k := WithRoutingRule(old(store.objects)[k], rule)])
        && (out.Fail? ==> store.objects == old(store.objects))
    {
      var k := Key(VirtualService, namespace, vsName);
      var got := store.Get(k);
      if got.Err? {
        return Fail;
      }
      var vs := got.value;
      assert KeyOf(vs) == k;
      // always prepend: routing rules are evaluated first-match
      vs := WithRoutingRule(vs, rule);
      out := store.Update(vs);
    }

    /**
     * The scan over the existing subsets: the flag stays set exactly when no
     * subset has the new subset's name. The assignment of the new subset to the
     * loop variable rebinds a copy and changes nothing.
     */
    method ScanSubsets(subsets: seq<Subset>, subset: Subset) returns (shouldAddNewSubset: bool)
      ensures shouldAddNewSubset <==> !HasSubsetNamed(subsets, subset.name)
    {
      shouldAddNewSubset := true;
      var i := 0;
      while i < |subsets|
        invariant 0 <= i <= |subsets|
        invariant shouldAddNewSubset <==> forall j | 0 <= j < i :: subsets[j].name != subset.name
      {
        var s := subsets[i];
        if s.name == subset.name {
          s := subset;
          shouldAddNewSubset := false;
        }
        i := i + 1;
      }
    }

    /**
     * Appends `subset` to the named destination rule when no subset has its
     * name, and writes the object back either way; a failed Get writes nothing.
     */
    method AddSubset(namespace: string, drName: string, subset: Subset) returns (out: Outcome)
      requires store.Valid()
      modifies store
      ensures store.Valid() && store.namespaces == old(store.namespaces)
      ensures var k := Key(DestinationRule, namespace, drName);
        && (out.Pass? <==> k in old(store.objects) && GetFault(k) !in store.faults && UpdateFault(k) !in store.faults)
        && (out.Pass? ==> old(store.objects)[k].spec.DestinationRuleSpec? &&
                          store.objects == old(store.objects)[k := WithSubset(old(store.objects)[k], subset)])
        && (out.Fail? ==> store.objects == old(store.objects))
    {
      var k := Key(DestinationRule, namespace, drName);
      var got := store.Get(k);
      if got.Err? {
        return Fail;
      }
      var dr := got.value;
      assert KeyOf(dr) == k;
      var shouldAddNewSubset := ScanSubsets(dr.spec.subsets, subset);
      if shouldAddNewSubset {
        dr := dr.(spec := dr.spec.(subsets := dr.spec.subsets + [subset]));
      }
      assert dr == WithSubset(got.value, subset);
      out := store.Update(dr);
    }

    // ------------------------------------------------- namespaces, upserts

    method EnsureNamespace(name: string) returns (out: Outcome)
      requires store.Valid() && LabelsWritable(store.Snapshot(), store.faults, name)
      modifies store
      ensures store.Valid()
      ensures Step(store.Snapshot(), out) == Reconcile.EnsureNamespace(old(store.Snapshot()), store.faults, name)
    {
      var existing := store.GetNamespace(name);
      if existing.Ok? {
        var labels := existing.value.value;
        if IstioLabel !in labels || labels[IstioLabel] != EnabledIstioValue {
          labels := labels[IstioLabel := EnabledIstioValue];
          // the error of this Update is discarded
          var ignored := store.UpdateNamespace(name, Some(labels));
        }
      } else {
        out := store.CreateNamespace(name, map[IstioLabel := EnabledIstioValue]);
        if out.Fail? {
          return;
        }
      }
      out := Pass;
    }

    /** createOrUpdate for any kind: the kind comes from the desired object. */
    method CreateOrUpdate(desired: Object) returns (out: Outcome)
      requires store.Valid()
      modifies store
      ensures store.Valid()
      ensures Step(store.Snapshot(), out) == Upsert(old(store.Snapshot()), store.faults, desired)
    {
      var existing := store.Get(KeyOf(desired));
      if existing.Err? {
        // the resource does not exist: create it
        out := store.Create(desired);
      } else {
        // take the live version token before the full replace
        var stamped := WithVersion(desired, existing.value.meta.resourceVersion);
        out := store.Update(stamped);
      }
    }

    /** One of Apply's per-kind loops: upsert each object in order, stopping at the first error. */
    method UpsertEach(objs: seq<Object>) returns (out: Outcome)
      requires store.Valid()
      modifies store
      ensures store.Valid()
      ensures Step(store.Snapshot(), out) == UpsertAll(old(store.Snapshot()), store.faults, objs)
    {
      ghost var s0, faults := store.Snapshot(), store.faults;
      var i := 0;
      while i < |objs|
        invariant 0 <= i <= |objs|
        invariant store.Valid() && store.faults == faults
        invariant UpsertAll(s0, faults, objs[..i]) == Step(store.Snapshot(), Pass)
      {
        UpsertAllSnoc(s0, faults, objs, i);
        out := CreateOrUpdate(objs[i]);
        if out.Fail? {
          UpsertAllStops(s0, faults, objs[..i + 1], objs[i + 1..]);
          assert objs[..i + 1] + objs[i + 1..] == objs;
          return;
        }
        i := i + 1;
      }
      assert objs[..i] == objs;
      out := Pass;
    }

    method ApplyClusterResources(cr: Option<ClusterResources>) returns (out: Outcome)
      requires store.Valid() && ApplyDefined(store.Snapshot(), store.faults, cr)
      modifies store
      ensures store.Valid()
      ensures Step(store.Snapshot(), out) == Apply(old(store.Snapshot()), store.faults, cr)
    {
      if !IsValid(cr) {
        return Pass;
      }
      var b := cr.value;
      out := EnsureNamespaces(Namespaces(b));
      if out.Fail? {
        return;
      }
      out := UpsertPlan(b);
    }

    /** Apply's first loop: ensure each namespace in order, stopping at the first error. */
    method EnsureNamespaces(names: seq<string>) returns (out: Outcome)
      requires store.Valid() && forall n | n in names :: LabelsWritable(store.Snapshot(), store.faults, n)
      modifies store
      ensures store.Valid()
      ensures Step(store.Snapshot(), out) == EnsureAll(old(store.Snapshot()), store.faults, names)
    {
      var i := 0;
      while i < |names|
        invariant 0 <= i <= |names|
        invariant store.Valid()
        invariant forall n | n in names[..i] :: n in names
        invariant EnsureAll(old(store.Snapshot()), store.faults, names[..i]) == Step(store.Snapshot(), Pass)
        invariant forall n | n in names :: LabelsWritable(store.Snapshot(), store.faults, n)
      {
        assert names[..i + 1][..i] == names[..i];
        assert forall n | n in names[..i + 1] :: n in names;
        out := EnsureNamespace(names[i]);
        if out.Fail? {
          EnsureAllStops(old(store.Snapshot()), store.faults, names, i + 1);
          return;
        }
        i := i + 1;
      }
      assert names[..i] == names;
      out := Pass;
    }

    /**
     * Apply's upsert phase: services, deployments, virtual services and
     * destination rules, each in order, then the gateway, stopping at the
     * first error.
     */
    method UpsertPlan(b: ClusterResources) returns (out: Outcome)
      requires store.Valid() && AllFieldsPresent(b)
      modifies store
      ensures store.Valid()
      ensures Step(store.Snapshot(), out) == UpsertAll(old(store.Snapshot()), store.faults, Plan(b))
    {
      ghost var s0, faults := store.Snapshot(), store.faults;
      var services, deployments, virtualServices, destinationRules, gateway :=
        b.services.value, b.deployments.value, b.virtualServices.value, b.destinationRules.value, b.gateway.value;
      PlanSplits(b);
      out := UpsertEach(services);
      if out.Fail? {
        UpsertAllStops(s0, faults, services, deployments + virtualServices + destinationRules + [gateway]);
        return;
      }
      out := UpsertEach(deployments);
      UpsertAllConcat(s0, faults, services, deployments);
      if out.Fail? {
        UpsertAllStops(s0, faults, services + deployments, virtualServices + destinationRules + [gateway]);
        return;
      }
      out := UpsertEach(virtualServices);
      UpsertAllConcat(s0, faults, services + deployments, virtualServices);
      if out.Fail? {
        UpsertAllStops(s0, faults, services + deployments + virtualServices, destinationRules + [gateway]);
        return;
      }
      out := UpsertEach(destinationRules);
      UpsertAllConcat(s0, faults, services + deployments + virtualServices, destinationRules);
      if out.Fail? {
        UpsertAllStops(s0, faults, services + deployments + virtualServices + destinationRules, [gateway]);
        return;
      }
      ghost var t := store.Snapshot();
      out := CreateOrUpdate(gateway);
      UpsertAllConcat(s0, faults, services + deployments + virtualServices + destinationRules, [gateway]);
      UpsertAllSingle(t, faults, gateway);
    }

    // ----------------------------------------------------------- pruning

    /**
     * cleanUp<Kind>InNamespace: lists the objects of `kind` in `namespace` and
     * deletes, one at a time, those whose name no object of `keep` has.
     */
    method CleanUpInNamespace(kind: Kind, namespace: string, keep: seq<Object>) returns (out: Outcome)
      requires store.Valid()
      modifies store
      ensures store.Valid() && store.namespaces == old(store.namespaces)
      ensures OnlyDeletes(old(store.objects), store.objects)
      ensures forall k | k in old(store.objects) && !(k.kind == kind && k.namespace == namespace && k.name !in NamesOf(keep)) ::
                k in store.objects
      ensures out.Pass? <==> Prunable(old(store.objects), store.faults, kind, namespace, NamesOf(keep))
      ensures out.Pass? ==>
                forall k | k in old(store.objects) && k.kind == kind && k.namespace == namespace && k.name !in NamesOf(keep) ::
                  k !in store.objects
      ensures ListFault(kind, namespace) in store.faults ==> store.objects == old(store.objects)
      ensures forall k | k in old(store.objects) && DeleteFault(k) in store.faults :: k in store.objects
      ensures out.Fail? && ListFault(kind, namespace) !in store.faults ==>
                exists items: seq<Object>, i: nat ::
                  Listing(old(store.objects), kind, namespace, items) &&
                  StoppedAt(old(store.objects), store.objects, store.faults, items, NamesOf(keep), i)
    {
      var listed := store.List(kind, namespace);
      if listed.Err? {
        return Fail;
      }
      ListingUnkept(store.objects, kind, namespace, listed.value, NamesOf(keep));
      out := DeleteUnkept(listed.value, keep);
    }

    /** The loop of a pruning: delete each listed object that `keep` has no name for, stopping at the first error. */
    method DeleteUnkept(items: seq<Object>, keep: seq<Object>) returns (out: Outcome)
      requires store.Valid()
      requires forall i | 0 <= i < |items| :: KeyOf(items[i]) in store.objects
      requires forall i, j | 0 <= i < j < |items| :: KeyOf(items[i]) != KeyOf(items[j])
      modifies store
      ensures store.Valid() && store.namespaces == old(store.namespaces)
      ensures OnlyDeletes(old(store.objects), store.objects)
      ensures forall k | k in old(store.objects) && k !in Unkept(items, NamesOf(keep)) :: k in store.objects
      ensures out.Pass? <==> forall k | k in Unkept(items, NamesOf(keep)) :: DeleteFault(k) !in store.faults
      ensures out.Pass? ==> store.objects == old(store.objects) - Unkept(items, NamesOf(keep))
      ensures forall k | k in old(store.objects) && DeleteFault(k) in store.faults :: k in store.objects
      ensures out.Fail? ==> exists i: nat :: StoppedAt(old(store.objects), store.objects, store.faults, items, NamesOf(keep), i)
    {
      ghost var keepNames := NamesOf(keep);
      var i := 0;
      while i < |items|
        invariant 0 <= i <= |items|
        invariant store.Valid() && store.namespaces == old(store.namespaces)
        invariant store.objects == old(store.objects) - Unkept(items[..i], keepNames)
        invariant forall k | k in Unkept(items[..i], keepNames) :: DeleteFault(k) !in store.faults
      {
        var item := items[i];
        UnkeptSnoc(items, keepNames, i);
        UnkeptFresh(items, keepNames, i);
        var kept := FindByName(keep, item.meta.name);
        if kept.None? {
          out := store.Delete(KeyOf(item));
          if out.Fail? {
            assert KeyOf(item) in Unkept(items, keepNames);
            assert StoppedAt(old(store.objects), store.objects, store.faults, items, keepNames, i);
            return;
          }
        }
        i := i + 1;
      }
      assert items[..i] == items;
      out := Pass;
    }

    /**
     * One of CleanUp's per-kind blocks: group `objs` by namespace and prune each
     * group's namespace against the group, in no particular order, stopping at
     * the first error.
     */
    method CleanUpKind(kind: Kind, objs: seq<Object>) returns (out: Outcome)
      requires store.Valid()
      modifies store
      ensures store.Valid() && store.namespaces == old(store.namespaces)
      ensures OnlyDeletes(old(store.objects), store.objects)
      ensures forall k | k in old(store.objects) && !Doomed(k, kind, objs) :: k in store.objects
      ensures out.Pass? <==> KindPrunable(old(store.objects), store.faults, kind, objs)
      ensures out.Pass? ==> forall k | k in old(store.objects) && Doomed(k, kind, objs) :: k !in store.objects
      ensures forall k | k in old(store.objects) && DeleteFault(k) in store.faults :: k in store.objects
      ensures forall k | k in old(store.objects) && ListFault(k.kind, k.namespace) in store.faults :: k in store.objects
      ensures out.Fail? ==>
                exists done: set<string>, ns: string ::
                  KindStoppedAt(old(store.objects), store.objects, store.faults, kind, objs, done, ns)
    {
      ghost var before := store.objects;
      var pending := GroupNamespaces(objs);
      while pending != {}
        invariant store.Valid() && store.namespaces == old(store.namespaces)
        invariant KindPruning(before, store.objects, store.faults, kind, objs, pending)
        decreases pending
      {
        var ns :| ns in pending;
        ghost var current := store.objects;
        GroupNames(objs, ns);
        out := CleanUpInNamespace(kind, ns, Group(objs, ns));
        KindPruningStep(before, current, store.objects, store.faults, kind, objs, pending, ns, out.Pass?);
        if out.Fail? {
          return;
        }
        pending := pending - {ns};
      }
      out := Pass;
    }

    method CleanUpClusterResources(cr: Option<ClusterResources>) returns (out: Outcome)
      requires store.Valid() && (IsValid(cr) ==> AllFieldsPresent(cr.value))
      modifies store
      ensures store.Valid() && store.namespaces == old(store.namespaces)
      ensures OnlyDeletes(old(store.objects), store.objects)
      ensures !IsValid(cr) ==> out.Pass? && store.objects == old(store.objects)
      ensures IsValid(cr) ==> forall k | k in old(store.objects) && !Condemned(cr.value, k) :: k in store.objects
      ensures IsValid(cr) ==>
                (out.Pass? <==> forall kind: Kind :: KindPrunable(old(store.objects), store.faults, kind, OfKind(cr.value, kind)))
      ensures IsValid(cr) && out.Pass? ==>
                forall k | k in old(store.objects) && Condemned(cr.value, k) :: k !in store.objects
      ensures forall k | k in old(store.objects) && DeleteFault(k) in store.faults :: k in store.objects
      ensures forall k | k in old(store.objects) && ListFault(k.kind, k.namespace) in store.faults :: k in store.objects
      ensures IsValid(cr) && out.Fail? ==>
                exists failed: Kind, done: set<string>, ns: string ::
                  && AbortedAt(old(store.objects), store.objects, cr.value, failed)
                  && (forall kind: Kind | Rank(kind) < Rank(failed) ::
                        KindPrunable(old(store.objects), store.faults, kind, OfKind(cr.value, kind)))
                  && KindStoppedAt(old(store.objects), store.objects, store.faults, failed, OfKind(cr.value, failed), done, ns)
    {
      if !IsValid(cr) {
        return Pass;
      }
      var b := cr.value;
      ghost var before := store.objects;
      var i := 0;
      while i < |KindOrder|
        invariant 0 <= i <= |KindOrder|
        invariant store.Valid() && store.namespaces == old(store.namespaces)
        invariant OnlyDeletes(before, store.objects)
        invariant PrunedBelow(before, store.objects, b, i)
        invariant forall kind: Kind | Rank(kind) < i :: KindPrunable(before, store.faults, kind, OfKind(b, kind))
        invariant forall k | k in before && DeleteFault(k) in store.faults :: k in store.objects
        invariant forall k | k in before && ListFault(k.kind, k.namespace) in store.faults :: k in store.objects
      {
        var kind := KindOrder[i];
        assert Rank(kind) == i;
        ghost var current := store.objects;
        out := CleanUpKind(kind, OfKind(b, kind));
        CleanUpKindStep(before, current, store.objects, store.faults, b, kind);
        if out.Fail? {
          ghost var done, ns :| KindStoppedAt(current, store.objects, store.faults, kind, OfKind(b, kind), done, ns);
          KindStoppedAtLift(before, current, store.objects, store.faults, kind, OfKind(b, kind), done, ns);
          assert KindStoppedAt(before, store.objects, store.faults, kind, OfKind(b, kind), done, ns);
          return;
        }
        i := i + 1;
      }
      PrunedAll(before, store.objects, b);
      out := Pass;
    }
  }
}
