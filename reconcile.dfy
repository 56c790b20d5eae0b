/**
 * The reconciliation steps of the cluster manager as functions over a cluster
 * snapshot, with what each promises, and the orchestration of Apply built from
 * them. The ClusterManager class runs these steps against the live store.
 */
module Reconcile {
  import opened Wrappers
  import opened Seqs
  import opened Resources
  import opened Bundles
  import opened Cluster

  const IstioLabel := "istio-injection"
  const EnabledIstioValue := "enabled"

  predicate IstioEnabled(labels: Labels)
  {
    IstioLabel in labels && labels[IstioLabel] == EnabledIstioValue
  }

  // ---------------------------------------------------------------- upsert

  /**
   * createOrUpdate{Service,Deployment,VirtualService,DestinationRule,Gateway}:
   * when the Get fails the desired object is created as given; otherwise it
   * gets the live version token and replaces the live object.
   */
  function Upsert(s: State, faults: set<Fault>, desired: Object): (r: Step)
    ensures r.state.namespaces == s.namespaces
    ensures r.outcome.Fail? ==> r.state == s
    ensures var k := KeyOf(desired);
      r.outcome.Pass? <==>
        if k in s.objects then GetFault(k) !in faults && UpdateFault(k) !in faults
        else CreateFault(k) !in faults
    ensures var k := KeyOf(desired);
      r.outcome.Pass? ==>
        && r.state.objects.Keys == s.objects.Keys + {k}
        && Unversioned(r.state.objects[k]) == Unversioned(desired)
        && r.state.objects[k].meta.resourceVersion ==
             (if k in s.objects then s.objects[k].meta.resourceVersion else desired.meta.resourceVersion)
        && forall k' | k' in s.objects && k' != k :: r.state.objects[k'] == s.objects[k']
  {
    match ReadObject(s, faults, KeyOf(desired))
    case Err => CreateObject(s, faults, desired)
    case Ok(live) => UpdateObject(s, faults, WithVersion(desired, live.meta.resourceVersion))
  }

  /**
   * Upserting the same object again after a success writes nothing new,
   * whatever its outcome; it passes when the key's Get and Update do not fault.
   */
  lemma UpsertIdempotent(s: State, faults: set<Fault>, desired: Object)
    requires Upsert(s, faults, desired).outcome.Pass?
    ensures var s1 := Upsert(s, faults, desired).state; Upsert(s1, faults, desired).state == s1
    ensures var s1 := Upsert(s, faults, desired).state;
      GetFault(KeyOf(desired)) !in faults && UpdateFault(KeyOf(desired)) !in faults ==>
        Upsert(s1, faults, desired).outcome.Pass?
  {
    var k := KeyOf(desired);
    var s1 := Upsert(s, faults, desired).state;
    var s2 := Upsert(s1, faults, desired).state;
    assert s1.objects[k] == WithVersion(desired, s1.objects[k].meta.resourceVersion);
    assert s2.objects == s1.objects;
  }

  /** Upserts of a list, in order, stopping at the first error. */
  function UpsertAll(s: State, faults: set<Fault>, objs: seq<Object>): (r: Step)
    ensures r.state.namespaces == s.namespaces
    ensures s.objects.Keys <= r.state.objects.Keys
    ensures r.outcome.Pass? ==> forall o | o in objs :: KeyOf(o) in r.state.objects
    decreases |objs|
  {
    if objs == [] then Step(s, Pass)
    else
      var prev := UpsertAll(s, faults, objs[..|objs| - 1]);
      if prev.outcome.Fail? then prev else Upsert(prev.state, faults, objs[|objs| - 1])
  }

  /** Running two lists one after the other is running their concatenation. */
  lemma {:induction false} UpsertAllConcat(s: State, faults: set<Fault>, a: seq<Object>, b: seq<Object>)
    ensures UpsertAll(s, faults, a + b) ==
              var ra := UpsertAll(s, faults, a);
              if ra.outcome.Fail? then ra else UpsertAll(ra.state, faults, b)
    decreases |b|
  {
    if b == [] {
      assert a + b == a;
    } else {
      var b' := b[..|b| - 1];
      assert (a + b)[..|a + b| - 1] == a + b';
      assert (a + b)[|a + b| - 1] == b[|b| - 1];
      UpsertAllConcat(s, faults, a, b');
    }
  }

  /** Once a prefix has failed, the rest of the list does not run. */
  lemma UpsertAllStops(s: State, faults: set<Fault>, a: seq<Object>, b: seq<Object>)
    requires UpsertAll(s, faults, a).outcome.Fail?
    ensures UpsertAll(s, faults, a + b) == UpsertAll(s, faults, a)
  {
    UpsertAllConcat(s, faults, a, b);
  }

  /** The run over `objs` passes its first `i` upserts and fails at upsert `i`, and that failure is the result. */
  predicate UpsertFailsAt(s: State, faults: set<Fault>, objs: seq<Object>, i: nat)
    requires i < |objs|
  {
    var prefix := UpsertAll(s, faults, objs[..i]);
    && prefix.outcome.Pass?
    && Upsert(prefix.state, faults, objs[i]).outcome.Fail?
    && UpsertAll(s, faults, objs) == Step(prefix.state, Fail)
  }

  /**
   * Abort on first error: a failed run is the successful run of some prefix
   * followed by one failing upsert; writes of the prefix stay, nothing after it runs.
   */
  lemma {:induction false} UpsertAllFirstError(s: State, faults: set<Fault>, objs: seq<Object>)
    requires UpsertAll(s, faults, objs).outcome.Fail?
    ensures exists i | 0 <= i < |objs| :: UpsertFailsAt(s, faults, objs, i)
    decreases |objs|
  {
    var n := |objs|;
    var init := objs[..n - 1];
    var prev := UpsertAll(s, faults, init);
    if prev.outcome.Fail? {
      UpsertAllFirstError(s, faults, init);
      var i :| 0 <= i < |init| && UpsertFailsAt(s, faults, init, i);
      assert init[..i] == objs[..i];
      assert init[i] == objs[i];
      assert UpsertFailsAt(s, faults, objs, i);
    } else {
      assert UpsertFailsAt(s, faults, objs, n - 1);
    }
  }

  /** Every key a run adds is the key of some object in the list. */
  lemma {:induction false} UpsertAllNewKeys(s: State, faults: set<Fault>, objs: seq<Object>, k: Key)
    requires k in UpsertAll(s, faults, objs).state.objects && k !in s.objects
    ensures exists o | o in objs :: KeyOf(o) == k
    decreases |objs|
  {
    var init, last := objs[..|objs| - 1], objs[|objs| - 1];
    assert last in objs;
    if k in UpsertAll(s, faults, init).state.objects {
      UpsertAllNewKeys(s, faults, init, k);
      var o :| o in init && KeyOf(o) == k;
      assert o in objs;
    }
  }

  /** Objects whose key no upsert in the list has are left exactly as they were. */
  lemma {:induction false} UpsertAllFrame(s: State, faults: set<Fault>, objs: seq<Object>, k: Key)
    requires forall o | o in objs :: KeyOf(o) != k
    ensures var r := UpsertAll(s, faults, objs).state;
      (k in r.objects <==> k in s.objects) && (k in s.objects ==> r.objects[k] == s.objects[k])
    decreases |objs|
  {
    if objs != [] {
      var init := objs[..|objs| - 1];
      assert forall o | o in init :: o in objs;
      assert objs[|objs| - 1] in objs;
      UpsertAllFrame(s, faults, init, k);
    }
  }

  // ------------------------------------------------ convergence modulo version

  /** The live objects with version tokens erased. */
  function Live(objects: map<Key, Object>): map<Key, Object>
  {
    map k | k in objects :: Unversioned(objects[k])
  }

  /** The unversioned objects of `objs` laid over `base`, later ones winning. */
  function Overlay(base: map<Key, Object>, objs: seq<Object>): map<Key, Object>
    decreases |objs|
  {
    if objs == [] then base
    else Overlay(base, objs[..|objs| - 1])[KeyOf(objs[|objs| - 1]) := Unversioned(objs[|objs| - 1])]
  }

  /** A successful run leaves the live objects, modulo version, as the overlay of the list. */
  lemma {:induction false} UpsertAllOverlay(s: State, faults: set<Fault>, objs: seq<Object>)
    requires UpsertAll(s, faults, objs).outcome.Pass?
    ensures Live(UpsertAll(s, faults, objs).state.objects) == Overlay(Live(s.objects), objs)
    decreases |objs|
  {
    if objs != [] {
      var init, o := objs[..|objs| - 1], objs[|objs| - 1];
      var prev := UpsertAll(s, faults, init);
      UpsertAllOverlay(s, faults, init);
      LiveAfterWrite(prev.state.objects, Upsert(prev.state, faults, o).state.objects, KeyOf(o), Unversioned(o));
    }
  }

  /** Writing one key changes the live view at that key only. */
  lemma LiveAfterWrite(before: map<Key, Object>, after: map<Key, Object>, k: Key, v: Object)
    requires after.Keys == before.Keys + {k} && Unversioned(after[k]) == v
    requires forall k' | k' in before && k' != k :: after[k'] == before[k']
    ensures Live(after) == Live(before)[k := v]
  {
  }

  /** An overlay is the base map updated by the overlay of the list on an empty map. */
  lemma {:induction false} OverlayIsUnion(base: map<Key, Object>, objs: seq<Object>)
    ensures Overlay(base, objs) == base + Overlay(map[], objs)
    decreases |objs|
  {
    if objs == [] {
      assert base + map[] == base;
    } else {
      var init, o := objs[..|objs| - 1], objs[|objs| - 1];
      OverlayIsUnion(base, init);
      assert (base + Overlay(map[], init))[KeyOf(o) := Unversioned(o)] ==
             base + Overlay(map[], init)[KeyOf(o) := Unversioned(o)];
    }
  }

  /** Laying the same list over twice is laying it over once. */
  lemma OverlayIdempotent(base: map<Key, Object>, objs: seq<Object>)
    ensures Overlay(Overlay(base, objs), objs) == Overlay(base, objs)
  {
    OverlayIsUnion(base, objs);
    OverlayIsUnion(Overlay(base, objs), objs);
    var c := Overlay(map[], objs);
    assert (base + c) + c == base + c;
  }

  /** The last object of the list with a given key is the one the overlay holds there. */
  lemma {:induction false} OverlayLastWins(base: map<Key, Object>, objs: seq<Object>, i: nat)
    requires i < |objs|
    requires forall j | i < j < |objs| :: KeyOf(objs[j]) != KeyOf(objs[i])
    ensures KeyOf(objs[i]) in Overlay(base, objs)
    ensures Overlay(base, objs)[KeyOf(objs[i])] == Unversioned(objs[i])
    decreases |objs|
  {
    if i < |objs| - 1 {
      var init := objs[..|objs| - 1];
      assert init[i] == objs[i];
      assert KeyOf(objs[|objs| - 1]) != KeyOf(objs[i]);
      OverlayLastWins(base, init, i);
    }
  }

  // ------------------------------------------------------ namespace ensurer

  /** The label write at line 299 would hit a nil label map. */
  predicate LabelsWritable(s: State, faults: set<Fault>, name: string)
  {
    name in s.namespaces && NamespaceGetFault(name) !in faults ==> s.namespaces[name].Some?
  }

  /** What a successful ensure leaves behind: the mesh label, unless its Update failed. */
  predicate Ensured(s: State, faults: set<Fault>, name: string)
  {
    name in s.namespaces && s.namespaces[name].Some? &&
    (IstioEnabled(s.namespaces[name].value) || NamespaceUpdateFault(name) in faults)
  }

  /**
   * ensureNamespace: an existing namespace gets the mesh-injection label (the
   * Update's error is discarded); a namespace the Get does not return is
   * created carrying only that label.
   */
  function EnsureNamespace(s: State, faults: set<Fault>, name: string): (r: Step)
    requires LabelsWritable(s, faults, name)
    ensures r.state.objects == s.objects
    ensures forall n | n != name ::
              (n in r.state.namespaces <==> n in s.namespaces) &&
              (n in s.namespaces ==> r.state.namespaces[n] == s.namespaces[n])
    ensures forall n | LabelsWritable(s, faults, n) :: LabelsWritable(r.state, faults, n)
    ensures r.outcome.Fail? <==>
              !(name in s.namespaces && NamespaceGetFault(name) !in faults) &&
              (NamespaceCreateFault(name) in faults || name in s.namespaces)
    ensures r.outcome.Fail? ==> r.state == s
    ensures r.outcome.Pass? ==> Ensured(r.state, faults, name)
    ensures name !in s.namespaces && r.outcome.Pass? ==>
              r.state.namespaces[name] == Some(map[IstioLabel := EnabledIstioValue])
    ensures name in s.namespaces && NamespaceGetFault(name) !in faults ==>
              && r.outcome.Pass?
              && name in r.state.namespaces && r.state.namespaces[name].Some?
              && (IstioEnabled(s.namespaces[name].value) || NamespaceUpdateFault(name) in faults ==> r.state == s)
              && var before, after := s.namespaces[name].value, r.state.namespaces[name].value;
                 forall l | l != IstioLabel :: (l in after <==> l in before) && (l in before ==> after[l] == before[l])
    ensures Ensured(s, faults, name) && r.outcome.Pass? ==> r.state == s
  {
    match ReadNamespaceRecord(s, faults, name)
    case Ok(labels) =>
      var m := labels.value;
      if IstioLabel !in m || m[IstioLabel] != EnabledIstioValue then
        // the Update's error is discarded: the ensure succeeds either way
        Step(UpdateNamespaceRecord(s, faults, name, Some(m[IstioLabel := EnabledIstioValue])).state, Pass)
      else Step(s, Pass)
    case Err =>
      CreateNamespaceRecord(s, faults, name, map[IstioLabel := EnabledIstioValue])
  }

  /** ensureNamespace for each name in order, stopping at the first error. */
  function EnsureAll(s: State, faults: set<Fault>, names: seq<string>): (r: Step)
    requires forall n | n in names :: LabelsWritable(s, faults, n)
    ensures r.state.objects == s.objects
    ensures forall n | LabelsWritable(s, faults, n) :: LabelsWritable(r.state, faults, n)
    ensures s.namespaces.Keys <= r.state.namespaces.Keys
    decreases |names|
  {
    if names == [] then Step(s, Pass)
    else
      var init := names[..|names| - 1];
      assert forall n | n in init :: n in names;
      var prev := EnsureAll(s, faults, init);
      if prev.outcome.Fail? then prev else EnsureNamespace(prev.state, faults, names[|names| - 1])
  }

  /** Ensuring one namespace keeps every other namespace ensured. */
  lemma EnsuredFrame(s: State, faults: set<Fault>, name: string, n: string)
    requires LabelsWritable(s, faults, name) && n != name && Ensured(s, faults, n)
    ensures Ensured(EnsureNamespace(s, faults, name).state, faults, n)
  {
  }

  /** Namespaces not in the list are left exactly as they were. */
  lemma {:induction false} EnsureAllFrame(s: State, faults: set<Fault>, names: seq<string>, n: string)
    requires forall m | m in names :: LabelsWritable(s, faults, m)
    requires n !in names
    ensures var r := EnsureAll(s, faults, names).state;
      (n in r.namespaces <==> n in s.namespaces) && (n in s.namespaces ==> r.namespaces[n] == s.namespaces[n])
    decreases |names|
  {
    if names != [] {
      var init := names[..|names| - 1];
      assert forall m | m in init :: m in names;
      assert names[|names| - 1] in names;
      EnsureAllFrame(s, faults, init, n);
    }
  }

  /** After a successful run every listed namespace is ensured. */
  lemma {:induction false} EnsureAllEnsures(s: State, faults: set<Fault>, names: seq<string>)
    requires forall n | n in names :: LabelsWritable(s, faults, n)
    requires EnsureAll(s, faults, names).outcome.Pass?
    ensures forall n | n in names :: Ensured(EnsureAll(s, faults, names).state, faults, n)
    decreases |names|
  {
    if names != [] {
      var init, last := names[..|names| - 1], names[|names| - 1];
      assert forall n | n in init :: n in names;
      EnsureAllEnsures(s, faults, init);
      var prev := EnsureAll(s, faults, init);
      forall n | n in names ensures Ensured(EnsureNamespace(prev.state, faults, last).state, faults, n) {
        if n != last {
          assert n in init;
          EnsuredFrame(prev.state, faults, last, n);
        }
      }
    }
  }

  /** Ensuring namespaces that are all ensured already changes nothing, whether or not the run passes. */
  lemma {:induction false} EnsureAllStable(s: State, faults: set<Fault>, names: seq<string>)
    requires forall n | n in names :: LabelsWritable(s, faults, n)
    requires forall n | n in names :: Ensured(s, faults, n)
    ensures EnsureAll(s, faults, names).state == s
    decreases |names|
  {
    if names != [] {
      var init := names[..|names| - 1];
      assert forall n | n in init :: n in names;
      EnsureAllStable(s, faults, init);
      assert names[|names| - 1] in names;
    }
  }

  /** The run over `names` succeeds up to index `i`, where the ensure fails and the run stops. */
  predicate FailsAt(s: State, faults: set<Fault>, names: seq<string>, i: nat)
    requires i < |names|
    requires forall n | n in names :: LabelsWritable(s, faults, n)
  {
    assert forall n | n in names[..i] :: n in names;
    var prefix := EnsureAll(s, faults, names[..i]);
    && prefix.outcome.Pass?
    && EnsureNamespace(prefix.state, faults, names[i]).outcome.Fail?
    && EnsureAll(s, faults, names) == Step(prefix.state, Fail)
  }

  /** A failed run is a successful prefix followed by one failing ensure. */
  lemma {:induction false} EnsureAllFirstError(s: State, faults: set<Fault>, names: seq<string>)
    requires forall n | n in names :: LabelsWritable(s, faults, n)
    requires EnsureAll(s, faults, names).outcome.Fail?
    ensures exists i | 0 <= i < |names| :: FailsAt(s, faults, names, i)
    decreases |names|
  {
    var n := |names|;
    var init := names[..n - 1];
    assert forall x | x in init :: x in names;
    var prev := EnsureAll(s, faults, init);
    if prev.outcome.Fail? {
      EnsureAllFirstError(s, faults, init);
      var i :| 0 <= i < |init| && FailsAt(s, faults, init, i);
      assert init[..i] == names[..i];
      assert init[i] == names[i];
      assert FailsAt(s, faults, names, i);
    } else {
      assert names[..n - 1] == init;
      assert FailsAt(s, faults, names, n - 1);
    }
  }

  /** Once a prefix has failed, the rest of the list does not run. */
  lemma {:induction false} EnsureAllStops(s: State, faults: set<Fault>, names: seq<string>, i: nat)
    requires i <= |names|
    requires forall n | n in names :: LabelsWritable(s, faults, n)
    requires forall n | n in names[..i] :: n in names
    requires EnsureAll(s, faults, names[..i]).outcome.Fail?
    ensures EnsureAll(s, faults, names) == EnsureAll(s, faults, names[..i])
    decreases |names|
  {
    if i < |names| {
      var init := names[..|names| - 1];
      assert forall n | n in init :: n in names;
      assert init[..i] == names[..i];
      EnsureAllStops(s, faults, init, i);
    } else {
      assert names[..i] == names;
    }
  }

  // ----------------------------------------------------------------- apply

  /** What ApplyClusterResources needs so that it does not dereference nil. */
  predicate ApplyDefined(s: State, faults: set<Fault>, cr: Option<ClusterResources>)
  {
    IsValid(cr) ==>
      AllFieldsPresent(cr.value) &&
      forall n | n in Namespaces(cr.value) :: LabelsWritable(s, faults, n)
  }

  /**
   * ApplyClusterResources: nothing for an invalid bundle; otherwise ensure the
   * bundle's namespaces, then upsert services, deployments, virtual services,
   * destination rules and the gateway, stopping at the first error.
   */
  function Apply(s: State, faults: set<Fault>, cr: Option<ClusterResources>): (r: Step)
    requires ApplyDefined(s, faults, cr)
    ensures !IsValid(cr) ==> r == Step(s, Pass)
  {
    if !IsValid(cr) then Step(s, Pass)
    else
      var b := cr.value;
      var ensured := EnsureAll(s, faults, Namespaces(b));
      if ensured.outcome.Fail? then ensured else UpsertAll(ensured.state, faults, Plan(b))
  }

  /**
   * A successful Apply leaves every namespace of the bundle ensured, the last
   * object of the bundle under each key stored (modulo version), and every
   * other object as it was.
   */
  lemma ApplyConverges(s: State, faults: set<Fault>, cr: Option<ClusterResources>)
    requires ApplyDefined(s, faults, cr) && IsValid(cr)
    requires Apply(s, faults, cr).outcome.Pass?
    ensures var r := Apply(s, faults, cr).state;
      && (forall n | n in AllNamespaces(cr.value) :: Ensured(r, faults, n))
      && (forall i | 0 <= i < |Plan(cr.value)| && (forall j | i < j < |Plan(cr.value)| :: KeyOf(Plan(cr.value)[j]) != KeyOf(Plan(cr.value)[i])) ::
            KeyOf(Plan(cr.value)[i]) in r.objects && Unversioned(r.objects[KeyOf(Plan(cr.value)[i])]) == Unversioned(Plan(cr.value)[i]))
      && (forall k | k in s.objects && (forall o | o in Plan(cr.value) :: KeyOf(o) != k) :: k in r.objects && r.objects[k] == s.objects[k])
  {
    var b := cr.value;
    var plan := Plan(b);
    var e := EnsureAll(s, faults, Namespaces(b));
    EnsureAllEnsures(s, faults, Namespaces(b));
    var r := UpsertAll(e.state, faults, plan);
    UpsertAllOverlay(e.state, faults, plan);
    forall i | 0 <= i < |plan| && (forall j | i < j < |plan| :: KeyOf(plan[j]) != KeyOf(plan[i]))
      ensures KeyOf(plan[i]) in r.state.objects && Unversioned(r.state.objects[KeyOf(plan[i])]) == Unversioned(plan[i])
    {
      OverlayLastWins(Live(e.state.objects), plan, i);
      assert KeyOf(plan[i]) in Live(r.state.objects);
    }
    forall k | k in s.objects && (forall o | o in plan :: KeyOf(o) != k)
      ensures k in r.state.objects && r.state.objects[k] == s.objects[k]
    {
      UpsertAllFrame(e.state, faults, plan, k);
    }
  }

  /**
   * Idempotence: a second Apply of the same bundle, whatever its outcome,
   * leaves the namespaces as the first left them; if it passes, it also
   * leaves the objects equal modulo version.
   */
  lemma ApplyIdempotent(s: State, faults: set<Fault>, cr: Option<ClusterResources>)
    requires ApplyDefined(s, faults, cr)
    requires Apply(s, faults, cr).outcome.Pass?
    ensures var s1 := Apply(s, faults, cr).state;
      ApplyDefined(s1, faults, cr) &&
      Apply(s1, faults, cr).state.namespaces == s1.namespaces &&
      (Apply(s1, faults, cr).outcome.Pass? ==> Live(Apply(s1, faults, cr).state.objects) == Live(s1.objects))
  {
    if IsValid(cr) {
      var b := cr.value;
      var names, plan := Namespaces(b), Plan(b);
      var e1 := EnsureAll(s, faults, names);
      var s1 := UpsertAll(e1.state, faults, plan).state;
      assert ApplyDefined(s1, faults, cr);
      EnsureAllEnsures(s, faults, names);
      EnsureAllStable(s1, faults, names);
      assert EnsureAll(s1, faults, names).state == s1;
      if Apply(s1, faults, cr).outcome.Pass? {
        UpsertAllOverlay(e1.state, faults, plan);
        UpsertAllOverlay(s1, faults, plan);
        OverlayIdempotent(Live(e1.state.objects), plan);
      }
    }
  }

  // ----------------------------------------------------------------- prune

  /** Only deletions happened between `before` and `after`. */
  ghost predicate OnlyDeletes(before: map<Key, Object>, after: map<Key, Object>)
  {
    forall k | k in after :: k in before && after[k] == before[k]
  }

  /**
   * The pruning of (kind, namespace) against `keep` goes through: the List
   * works and no object it must delete has a failing Delete.
   */
  ghost predicate Prunable(objects: map<Key, Object>, faults: set<Fault>, kind: Kind, namespace: string, keep: set<string>)
  {
    && ListFault(kind, namespace) !in faults
    && forall k | k in objects && k.kind == kind && k.namespace == namespace && k.name !in keep ::
         DeleteFault(k) !in faults
  }

  /** The object under `k` is pruned when cleaning up `kind` against the group list `objs`. */
  predicate Doomed(k: Key, kind: Kind, objs: seq<Object>)
  {
    k.kind == kind && k.namespace in GroupNamespaces(objs) && k.name !in KeepNames(objs, k.namespace)
  }

  /** Every per-namespace pruning of `kind` against `objs` goes through. */
  ghost predicate KindPrunable(objects: map<Key, Object>, faults: set<Fault>, kind: Kind, objs: seq<Object>)
  {
    forall ns | ns in GroupNamespaces(objs) :: Prunable(objects, faults, kind, ns, KeepNames(objs, ns))
  }

  /** The object under `k` is pruned by CleanUpClusterResources of `b`. */
  predicate Condemned(b: ClusterResources, k: Key)
    requires AllFieldsPresent(b)
  {
    Doomed(k, k.kind, OfKind(b, k.kind))
  }

  /**
   * A cleanup that failed while pruning `failed`: every kind before it is fully
   * pruned, and no kind after it is touched.
   */
  ghost predicate AbortedAt(before: map<Key, Object>, after: map<Key, Object>, b: ClusterResources, failed: Kind)
    requires AllFieldsPresent(b)
  {
    forall k | k in before ::
      (Rank(k.kind) < Rank(failed) ==> (k in after <==> !Condemned(b, k))) &&
      (Rank(k.kind) > Rank(failed) ==> k in after)
  }

  /** Whether a pruning goes through depends only on the keys of that kind and namespace. */
  lemma PrunableFrame(m1: map<Key, Object>, m2: map<Key, Object>, faults: set<Fault>, kind: Kind, namespace: string, keep: set<string>)
    requires forall k: Key | k.kind == kind && k.namespace == namespace :: k in m1 <==> k in m2
    ensures Prunable(m1, faults, kind, namespace, keep) <==> Prunable(m2, faults, kind, namespace, keep)
  {
  }
}
