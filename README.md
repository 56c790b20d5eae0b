# Kardinal cluster manager: reconciliation engine

This project models the reconciliation engine in the Kardinal manager's `ClusterManager`. The engine takes a desired bundle (`types.ClusterResources`) of five kinds of resources: services, deployments, Istio virtual services, destination rules and one gateway. It makes a cluster match that bundle in these steps:

1. It works out which namespaces the bundle uses, in first-occurrence order.
2. It makes sure each of those namespaces exists and carries `istio-injection=enabled`.
3. It creates or updates every object, in a fixed kind order, and stops at the first error.
4. When cleaning up, it deletes live objects that the bundle's per-namespace groups do not keep.

The two point mutators change one object each: `AddRoutingRule` puts an HTTP route at the front, and `AddSubset` adds a subset to a destination rule.

The Kubernetes and Istio clients are replaced by an in-memory cluster store (module `Cluster`, class `ClusterStore`):

- Objects live in a map keyed by (kind, namespace, name). Each object has a name, a namespace, a `resourceVersion` token and a spec.
- Namespaces are a map from name to an optional label map. `None` stands for a nil label map.
- Client failures come from a fixed set of faults. A fault names the call that fails, for example `UpdateFault(key)` or `ListFault(kind, namespace)`.
- Get fails when the key is absent.
- Create fails when the key already exists.
- Update fails when the key is absent or the version token is not the live one.
- Delete fails when the key is absent.

The modules follow the program's structure:

- `Resources`: objects, keys and the pure edits the mutators make.
- `Seqs`: `lo.Uniq` and `lo.Flatten`.
- `Bundles`: the bundle, `isValid`, the namespace list and `lo.GroupBy`.
- `Cluster`: the store.
- `Reconcile`: each reconciliation step as a function from a store snapshot to a new snapshot and an outcome, with the lemmas about those steps.
- `ClusterManager`: the manager class.
  - The namespace, upsert and Apply methods are proved equal to the matching `Reconcile` function.
  - The two mutators give the new store through the `Resources` edits `WithRoutingRule` and `WithSubset`.
  - The lookups return what the store holds.
  - The pruning methods have set-level contracts, because the per-namespace groups are a Go map walked in no fixed order.

The five `createOrUpdate*` and five `cleanUp*InNamespace` functions have the same shape for every kind, so each is modelled once. The kind comes from the object's spec.

Two behaviours follow the code as written, not the intent its comments state:

- `AddSubset` never replaces a subset that has the same name. The assignment in the scan only rebinds the loop copy, so the existing list is written back unchanged. The comment at line 161 says the entry is updated in place.
- `ensureNamespace` discards the error of the namespace label `Update`. It succeeds whether or not that write went through.

Every source path below is relative to the repository root, and every line number refers to `kardinal-manager/kardinal-manager/cluster_manager/cluster_manager.go`.

## Model

| member | source | states |
|---|---|---|
| Resources.WithRoutingRule | kardinal-manager/kardinal-manager/cluster_manager/cluster_manager.go:145-146 | The new route is at index 0. Every old route follows in its old order, and the list is one longer. Metadata and hosts are unchanged. |
| Resources.SubsetsAfterAdd | kardinal-manager/kardinal-manager/cluster_manager/cluster_manager.go:161-171 | If no subset has the new name, the subset is appended and the earlier entries are kept. If a subset has that name, the list is returned unchanged. Every result entry is the new subset or an old one. |
| Resources.SubsetsAfterAddIdempotent | kardinal-manager/kardinal-manager/cluster_manager/cluster_manager.go:161-171 | Adding the same subset a second time changes nothing. |
| Resources.WithSubset | kardinal-manager/kardinal-manager/cluster_manager/cluster_manager.go:169-172 | Only the destination rule's subsets change, and they become `SubsetsAfterAdd` of the old ones. The metadata and host are kept. |
| Resources.WithVersion | kardinal-manager/kardinal-manager/cluster_manager/cluster_manager.go:331 | Copying the live version token keeps the key and the spec, and sets only the version. |
| Resources.FindByName | kardinal-manager/kardinal-manager/cluster_manager/cluster_manager.go:429 | `lo.Find` by name returns nothing exactly when no keep-list entry has the name, which is exactly when the name is not among the list's names. Otherwise it returns the first entry with that name. |
| Seqs.Uniq | kardinal-manager/kardinal-manager/cluster_manager/cluster_manager.go:191-198 | `lo.Uniq` keeps exactly the input's elements, without duplicates, and is no longer than its input. |
| Seqs.Flatten | kardinal-manager/kardinal-manager/cluster_manager/cluster_manager.go:198 | An element is in the flattened list exactly when it is in one of the inner lists. |
| Bundles.IsValid | kardinal-manager/kardinal-manager/cluster_manager/cluster_manager.go:520-536 | A bundle is invalid exactly when it is nil or all five fields are nil. |
| Bundles.NamespacesOf | kardinal-manager/kardinal-manager/cluster_manager/cluster_manager.go:191-194 | `lo.Map` to namespaces has one entry per object, and entry i is object i's namespace. |
| Bundles.Namespaces | kardinal-manager/kardinal-manager/cluster_manager/cluster_manager.go:190-198 | The namespace list Apply builds is the first-occurrence de-duplication of the bundle's namespaces, taken over services, then deployments, virtual services, destination rules and the gateway. It has no duplicates and holds exactly the bundle's namespaces. |
| Bundles.NamespacesServicesFirst | kardinal-manager/kardinal-manager/cluster_manager/cluster_manager.go:190-198 | The de-duplicated namespaces of the services are a prefix of that list. |
| Bundles.Group | kardinal-manager/kardinal-manager/cluster_manager/cluster_manager.go:246-248 | The `lo.GroupBy` group for a namespace holds exactly the bundle objects in that namespace. |
| Bundles.GroupNames | kardinal-manager/kardinal-manager/cluster_manager/cluster_manager.go:246-251 | The names in a group are exactly the names the bundle keeps in that namespace. |
| Bundles.OfKind | kardinal-manager/kardinal-manager/cluster_manager/cluster_manager.go:245-285 | The list CleanUp prunes one kind against contains only objects of that kind. For gateways it is the one-element list of the bundle's gateway. |
| Cluster.ClusterStore.Get | kardinal-manager/kardinal-manager/cluster_manager/cluster_manager.go:110 | Get returns the stored object, or an error when the key is absent or the Get faults. |
| Cluster.ClusterStore.List | kardinal-manager/kardinal-manager/cluster_manager/cluster_manager.go:100 | List fails exactly on a list fault. Otherwise it returns every stored object of that kind and namespace exactly once, in some order, and nothing else. |
| Reconcile.Upsert | kardinal-manager/kardinal-manager/cluster_manager/cluster_manager.go:320-339 | The upsert passes exactly when the Create succeeds (key absent) or both the Get and the Update succeed (key present). On success the key holds the desired object, modulo version. The version is the live one when the key existed and the desired one otherwise. No other key changes, and a failure writes nothing. |
| Reconcile.UpsertIdempotent | kardinal-manager/kardinal-manager/cluster_manager/cluster_manager.go:320-339 | Upserting the same object again after a success writes nothing new, whatever its outcome. It passes when the key's Get and Update do not fault. |
| Reconcile.UpsertAll | kardinal-manager/kardinal-manager/cluster_manager/cluster_manager.go:206-232 | The upsert loops leave the namespaces alone and never remove a key. After a success, every listed object's key is stored. |
| Reconcile.UpsertAllNewKeys | kardinal-manager/kardinal-manager/cluster_manager/cluster_manager.go:206-232 | Every key the loops add is the key of a listed object. |
| Reconcile.UpsertAllConcat | kardinal-manager/kardinal-manager/cluster_manager/cluster_manager.go:206-234 | Running two lists one after the other is running their concatenation. The second list does not run after a failure. |
| Reconcile.UpsertAllFirstError | kardinal-manager/kardinal-manager/cluster_manager/cluster_manager.go:206-234 | A failed run has a successful run over a prefix and one failing upsert right after it. Its result is the prefix's state with the failure, so earlier writes stay committed. |
| Reconcile.UpsertAllFrame | kardinal-manager/kardinal-manager/cluster_manager/cluster_manager.go:206-234 | A key that no object in the list has stays exactly as it was. |
| Reconcile.UpsertAllOverlay | kardinal-manager/kardinal-manager/cluster_manager/cluster_manager.go:206-234 | After a successful run, the live objects, modulo version, are the old ones with the list laid over them, later objects winning. |
| Reconcile.EnsureNamespace | kardinal-manager/kardinal-manager/cluster_manager/cluster_manager.go:293-318 | A namespace the Get does not return is created with exactly `istio-injection=enabled`, and the outcome is the Create's. If the Get returns an enabled namespace, nothing is written. Otherwise the label is set, every other label is kept, and the call passes even when the Update faults. Objects and other namespaces are untouched, and a success leaves the namespace ensured. |
| Reconcile.EnsureAll | kardinal-manager/kardinal-manager/cluster_manager/cluster_manager.go:200-204 | The namespace loop leaves the objects alone, never removes a namespace, and keeps every namespace's labels writable. |
| Reconcile.EnsureAllFrame | kardinal-manager/kardinal-manager/cluster_manager/cluster_manager.go:200-204 | A namespace that is not in the list stays exactly as it was. |
| Reconcile.EnsureAllEnsures | kardinal-manager/kardinal-manager/cluster_manager/cluster_manager.go:200-204 | After a successful run, every listed namespace is ensured. |
| Reconcile.EnsureAllStable | kardinal-manager/kardinal-manager/cluster_manager/cluster_manager.go:200-204 | Ensuring namespaces that are already ensured changes nothing. This holds whether the run passes or fails: a re-ensure can fail, for example on a Get fault, but a failing ensure writes nothing. |
| Reconcile.EnsureAllFirstError | kardinal-manager/kardinal-manager/cluster_manager/cluster_manager.go:200-204 | A failed run is a successful prefix followed by one failing ensure, and the run stops there. |
| Reconcile.EnsureAllStops | kardinal-manager/kardinal-manager/cluster_manager/cluster_manager.go:200-204 | Once a prefix has failed, the rest of the list does not run. |
| Reconcile.Apply | kardinal-manager/kardinal-manager/cluster_manager/cluster_manager.go:185-188 | An invalid bundle passes and leaves the store untouched. |
| Reconcile.ApplyConverges | kardinal-manager/kardinal-manager/cluster_manager/cluster_manager.go:183-235 | After a successful Apply: every namespace of the bundle is ensured; the last bundle object under each key is stored, modulo version; keys the bundle does not name keep their objects. |
| Reconcile.ApplyIdempotent | kardinal-manager/kardinal-manager/cluster_manager/cluster_manager.go:183-235 | A second Apply of the same bundle is defined and, whatever its outcome, leaves the namespaces as they were. If it passes, it also leaves the objects equal modulo version. |
| Reconcile.PrunableFrame | kardinal-manager/kardinal-manager/cluster_manager/cluster_manager.go:422-438 | Whether a (kind, namespace) pruning goes through depends only on the stored keys of that kind and namespace. |
| ClusterManager.ClusterManager.constructor | kardinal-manager/kardinal-manager/cluster_manager/cluster_manager.go:93-95 | The manager wraps the given store. |
| ClusterManager.ClusterManager.GetVirtualServices | kardinal-manager/kardinal-manager/cluster_manager/cluster_manager.go:97-105 | The call fails exactly on a list fault. Otherwise it returns the namespace's virtual services, each once. |
| ClusterManager.ClusterManager.GetVirtualService | kardinal-manager/kardinal-manager/cluster_manager/cluster_manager.go:107-115 | The call succeeds exactly when the key is stored and the Get does not fault. On success it returns the stored virtual service with that name and namespace. |
| ClusterManager.ClusterManager.GetDestinationRules | kardinal-manager/kardinal-manager/cluster_manager/cluster_manager.go:117-125 | The call fails exactly on a list fault. Otherwise it returns the namespace's destination rules, each once. |
| ClusterManager.ClusterManager.GetDestinationRule | kardinal-manager/kardinal-manager/cluster_manager/cluster_manager.go:127-135 | The call succeeds exactly when the key is stored and the Get does not fault. On success it returns the stored destination rule with that name and namespace. |
| ClusterManager.ClusterManager.AddRoutingRule | kardinal-manager/kardinal-manager/cluster_manager/cluster_manager.go:138-152 | The call passes exactly when the Get and the Update both succeed. On success only that virtual service changes, to `WithRoutingRule` of the old one. On failure nothing is written. |
| ClusterManager.ClusterManager.ScanSubsets | kardinal-manager/kardinal-manager/cluster_manager/cluster_manager.go:161-168 | The flag stays set exactly when no existing subset has the new subset's name. |
| ClusterManager.ClusterManager.AddSubset | kardinal-manager/kardinal-manager/cluster_manager/cluster_manager.go:154-177 | The call passes exactly when the Get and the Update both succeed. On success only that destination rule changes, to `WithSubset` of the old one. On failure nothing is written. |
| ClusterManager.ClusterManager.EnsureNamespace | kardinal-manager/kardinal-manager/cluster_manager/cluster_manager.go:293-318 | The new store and the outcome are `Reconcile.EnsureNamespace` of the old store. |
| ClusterManager.ClusterManager.CreateOrUpdate | kardinal-manager/kardinal-manager/cluster_manager/cluster_manager.go:320-339 | The new store and the outcome are `Reconcile.Upsert` of the old store. |
| ClusterManager.ClusterManager.UpsertEach | kardinal-manager/kardinal-manager/cluster_manager/cluster_manager.go:206-210 | The loop's new store and outcome are the stop-at-first-error fold `UpsertAll` over the list. |
| ClusterManager.ClusterManager.EnsureNamespaces | kardinal-manager/kardinal-manager/cluster_manager/cluster_manager.go:200-204 | The loop's new store and outcome are the stop-at-first-error fold `EnsureAll` over the names. |
| ClusterManager.ClusterManager.UpsertPlan | kardinal-manager/kardinal-manager/cluster_manager/cluster_manager.go:206-232 | The five upsert phases together are `UpsertAll` over services, then deployments, virtual services, destination rules and the gateway. |
| ClusterManager.ClusterManager.ApplyClusterResources | kardinal-manager/kardinal-manager/cluster_manager/cluster_manager.go:183-235 | The new store and the outcome are `Reconcile.Apply` of the old store. |
| ClusterManager.ClusterManager.CleanUpInNamespace | kardinal-manager/kardinal-manager/cluster_manager/cluster_manager.go:422-438 | The call only deletes. Objects of other kinds or namespaces, and kept names, remain. It passes exactly when the List and every needed Delete succeed. On success every unkept object of that kind and namespace is gone. A List failure writes nothing. When a Delete fails, the store is the old one minus exactly the unkept keys listed before the failing one. A key whose Delete faults is never removed. |
| ClusterManager.ClusterManager.DeleteUnkept | kardinal-manager/kardinal-manager/cluster_manager/cluster_manager.go:428-436 | The delete loop removes, one at a time, the listed keys whose names are not kept. It passes exactly when none of those Deletes faults, and then the store is the old one minus exactly those keys. On failure there is a first unkept item whose Delete faults; the unkept keys listed before it are gone and every other key remains. A key whose Delete faults is never removed. |
| ClusterManager.ClusterManager.CleanUpKind | kardinal-manager/kardinal-manager/cluster_manager/cluster_manager.go:246-251 | Pruning one kind against its per-namespace groups, in any order, only deletes. It touches only keys in a grouped namespace whose names are not kept there. It passes exactly when every group's pruning goes through, and then all such keys are gone. On failure some group's pruning did not go through. The groups finished before it are fully pruned, and the groups not yet started are untouched. Whatever the outcome, a key whose Delete faults, or whose kind and namespace List faults, is never removed. Within the failing group, which deletable keys are gone depends on the List's order, which the store leaves open. |
| ClusterManager.ClusterManager.CleanUpClusterResources | kardinal-manager/kardinal-manager/cluster_manager/cluster_manager.go:237-291 | An invalid bundle passes and touches nothing. Otherwise the call only deletes condemned keys. It passes exactly when every kind's pruning goes through, and then all condemned keys are gone. On failure there is a kind at which it stopped. Every earlier kind went through and is fully pruned, and every later kind is untouched. The stopping kind's groups are described as in `CleanUpKind`. Whatever the outcome, a key whose Delete or List faults is never removed. |

## Left out

- Client transport (clientsets, `context`, timeouts, the option structs at lines 17-86): these are configuration. Only their effect on the store is modelled.
- The field manager, the foreground cascade policy and the zero grace period of Delete are not modelled. Delete removes the key at once.
- `AddRoutingRule` and `AddSubset` write with empty update options, while the other writes use the shared ones. The model makes no distinction, because options have no effect on the store.
- `stacktrace.Propagate` messages and `logrus` logging: every error is the single `Fail` outcome.
- `GetTopologyForNameSpace` (lines 179-181) calls into the topology manager, which is not part of this model.
- Concurrency: there is one writer. Version races and lost updates between concurrent callers are not modelled.
- The store does not bump `resourceVersion` on a write. Agreement after a write is therefore stated modulo version (`Unversioned`, `Live`).
- Namespaces carry no version token, and the namespace Update is not checked for one.
- CleanUp walks Go maps in an unspecified order. `CleanUpKind` picks the next namespace arbitrarily and states its effect at set level, not as a sequence of deletes.
- The loops over the five kinds in `CleanUpClusterResources` are modelled as one loop over the fixed kind order.
- `createOrUpdateGateway` sets the live `resourceVersion` on the gateway it is given (line 412). Apply passes the bundle's own gateway pointer (line 230), so the caller's bundle gets that version written back. The four list loops pass `&service` and the like, which point at loop copies, so list entries are never written back. The model passes objects by value and does not model the gateway write-back.
- Go panics are preconditions, not modelled behaviour:
  - `ApplyDefined` and `AllFieldsPresent` require every field of a valid bundle to be non-nil, because Apply and CleanUp dereference all five.
  - `LabelsWritable` requires that an existing namespace's label map is non-nil, because line 299 writes into it. `ApplyDefined`, `EnsureAll` and `EnsureNamespaces` demand this of every namespace up front. Go panics only if the loop reaches that namespace. So a bundle whose nil-label namespace comes after a failing Create returns an error in Go but is excluded by the model.
- Nil pointer arguments are lost, because the model takes values. `AddSubset` with a nil subset panics at line 164 when the rule has subsets. `AddRoutingRule` with a nil route prepends a nil entry at line 146.
