/**
 * The desired-state bundle (`types.ClusterResources`) and the pure views of it
 * the orchestrators use: validity, the namespaces it touches, and its
 * per-namespace groups.
 */
module Bundles {
  import opened Wrappers
  import opened Seqs
  import opened Resources

  /** Every field is a nil-able pointer; None is nil. */
  datatype ClusterResources = ClusterResources(
    services: Option<seq<ServiceObject>>,
    deployments: Option<seq<DeploymentObject>>,
    virtualServices: Option<seq<VirtualServiceObject>>,
    destinationRules: Option<seq<DestinationRuleObject>>,
    gateway: Option<GatewayObject>)

  /** `isValid`: a nil bundle, or one whose five fields are all nil, is a no-op. */
  function IsValid(cr: Option<ClusterResources>): (valid: bool)
    ensures !valid <==> cr == None || cr == Some(ClusterResources(None, None, None, None, None))
  {
    if cr.None? then false
    else
      var b := cr.value;
      !(b.gateway.None? && b.deployments.None? && b.destinationRules.None? &&
        b.services.None? && b.virtualServices.None?)
  }

  /** Apply and CleanUp dereference all five fields, so all must be non-nil. */
  predicate AllFieldsPresent(b: ClusterResources)
  {
    b.services.Some? && b.deployments.Some? && b.virtualServices.Some? &&
    b.destinationRules.Some? && b.gateway.Some?
  }

  /** `lo.Map` to the namespace of each object. */
  function NamespacesOf(objs: seq<Object>): (r: seq<string>)
    ensures |r| == |objs|
    ensures forall i | 0 <= i < |objs| :: r[i] == objs[i].meta.namespace
  {
    if objs == [] then [] else [objs[0].meta.namespace] + NamespacesOf(objs[1..])
  }

  /** Every namespace the bundle's objects live in, with repetitions, in kind order. */
  function AllNamespaces(b: ClusterResources): seq<string>
    requires AllFieldsPresent(b)
  {
    NamespacesOf(b.services.value) + (NamespacesOf(b.deployments.value) +
    (NamespacesOf(b.virtualServices.value) + (NamespacesOf(b.destinationRules.value) +
    [b.gateway.value.meta.namespace])))
  }

  /**
   * The namespace list Apply ensures, built as the code builds it. It is the
   * first-occurrence de-duplication of every namespace of the bundle in kind
   * order: the per-kind de-duplication is immaterial.
   */
  function Namespaces(b: ClusterResources): (r: seq<string>)
    requires AllFieldsPresent(b)
    ensures r == Uniq(AllNamespaces(b))
    ensures NoDup(r)
    ensures forall n :: n in r <==> n in AllNamespaces(b)
  {
    var s, d, v, rs := NamespacesOf(b.services.value), NamespacesOf(b.deployments.value),
                       NamespacesOf(b.virtualServices.value), NamespacesOf(b.destinationRules.value);
    var g := [b.gateway.value.meta.namespace];
    FlattenFive(Uniq(s), Uniq(d), Uniq(v), Uniq(rs), g);
    UniqAbsorbFour(s, d, v, rs, g);
    Uniq(Flatten([Uniq(s), Uniq(d), Uniq(v), Uniq(rs), g]))
  }

  /** The services' namespaces come first in Namespaces, in their own first-occurrence order. */
  lemma NamespacesServicesFirst(b: ClusterResources)
    requires AllFieldsPresent(b)
    ensures Uniq(NamespacesOf(b.services.value)) <= Namespaces(b)
  {
    var s, d, v, r := NamespacesOf(b.services.value), NamespacesOf(b.deployments.value),
                      NamespacesOf(b.virtualServices.value), NamespacesOf(b.destinationRules.value);
    var g := [b.gateway.value.meta.namespace];
    UniqPrefix(s, d + (v + (r + g)));
  }

  /** `lo.GroupBy`'s group for `ns`: the objects in `ns`, in their given order. */
  function Group(objs: seq<Object>, ns: string): (r: seq<Object>)
    ensures forall o :: o in r <==> o in objs && o.meta.namespace == ns
    ensures |r| <= |objs|
  {
    if objs == [] then []
    else if objs[0].meta.namespace == ns then [objs[0]] + Group(objs[1..], ns)
    else Group(objs[1..], ns)
  }

  /** The keys of `lo.GroupBy`'s map: the namespaces that have a group. */
  function GroupNamespaces(objs: seq<Object>): set<string>
  {
    set o | o in objs :: o.meta.namespace
  }

  /** The names kept in namespace `ns` when pruning against `objs`. */
  function KeepNames(objs: seq<Object>, ns: string): set<string>
  {
    set o | o in objs && o.meta.namespace == ns :: o.meta.name
  }

  lemma GroupNames(objs: seq<Object>, ns: string)
    ensures NamesOf(Group(objs, ns)) == KeepNames(objs, ns)
  {
  }

  /** The reconciliation order of the kinds. */
  const KindOrder: seq<Kind> := [Service, Deployment, VirtualService, DestinationRule, Gateway]

  function Rank(kind: Kind): (r: nat)
    ensures r < |KindOrder| && KindOrder[r] == kind
  {
    match kind
    case Service => 0
    case Deployment => 1
    case VirtualService => 2
    case DestinationRule => 3
    case Gateway => 4
  }

  /** The bundle's objects of one kind; the gateway is a one-element group. */
  function OfKind(b: ClusterResources, kind: Kind): (r: seq<Object>)
    requires AllFieldsPresent(b)
    ensures forall o | o in r :: KindOf(o.spec) == kind
    ensures kind == Gateway ==> r == [b.gateway.value]
  {
    match kind
    case Service => b.services.value
    case Deployment => b.deployments.value
    case VirtualService => b.virtualServices.value
    case DestinationRule => b.destinationRules.value
    case Gateway => [b.gateway.value]
  }

  /** Every upsert Apply performs, in order. */
  function Plan(b: ClusterResources): seq<Object>
    requires AllFieldsPresent(b)
  {
    b.services.value + b.deployments.value + b.virtualServices.value +
    b.destinationRules.value + [b.gateway.value]
  }
}
