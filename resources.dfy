/**
 * The cluster objects the manager reads and writes: services, deployments,
 * virtual services, destination rules and gateways, each identified by
 * (kind, namespace, name) and carrying an opaque version token.
 */
module Resources {
  import opened Wrappers

  /** The five resource kinds the manager reconciles. */
  datatype Kind = Service | Deployment | VirtualService | DestinationRule | Gateway

  /** The reconciliation key: a resource is unique per kind, namespace and name. */
  datatype Key = Key(kind: Kind, namespace: string, name: string)

  /** The object metadata the manager uses. */
  datatype Meta = Meta(name: string, namespace: string, resourceVersion: string)

  /** One HTTP routing rule of a virtual service; its match and route are opaque. */
  datatype HttpRoute = HttpRoute(name: string, body: string)

  /** One named subset of a destination rule. */
  datatype Subset = Subset(name: string, labels: map<string, string>)

  /**
   * The kind-specific part of an object. Only the lists the manager edits
   * (virtual-service HTTP routes, destination-rule subsets) have structure.
   */
  datatype Spec =
    | ServiceSpec(body: string)
    | DeploymentSpec(body: string)
    | VirtualServiceSpec(hosts: seq<string>, http: seq<HttpRoute>)
    | DestinationRuleSpec(host: string, subsets: seq<Subset>)
    | GatewaySpec(body: string)

  datatype Object = Object(meta: Meta, spec: Spec)

  function KindOf(spec: Spec): Kind
  {
    match spec
    case ServiceSpec(_) => Service
    case DeploymentSpec(_) => Deployment
    case VirtualServiceSpec(_, _) => VirtualService
    case DestinationRuleSpec(_, _) => DestinationRule
    case GatewaySpec(_) => Gateway
  }

  /** The key under which the store holds `o`. */
  function KeyOf(o: Object): Key
  {
    Key(KindOf(o.spec), o.meta.namespace, o.meta.name)
  }

  /** `o` with its version token replaced by `rv`. */
  function WithVersion(o: Object, rv: string): (r: Object)
    ensures KeyOf(r) == KeyOf(o) && r.spec == o.spec
    ensures r.meta.resourceVersion == rv
  {
    o.(meta := o.meta.(resourceVersion := rv))
  }

  /** `o` with its version token erased: equality of these is equality "modulo version". */
  function Unversioned(o: Object): Object
  {
    WithVersion(o, "")
  }

  // The Go types of the bundle's fields, as subset types of Object.
  type ServiceObject = o: Object | o.spec.ServiceSpec? witness Object(Meta("", "", ""), ServiceSpec(""))
  type DeploymentObject = o: Object | o.spec.DeploymentSpec? witness Object(Meta("", "", ""), DeploymentSpec(""))
  type VirtualServiceObject = o: Object | o.spec.VirtualServiceSpec? witness Object(Meta("", "", ""), VirtualServiceSpec([], []))
  type DestinationRuleObject = o: Object | o.spec.DestinationRuleSpec? witness Object(Meta("", "", ""), DestinationRuleSpec("", []))
  type GatewayObject = o: Object | o.spec.GatewaySpec? witness Object(Meta("", "", ""), GatewaySpec(""))

  /**
   * The virtual service `vs` with `rule` put in front of its HTTP routes, so that
   * it takes precedence under first-match evaluation; nothing else changes.
   */
  function WithRoutingRule(vs: Object, rule: HttpRoute): (r: Object)
    requires vs.spec.VirtualServiceSpec?
    ensures r.meta == vs.meta && r.spec.VirtualServiceSpec? && r.spec.hosts == vs.spec.hosts
    ensures |r.spec.http| == |vs.spec.http| + 1
    ensures r.spec.http[0] == rule
    ensures forall i | 0 <= i < |vs.spec.http| :: r.spec.http[i + 1] == vs.spec.http[i]
  {
    vs.(spec := vs.spec.(http := [rule] + vs.spec.http))
  }

  /** Some subset in `subsets` is called `name`. */
  predicate HasSubsetNamed(subsets: seq<Subset>, name: string)
  {
    exists i | 0 <= i < |subsets| :: subsets[i].name == name
  }

  /**
   * The subsets AddSubset writes back, as the code behaves: `subset` is appended
   * when no subset has its name, and otherwise the list is left exactly as it was
   * (the existing entry is NOT replaced).
   */
  function SubsetsAfterAdd(subsets: seq<Subset>, subset: Subset): (r: seq<Subset>)
    ensures !HasSubsetNamed(subsets, subset.name) ==>
              |r| == |subsets| + 1 && r[..|subsets|] == subsets && r[|subsets|] == subset
    ensures HasSubsetNamed(subsets, subset.name) ==> r == subsets
    ensures forall i | 0 <= i < |r| :: r[i] in subsets || r[i] == subset
  {
    if HasSubsetNamed(subsets, subset.name) then subsets else subsets + [subset]
  }

  /** Adding the same subset twice is adding it once: the second scan finds its name. */
  lemma SubsetsAfterAddIdempotent(subsets: seq<Subset>, subset: Subset)
    ensures SubsetsAfterAdd(SubsetsAfterAdd(subsets, subset), subset) == SubsetsAfterAdd(subsets, subset)
  {
    var once := SubsetsAfterAdd(subsets, subset);
    if !HasSubsetNamed(subsets, subset.name) {
      assert once[|subsets|].name == subset.name;
    }
  }

  /** The destination rule `dr` after AddSubset's edit; nothing but the subsets changes. */
  function WithSubset(dr: Object, subset: Subset): (r: Object)
    requires dr.spec.DestinationRuleSpec?
    ensures r.meta == dr.meta && r.spec.DestinationRuleSpec? && r.spec.host == dr.spec.host
    ensures r.spec.subsets == SubsetsAfterAdd(dr.spec.subsets, subset)
  {
    dr.(spec := dr.spec.(subsets := SubsetsAfterAdd(dr.spec.subsets, subset)))
  }

  /** The names of a list of objects. */
  function NamesOf(items: seq<Object>): set<string>
  {
    set o | o in items :: o.meta.name
  }

  /**
   * `lo.Find` with a name test: the first object in `items` called `name`, if any.
   */
  function FindByName(items: seq<Object>, name: string): (r: Option<Object>)
    ensures r.None? <==> forall i | 0 <= i < |items| :: items[i].meta.name != name
    ensures r.Some? ==> exists i | 0 <= i < |items| :: items[i] == r.value && r.value.meta.name == name &&
                          forall j | 0 <= j < i :: items[j].meta.name != name
    ensures r.None? <==> name !in NamesOf(items)
  {
    if items == [] then None
    else if items[0].meta.name == name then Some(items[0])
    else
      var rest := FindByName(items[1..], name);
      assert NamesOf(items) == {items[0].meta.name} + NamesOf(items[1..]) by {
        assert forall o :: o in items <==> o == items[0] || o in items[1..];
      }
      if rest.Some? then
        var i :| 0 <= i < |items[1..]| && items[1..][i] == rest.value && rest.value.meta.name == name &&
                 forall j | 0 <= j < i :: items[1..][j].meta.name != name;
        assert items[i + 1] == rest.value;
        rest
      else rest
  }
}
