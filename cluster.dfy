/**
 * An abstract in-memory cluster: the objects of the five kinds keyed by
 * (kind, namespace, name), the namespaces with their label maps, and an
 * injected set of faults that makes individual client calls fail.
 */
module Cluster {
  import opened Wrappers
  import opened Resources

  type Labels = map<string, string>

  /** A snapshot of the cluster. A namespace's labels are None when its label map is nil. */
  datatype State = State(objects: map<Key, Object>, namespaces: map<string, Option<Labels>>)

  /** A client call that fails whenever it is made. */
  datatype Fault =
    | GetFault(key: Key)
    | ListFault(kind: Kind, namespace: string)
    | CreateFault(key: Key)
    | UpdateFault(key: Key)
    | DeleteFault(key: Key)
    | NamespaceGetFault(name: string)
    | NamespaceCreateFault(name: string)
    | NamespaceUpdateFault(name: string)

  /** The effect of a write: the new snapshot and the error returned. */
  datatype Step = Step(state: State, outcome: Outcome)

  /** Every object is stored under its own key. */
  ghost predicate Consistent(objects: map<Key, Object>)
  {
    forall k | k in objects :: KeyOf(objects[k]) == k
  }

  /** Get: not found or a fault is an error. */
  function ReadObject(s: State, faults: set<Fault>, k: Key): Result<Object>
  {
    if k in s.objects && GetFault(k) !in faults then Ok(s.objects[k]) else Err
  }

  /** Create: fails on a fault or when the key already exists. */
  function CreateObject(s: State, faults: set<Fault>, o: Object): Step
  {
    var k := KeyOf(o);
    if CreateFault(k) in faults || k in s.objects then Step(s, Fail)
    else Step(s.(objects := s.objects[k := o]), Pass)
  }

  /**
   * Update: a full replace. Fails on a fault, when the key does not exist, or
   * when the object's version token is not the live one.
   */
  function UpdateObject(s: State, faults: set<Fault>, o: Object): Step
  {
    var k := KeyOf(o);
    if UpdateFault(k) in faults || k !in s.objects ||
       s.objects[k].meta.resourceVersion != o.meta.resourceVersion
    then Step(s, Fail)
    else Step(s.(objects := s.objects[k := o]), Pass)
  }

  /** Delete: fails on a fault or when the key does not exist. */
  function DeleteObject(s: State, faults: set<Fault>, k: Key): Step
  {
    if DeleteFault(k) in faults || k !in s.objects then Step(s, Fail)
    else Step(s.(objects := s.objects - {k}), Pass)
  }

  /** A List result in some order: each live object of the kind in the namespace, once. */
  ghost predicate Listing(objects: map<Key, Object>, kind: Kind, namespace: string, items: seq<Object>)
  {
    && (forall i | 0 <= i < |items| ::
          KeyOf(items[i]) in objects && objects[KeyOf(items[i])] == items[i] &&
          KeyOf(items[i]).kind == kind && KeyOf(items[i]).namespace == namespace)
    && (forall i, j | 0 <= i < j < |items| :: KeyOf(items[i]) != KeyOf(items[j]))
    && (forall k | k in objects && k.kind == kind && k.namespace == namespace ::
          exists i | 0 <= i < |items| :: KeyOf(items[i]) == k)
  }

  function ReadNamespaceRecord(s: State, faults: set<Fault>, name: string): Result<Option<Labels>>
  {
    if name in s.namespaces && NamespaceGetFault(name) !in faults then Ok(s.namespaces[name]) else Err
  }

  function CreateNamespaceRecord(s: State, faults: set<Fault>, name: string, labels: Labels): Step
  {
    if NamespaceCreateFault(name) in faults || name in s.namespaces then Step(s, Fail)
    else Step(s.(namespaces := s.namespaces[name := Some(labels)]), Pass)
  }

  function UpdateNamespaceRecord(s: State, faults: set<Fault>, name: string, labels: Option<Labels>): Step
  {
    if NamespaceUpdateFault(name) in faults || name !in s.namespaces then Step(s, Fail)
    else Step(s.(namespaces := s.namespaces[name := labels]), Pass)
  }

  /**
   * A listing under construction: `items` lists the keys of (kind, namespace)
   * that are not `pending`, each once.
   */
  ghost predicate PartialListing(objects: map<Key, Object>, kind: Kind, namespace: string, items: seq<Object>, pending: set<Key>)
  {
    && (forall k | k in pending :: k in objects && k.kind == kind && k.namespace == namespace)
    && (forall i | 0 <= i < |items| ::
          KeyOf(items[i]) in objects && objects[KeyOf(items[i])] == items[i] &&
          KeyOf(items[i]).kind == kind && KeyOf(items[i]).namespace == namespace &&
          KeyOf(items[i]) !in pending)
    && (forall i, j | 0 <= i < j < |items| :: KeyOf(items[i]) != KeyOf(items[j]))
    && (forall k | k in objects && k.kind == kind && k.namespace == namespace ::
          k in pending || exists i | 0 <= i < |items| :: KeyOf(items[i]) == k)
  }

  /** Moving one pending key to the end of the listing keeps it a partial listing. */
  lemma ListingSnoc(objects: map<Key, Object>, kind: Kind, namespace: string, items: seq<Object>, pending: set<Key>, k: Key)
    requires Consistent(objects)
    requires PartialListing(objects, kind, namespace, items, pending) && k in pending
    ensures PartialListing(objects, kind, namespace, items + [objects[k]], pending - {k})
  {
    var after := items + [objects[k]];
    assert KeyOf(objects[k]) == k;
    forall k' | k' in objects && k'.kind == kind && k'.namespace == namespace
      ensures k' in pending - {k} || exists i | 0 <= i < |after| :: KeyOf(after[i]) == k'
    {
      if k' == k {
        assert KeyOf(after[|items|]) == k';
      } else if k' !in pending {
        var i :| 0 <= i < |items| && KeyOf(items[i]) == k';
        assert KeyOf(after[i]) == k';
      }
    }
  }

  /** The cluster behind the Kubernetes and Istio clients. */
  class ClusterStore {
    var objects: map<Key, Object>
    var namespaces: map<string, Option<Labels>>
    const faults: set<Fault>

    ghost predicate Valid()
      reads this
    {
      Consistent(objects)
    }

    function Snapshot(): State
      reads this
    {
      State(objects, namespaces)
    }

    constructor (objects: map<Key, Object>, namespaces: map<string, Option<Labels>>, faults: set<Fault>)
      requires Consistent(objects)
      ensures Valid()
      ensures this.objects == objects && this.namespaces == namespaces && this.faults == faults
    {
      this.objects := objects;
      this.namespaces := namespaces;
      this.faults := faults;
    }

    method Get(k: Key) returns (r: Result<Object>)
      ensures r == ReadObject(Snapshot(), faults, k)
    {
      if k in objects && GetFault(k) !in faults {
        r := Ok(objects[k]);
      } else {
        r := Err;
      }
    }

    /** List, in an order the store chooses. */
    method List(kind: Kind, namespace: string) returns (r: Result<seq<Object>>)
      requires Valid()
      ensures r.Err? <==> ListFault(kind, namespace) in faults
      ensures r.Ok? ==> Listing(objects, kind, namespace, r.value)
    {
      if ListFault(kind, namespace) in faults {
        return Err;
      }
      var pending := set k | k in objects && k.kind == kind && k.namespace == namespace;
      var items: seq<Object> := [];
      while pending != {}
        invariant PartialListing(objects, kind, namespace, items, pending)
        decreases pending
      {
        var k :| k in pending;
        ListingSnoc(objects, kind, namespace, items, pending, k);
        items := items + [objects[k]];
        pending := pending - {k};
      }
      r := Ok(items);
    }

    method Create(o: Object) returns (out: Outcome)
      requires Valid()
      modifies this
      ensures Valid()
      ensures Step(Snapshot(), out) == CreateObject(old(Snapshot()), faults, o)
    {
      var k := KeyOf(o);
      if CreateFault(k) in faults || k in objects {
        out := Fail;
      } else {
        objects := objects[k := o];
        out := Pass;
      }
    }

    method Update(o: Object) returns (out: Outcome)
      requires Valid()
      modifies this
      ensures Valid()
      ensures Step(Snapshot(), out) == UpdateObject(old(Snapshot()), faults, o)
    {
      var k := KeyOf(o);
      if UpdateFault(k) in faults || k !in objects || objects[k].meta.resourceVersion != o.meta.resourceVersion {
        out := Fail;
      } else {
        objects := objects[k := o];
        out := Pass;
      }
    }

    method Delete(k: Key) returns (out: Outcome)
      requires Valid()
      modifies this
      ensures Valid()
      ensures Step(Snapshot(), out) == DeleteObject(old(Snapshot()), faults, k)
    {
      if DeleteFault(k) in faults || k !in objects {
        out := Fail;
      } else {
        objects := objects - {k};
        out := Pass;
      }
    }

    method GetNamespace(name: string) returns (r: Result<Option<Labels>>)
      ensures r == ReadNamespaceRecord(Snapshot(), faults, name)
    {
      if name in namespaces && NamespaceGetFault(name) !in faults {
        r := Ok(namespaces[name]);
      } else {
        r := Err;
      }
    }

    method CreateNamespace(name: string, labels: Labels) returns (out: Outcome)
      requires Valid()
      modifies this
      ensures Valid()
      ensures Step(Snapshot(), out) == CreateNamespaceRecord(old(Snapshot()), faults, name, labels)
    {
      if NamespaceCreateFault(name) in faults || name in namespaces {
        out := Fail;
      } else {
        namespaces := namespaces[name := Some(labels)];
        out := Pass;
      }
    }

    method UpdateNamespace(name: string, labels: Option<Labels>) returns (out: Outcome)
      requires Valid()
      modifies this
      ensures Valid()
      ensures Step(Snapshot(), out) == UpdateNamespaceRecord(old(Snapshot()), faults, name, labels)
    {
      if NamespaceUpdateFault(name) in faults || name !in namespaces {
        out := Fail;
      } else {
        namespaces := namespaces[name := labels];
        out := Pass;
      }
    }
  }
}
