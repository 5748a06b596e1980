/** The two-pass load of a save group. Pass A (`LoadComponents`) makes sure
    every saved object exists and is registered, rebuilding destroyed nodes
    and adding missing components; pass B (`LoadReferences`) restores the
    fields of every non-node record through the registry. */
module Load {
  import opened Wrappers
  import opened Codec
  import opened PersistentGameObjects
  import opened PersistentMonoBehaviours
  import opened Registry

  /** The kind of a component type as far as the load passes care: the
      node component, a `PersistentMonoBehaviour` subclass, or an engine
      component that does not implement `IZSerialize`. */
  datatype Kind = NodeKind | BehaviourKind(inheritanceDepth: nat) | EngineKind

  datatype ComponentType = ComponentType(name: string, kind: Kind)

  /** Type metadata: the assemblies and the kind of each known component
      type; `derives` holds the pairs `(t, a)` where type `t` derives from
      type `a`; `fieldless` names the descriptor types whose generated
      `RestoreValues` sets no field. */
  datatype LoadEnv = LoadEnv(types: TypeEnv, kinds: map<string, Kind>,
                             derives: set<(string, string)>, fieldless: set<string>)

  /** The fields of a node descriptor beyond the common ones. */
  datatype NodeFields = NodeFields(gameObjectData: GameObjectData, serializedComponents: seq<SerializedComponent>)

  /** A descriptor object as deserialized from a record's payload: the ids,
      the serialized field values, and the node fields for node records. */
  datatype Descriptor = Descriptor(zuid: string, gozuid: string, values: string, node: Option<NodeFields>)

  /** One record of a save file: its descriptor type (absent when the type
      name does not resolve) and its deserialized descriptors. */
  datatype LoadTuple = LoadTuple(descriptorType: Option<DescriptorType>, descriptors: seq<Descriptor>)

  datatype LoadFault =
    /** A record whose descriptor type did not resolve reaches reflection. */
    | UnresolvedDescriptorType
    /** The component type of a descriptor type did not resolve. */
    | UnresolvedComponentType
    /** A component must be added but the owner is not a game object. */
    | NoOwner(zuid: string)
    /** A node record's ZUID is not bound to a node component. */
    | NotANode(zuid: string)
    /** Pass B: a record's ZUID is not in the registry. */
    | UnknownId(zuid: string)
    /** Pass B: a record's ZUID is bound to something that is not a component. */
    | NotAComponent(zuid: string)
    /** Pass B: a record's ZUID is bound to a component of another type. */
    | WrongComponentType(zuid: string)

  /** The component type a descriptor type describes, with its kind. */
  function RealType(env: LoadEnv, d: DescriptorType): Option<ComponentType> {
    match GetTypeFromZSerializerType(env.types, d)
    case None => None
    case Some(name) =>
      Some(ComponentType(name,
        if name == NodeTypeName then NodeKind
        else if name in env.kinds then env.kinds[name]
        else EngineKind))
  }

  /** `typeof(IZSerialize).IsAssignableFrom(t)`. */
  predicate IsZSerialize(t: ComponentType) {
    !t.kind.EngineKind?
  }

  /** `idMap[gozuid] as GameObject`. */
  function OwnerOf(m: map<string, Ref>, gozuid: string): GameObject? {
    if gozuid in m && m[gozuid].GameObjectRef? then m[gozuid].go else null
  }

  /** `idMap[zuid] as Component`: the cast yields a destroyed component too. */
  function ComponentOf(m: map<string, Ref>, zuid: string): Ref {
    if zuid !in m then Null
    else match m[zuid]
      case Destroyed(w) => if w.IsComponent() then w else Null
      case c => if c.IsComponent() then c else Null
  }

  /** The component a cast yields is one the registry refers to. */
  lemma ComponentOfIsRegistered(m: map<string, Ref>, zuid: string)
    ensures ComponentOf(m, zuid).Target() <= ObjectsOf(m)
  {
    if zuid in m && m[zuid].Destroyed? {
      assert ComponentOf(m, zuid).Target() <= m[zuid].Target();
    }
  }

  /** A cast yields nothing beyond the entry itself. */
  lemma ComponentOfWithin(m: map<string, Ref>, zuid: string)
    ensures zuid !in m ==> ComponentOf(m, zuid) == Null
    ensures zuid in m ==> ComponentOf(m, zuid).Target() <= m[zuid].Target()
  {
  }

  /** The key is bound to a live object. */
  predicate BoundIn(m: map<string, Ref>, key: string) {
    key in m && m[key].Live()
  }

  /** A serialized component after the node restore: a missing component
      has been added to the node's game object, a live one is kept. */
  predicate Completed(before: SerializedComponent, after: SerializedComponent, owner: GameObject)
    reads after.component
  {
    && after.zuid == before.zuid
    && after.typeName == before.typeName
    && (before.component != null ==> after.component == before.component)
    && (before.component == null ==>
          after.component != null
          && after.component.typeName == before.typeName
          && after.component.gameObject == owner)
  }

  /** The registry after the node restore: every added component is bound
      under its ZUID, later entries winning. */
  function BindAdded(m: map<string, Ref>, before: seq<SerializedComponent>, after: seq<SerializedComponent>): map<string, Ref>
    requires |before| == |after|
  {
    if |before| == 0 then m
    else
      var n := |before| - 1;
      var m' := BindAdded(m, before[..n], after[..n]);
      if before[n].component == null && after[n].component != null
      then m'[before[n].zuid := ComponentRef(after[n].component)]
      else m'
  }

  /** Binding added components never unbinds a key. */
  lemma {:induction false} BindAddedKeepsBound(m: map<string, Ref>, before: seq<SerializedComponent>, after: seq<SerializedComponent>)
    requires |before| == |after|
    ensures forall k :: BoundIn(m, k) ==> BoundIn(BindAdded(m, before, after), k)
  {
    if |before| > 0 {
      var n := |before| - 1;
      BindAddedKeepsBound(m, before[..n], after[..n]);
    }
  }

  /** The loop over a node's serialized components that re-adds every
      missing one to the node's game object and registers it. */
  method RestoreSerializedComponents(registry: IdRegistry, pg: PersistentGameObject)
    modifies registry, pg`serializedComponents
    ensures |pg.serializedComponents| == |old(pg.serializedComponents)|
    ensures forall i :: 0 <= i < |pg.serializedComponents| ==>
      Completed(old(pg.serializedComponents)[i], pg.serializedComponents[i], pg.gameObject)
      && (old(pg.serializedComponents)[i].component == null ==> fresh(pg.serializedComponents[i].component))
    ensures registry.entries == BindAdded(old(registry.entries), old(pg.serializedComponents), pg.serializedComponents)
    ensures forall o :: o in registry.Objects() ==> o in old(registry.Objects()) || fresh(o)
    ensures NewBindingsFresh(registry)
  {
    var original := pg.serializedComponents;
    var n := |original|;
    var i := 0;
    while i < n
      invariant 0 <= i <= n && |pg.serializedComponents| == n
      invariant forall j :: 0 <= j < i ==>
        Completed(original[j], pg.serializedComponents[j], pg.gameObject)
        && (original[j].component == null ==> fresh(pg.serializedComponents[j].component))
      invariant forall j :: i <= j < n ==> pg.serializedComponents[j] == original[j]
      invariant registry.entries == BindAdded(old(registry.entries), original[..i], pg.serializedComponents[..i])
      invariant forall o :: o in registry.Objects() ==> o in old(registry.Objects()) || fresh(o)
      invariant NewBindingsFresh(registry)
    {
      var entry := original[i];
      var before := pg.serializedComponents;
      if entry.component == null {
        var added := new UnityComponent(entry.typeName, pg.gameObject);
        pg.serializedComponents := pg.serializedComponents[i := entry.(component := added)];
        ObjectsOfUpdate(registry.entries, entry.zuid, ComponentRef(added));
        registry.Set(entry.zuid, ComponentRef(added));
      }
      assert original[..i + 1][..i] == original[..i];
      assert pg.serializedComponents[..i + 1][..i] == before[..i];
      i := i + 1;
    }
    assert original[..n] == original;
    assert pg.serializedComponents[..n] == pg.serializedComponents;
  }

  /** Of a behaviour's fields, at most its serialized values changed. */
  twostate predicate OnlyValuesChanged(b: PersistentMonoBehaviour)
    reads b
  {
    && b.isOn == old(b.isOn) && b.groupID == old(b.groupID) && b.autoSync == old(b.autoSync)
    && b.zuid == old(b.zuid) && b.gozuid == old(b.gozuid)
    && b.isSaving == old(b.isSaving) && b.isLoading == old(b.isLoading)
    && b.showSettings == old(b.showSettings)
  }

  /** Every registry entry that was added or replaced refers to an object
      allocated since. */
  twostate predicate NewBindingsFresh(registry: IdRegistry)
    reads registry
  {
    forall k :: k in registry.entries && (k !in old(registry.entries) || registry.entries[k] != old(registry.entries)[k]) ==>
      fresh(registry.entries[k].Target())
  }

  /** The objects of the entries `m1` added or replaced relative to `m0`. */
  function Rebound(m0: map<string, Ref>, m1: map<string, Ref>): set<object> {
    set k, o | k in m1 && (k !in m0 || m1[k] != m0[k]) && o in m1[k].Target() :: o
  }

  /** The objects of fresh bindings are fresh. */
  twostate lemma ReboundFresh(registry: IdRegistry)
    requires NewBindingsFresh(registry)
    ensures fresh(Rebound(old(registry.entries), registry.entries))
  {
    forall o | o in Rebound(old(registry.entries), registry.entries)
      ensures !old(allocated(o))
    {
      var k :| k in registry.entries && (k !in old(registry.entries) || registry.entries[k] != old(registry.entries)[k])
        && o in registry.entries[k].Target();
    }
  }

  /** The components the registry `m` binds under the ZUIDs of `ds`: the
      objects a pass over `ds` may write. */
  function Touched(m: map<string, Ref>, ds: seq<Descriptor>): set<object> {
    set d, o | d in ds && o in ComponentOf(m, d.zuid).Target() :: o
  }

  /** More descriptors touch more components. */
  lemma TouchedMono(m: map<string, Ref>, ds: seq<Descriptor>, all: seq<Descriptor>)
    requires forall d :: d in ds ==> d in all
    ensures Touched(m, ds) <= Touched(m, all)
  {
  }

  /** The components `m1` binds under the ZUIDs of `ds` are ones `m0`
      bound under the ZUIDs of `all`, or rebound ones. */
  lemma TouchedSince(m0: map<string, Ref>, m1: map<string, Ref>, ds: seq<Descriptor>, all: seq<Descriptor>)
    requires forall d :: d in ds ==> d in all
    ensures Touched(m1, ds) <= Touched(m0, all) + Rebound(m0, m1)
  {
    forall o | o in Touched(m1, ds) && o !in Rebound(m0, m1)
      ensures o in Touched(m0, all)
    {
      var d :| d in ds && o in ComponentOf(m1, d.zuid).Target();
      ComponentOfWithin(m1, d.zuid);
      assert o in ComponentOf(m0, d.zuid).Target();
    }
  }

  /** `RestoreValues` of a descriptor onto a component: the generated
      descriptor copies its field values (and a node's serialized
      components) onto the component. */
  method RestoreValues(target: Ref, d: Descriptor)
    requires target.IsComponent()
    requires target.NodeRef? ==> d.node.Some?
    modifies target.Target()
    ensures target.NodeRef? ==>
      && target.node.values == d.values
      && target.node.serializedComponents == d.node.value.serializedComponents
      && target.node.zuid == old(target.node.zuid) && target.node.gozuid == old(target.node.gozuid)
    ensures target.BehaviourRef? ==>
      target.behaviour.values == d.values && OnlyValuesChanged(target.behaviour)
    ensures target.ComponentRef? ==> target.component.values == d.values
  {
    match target
    case NodeRef(n) =>
      n.values := d.values;
      n.serializedComponents := d.node.value.serializedComponents;
    case BehaviourRef(b) =>
      b.values := d.values;
    case ComponentRef(c) =>
      c.values := d.values;
  }

  /** Whether the record's owner counts as present, per pass A. */
  predicate OwnerPresent(m: map<string, Ref>, d: Descriptor) {
    BoundIn(m, d.gozuid)
  }

  /** `LoadObjectsDynamically` (pass A, one descriptor). A record whose game
      object is gone is skipped unless it is a node record, whose game object
      is rebuilt and registered under its GOZUID; a missing component of an
      `IZSerialize` type is added and registered under its ZUID with both of
      its ids set to that ZUID; a node is restored and its missing engine
      components re-added; a behaviour is switched on. */
  method LoadObjectsDynamically(registry: IdRegistry, ct: ComponentType, d: Descriptor)
    returns (r: Outcome<LoadFault>, gameObject: GameObject?, component: Ref)
    requires ct.kind.NodeKind? ==> d.node.Some?
    modifies registry, ComponentOf(registry.entries, d.zuid).Target()
    // The skip rule.
    ensures !OwnerPresent(old(registry.entries), d) && !ct.kind.NodeKind? ==>
      r.Pass? && registry.entries == old(registry.entries)
      && forall o :: o in old(registry.Objects()) ==> unchanged(o)
    // A live owner is the game object the registry binds under the GOZUID.
    ensures OwnerPresent(old(registry.entries), d) ==> gameObject == OwnerOf(old(registry.entries), d.gozuid)
    // A fault names the descriptor's ZUID.
    ensures r.Fail? ==> r.error == NoOwner(d.zuid) || r.error == NotANode(d.zuid)
    // A destroyed node's game object is rebuilt from its data.
    ensures ct.kind.NodeKind? && !OwnerPresent(old(registry.entries), d) ==>
      gameObject != null && fresh(gameObject)
      && BuiltFrom(gameObject, d.node.value.gameObjectData)
    // When the owner is known, the outcome.
    ensures OwnerPresent(old(registry.entries), d) || ct.kind.NodeKind? ==>
      var added := !BoundIn(old(registry.entries), d.zuid) && IsZSerialize(ct);
      && (r.Fail? <==>
            (added && gameObject == null)
            || (!(added && gameObject == null) && ct.kind.NodeKind? && !component.NodeRef?))
      && (r.Pass? && added ==>
            component.IsComponent() && fresh(component.Target())
            && (ct.kind.NodeKind? ==>
                  && component.NodeRef? && fresh(component.node)
                  && component.node.zuid == d.zuid && component.node.gozuid == d.zuid
                  && component.node.gameObject == gameObject)
            && (ct.kind.BehaviourKind? ==>
                  && component.BehaviourRef? && fresh(component.behaviour)
                  && component.behaviour.zuid == d.zuid && component.behaviour.gozuid == d.zuid
                  && component.behaviour.typeName == ct.name
                  && component.behaviour.gameObject == gameObject))
      && (r.Pass? && !added ==> component == ComponentOf(old(registry.entries), d.zuid))
    // The registry after a successful load of a known or rebuilt owner.
    ensures r.Pass? && (OwnerPresent(old(registry.entries), d) || ct.kind.NodeKind?) ==>
      var m0 := old(registry.entries);
      var m1 := if OwnerPresent(m0, d) then m0 else m0[d.gozuid := GameObjectRef(gameObject)];
      var m2 := if !BoundIn(m0, d.zuid) && IsZSerialize(ct) then m1[d.zuid := component] else m1;
      && (!ct.kind.NodeKind? ==> registry.entries == m2)
      && (ct.kind.NodeKind? ==>
            component.NodeRef?
            && component.node.values == d.values
            && |component.node.serializedComponents| == |d.node.value.serializedComponents|
            && (forall i :: 0 <= i < |d.node.value.serializedComponents| ==>
                  Completed(d.node.value.serializedComponents[i], component.node.serializedComponents[i],
                    component.node.gameObject))
            && registry.entries == BindAdded(m2, d.node.value.serializedComponents, component.node.serializedComponents))
    // A loaded behaviour ends switched on.
    ensures r.Pass? && (OwnerPresent(old(registry.entries), d) || ct.kind.NodeKind?) && component.BehaviourRef? ==>
      component.behaviour.isOn
    // A loaded record leaves its component and its game object bound.
    ensures r.Pass? && IsZSerialize(ct) && (OwnerPresent(old(registry.entries), d) || ct.kind.NodeKind?) ==>
      Placed(registry.entries, d)
    // Nothing is unbound, and only fresh objects join the registry.
    ensures forall k :: BoundIn(old(registry.entries), k) ==> BoundIn(registry.entries, k)
    ensures forall o :: o in registry.Objects() ==> o in old(registry.Objects()) || fresh(o)
    ensures NewBindingsFresh(registry)
  {
    ghost var m0 := registry.entries;
    var componentPresent := registry.Bound(d.zuid);
    component := ComponentOf(registry.entries, d.zuid);
    ComponentOfIsRegistered(registry.entries, d.zuid);
    var skip;
    skip, gameObject := RebuildOwner(registry, ct, d);
    if skip {
      return Pass, gameObject, component;
    }
    assert registry.entries == if OwnerPresent(m0, d) then m0 else m0[d.gozuid := GameObjectRef(gameObject)];
    r, component := LoadIntoOwner(registry, ct, d, gameObject, componentPresent, component);
  }

  /** First step of `LoadObjectsDynamically`: a record without a live owner
      is skipped, unless it is a node record, whose game object is rebuilt
      from its data and registered under its GOZUID. */
  method RebuildOwner(registry: IdRegistry, ct: ComponentType, d: Descriptor) returns (skip: bool, gameObject: GameObject?)
    requires ct.kind.NodeKind? ==> d.node.Some?
    modifies registry
    ensures skip <==> !OwnerPresent(old(registry.entries), d) && !ct.kind.NodeKind?
    ensures skip ==> registry.entries == old(registry.entries)
    ensures !skip ==> BoundIn(registry.entries, d.gozuid)
    ensures OwnerPresent(old(registry.entries), d) ==>
      registry.entries == old(registry.entries) && gameObject == OwnerOf(old(registry.entries), d.gozuid)
    ensures !OwnerPresent(old(registry.entries), d) && ct.kind.NodeKind? ==>
      && gameObject != null && fresh(gameObject)
      && registry.entries == old(registry.entries)[d.gozuid := GameObjectRef(gameObject)]
      && BuiltFrom(gameObject, d.node.value.gameObjectData)
    ensures forall k :: BoundIn(old(registry.entries), k) ==> BoundIn(registry.entries, k)
    ensures forall o :: o in registry.Objects() ==> o in old(registry.Objects()) || fresh(o)
    ensures NewBindingsFresh(registry)
  {
    gameObject := OwnerOf(registry.entries, d.gozuid);
    skip := false;
    if !registry.Bound(d.gozuid) {
      if !ct.kind.NodeKind? {
        skip := true;
        return;
      }
      gameObject := MakePerfectlyValidGameObject(d.node.value.gameObjectData);
      ObjectsOfUpdate(registry.entries, d.gozuid, GameObjectRef(gameObject));
      registry.Set(d.gozuid, GameObjectRef(gameObject));
    }
  }

  /** The steps of `LoadObjectsDynamically` once the owner is known: the
      missing component is added, a node is restored, a behaviour is
      switched on. `existing` is what the registry bound under the ZUID. */
  method LoadIntoOwner(registry: IdRegistry, ct: ComponentType, d: Descriptor, gameObject: GameObject?,
                       componentPresent: bool, existing: Ref)
    returns (r: Outcome<LoadFault>, component: Ref)
    requires ct.kind.NodeKind? ==> d.node.Some?
    modifies registry, existing.Target()
    ensures var added := !componentPresent && IsZSerialize(ct);
      && (r.Fail? <==>
            (added && gameObject == null)
            || (!(added && gameObject == null) && ct.kind.NodeKind? && !component.NodeRef?))
      && (r.Pass? && added ==>
            component.IsComponent() && fresh(component.Target())
            && (ct.kind.NodeKind? ==>
                  && component.NodeRef? && fresh(component.node)
                  && component.node.zuid == d.zuid && component.node.gozuid == d.zuid
                  && component.node.gameObject == gameObject)
            && (ct.kind.BehaviourKind? ==>
                  && component.BehaviourRef? && fresh(component.behaviour)
                  && component.behaviour.zuid == d.zuid && component.behaviour.gozuid == d.zuid
                  && component.behaviour.typeName == ct.name
                  && component.behaviour.gameObject == gameObject))
      && (r.Pass? && !added ==> component == existing)
      && (r.Pass? && added ==> BoundIn(registry.entries, d.zuid))
    ensures r.Pass? ==>
      var m2 := if !componentPresent && IsZSerialize(ct) then old(registry.entries)[d.zuid := component]
                else old(registry.entries);
      && (!ct.kind.NodeKind? ==> registry.entries == m2)
      && (ct.kind.NodeKind? ==>
            component.NodeRef?
            && component.node.values == d.values
            && |component.node.serializedComponents| == |d.node.value.serializedComponents|
            && (forall i :: 0 <= i < |d.node.value.serializedComponents| ==>
                  Completed(d.node.value.serializedComponents[i], component.node.serializedComponents[i],
                    component.node.gameObject))
            && registry.entries == BindAdded(m2, d.node.value.serializedComponents, component.node.serializedComponents))
    ensures r.Pass? && component.BehaviourRef? ==> component.behaviour.isOn
    ensures r.Fail? ==> r.error == NoOwner(d.zuid) || r.error == NotANode(d.zuid)
    ensures forall k :: BoundIn(old(registry.entries), k) ==> BoundIn(registry.entries, k)
    ensures forall o :: o in registry.Objects() ==> o in old(registry.Objects()) || fresh(o)
    ensures NewBindingsFresh(registry)
  {
    r, component := AddMissingComponent(registry, ct, d.zuid, componentPresent, gameObject, existing);
    if r.Fail? {
      return;
    }
    if ct.kind.NodeKind? {
      r := RestoreNode(registry, component, d);
      if r.Fail? {
        return;
      }
    }
    if component.BehaviourRef? {
      component.behaviour.isOn := true;
    }
  }

  /** Second step: a component of an `IZSerialize` type that was not bound
      before the load step is added to the owner and registered under its
      ZUID, and both of its ids are set to that ZUID. */
  method AddMissingComponent(registry: IdRegistry, ct: ComponentType, zuid: string, componentPresent: bool,
                             gameObject: GameObject?, existing: Ref)
    returns (r: Outcome<LoadFault>, component: Ref)
    modifies registry
    ensures var added := !componentPresent && IsZSerialize(ct);
      && (r.Fail? <==> added && gameObject == null)
      && (!added || r.Fail? ==> component == existing && registry.entries == old(registry.entries))
      && (added && r.Pass? ==>
            && registry.entries == old(registry.entries)[zuid := component]
            && (ct.kind.NodeKind? ==>
                  && component.NodeRef? && fresh(component.node)
                  && component.node.zuid == zuid && component.node.gozuid == zuid
                  && component.node.gameObject == gameObject && component.node.values == ""
                  && component.node.serializedComponents == [])
            && (ct.kind.BehaviourKind? ==>
                  && component.BehaviourRef? && fresh(component.behaviour)
                  && component.behaviour.zuid == zuid && component.behaviour.gozuid == zuid
                  && component.behaviour.typeName == ct.name
                  && component.behaviour.gameObject == gameObject))
    ensures r.Pass? && !componentPresent && IsZSerialize(ct) ==> BoundIn(registry.entries, zuid)
    ensures r.Fail? ==> r.error == NoOwner(zuid)
    ensures forall k :: BoundIn(old(registry.entries), k) ==> BoundIn(registry.entries, k)
    ensures forall o :: o in registry.Objects() ==> o in old(registry.Objects()) || fresh(o)
    ensures NewBindingsFresh(registry)
  {
    component := existing;
    r := Pass;
    if !componentPresent && IsZSerialize(ct) {
      if gameObject == null {
        return Fail(NoOwner(zuid)), component;
      }
      if ct.kind.NodeKind? {
        var node := new PersistentGameObject(gameObject);
        component := NodeRef(node);
        ObjectsOfUpdate(registry.entries, zuid, component);
        registry.Set(zuid, component);
        node.zuid := zuid;
        node.gozuid := zuid;
      } else {
        var behaviour := new PersistentMonoBehaviour(ct.name, ct.kind.inheritanceDepth, gameObject);
        component := BehaviourRef(behaviour);
        ObjectsOfUpdate(registry.entries, zuid, component);
        registry.Set(zuid, component);
        behaviour.zuid := zuid;
        behaviour.gozuid := zuid;
      }
    }
  }

  /** Third step, for node records: the node's values and serialized
      components are restored, then every missing engine component is
      re-added and registered. Anything but a node component faults. */
  method RestoreNode(registry: IdRegistry, component: Ref, d: Descriptor) returns (r: Outcome<LoadFault>)
    requires d.node.Some?
    modifies registry, component.Target()
    ensures r.Fail? <==> !component.NodeRef?
    ensures r.Fail? ==> r.error == NotANode(d.zuid)
    ensures r.Fail? ==> registry.entries == old(registry.entries)
    ensures r.Pass? ==>
      && component.node.values == d.values
      && component.node.zuid == old(component.node.zuid)
      && component.node.gozuid == old(component.node.gozuid)
      && |component.node.serializedComponents| == |d.node.value.serializedComponents|
      && (forall i :: 0 <= i < |d.node.value.serializedComponents| ==>
            Completed(d.node.value.serializedComponents[i], component.node.serializedComponents[i],
              component.node.gameObject))
      && registry.entries == BindAdded(old(registry.entries), d.node.value.serializedComponents,
                                       component.node.serializedComponents)
    ensures forall k :: BoundIn(old(registry.entries), k) ==> BoundIn(registry.entries, k)
    ensures forall o :: o in registry.Objects() ==> o in old(registry.Objects()) || fresh(o)
    ensures NewBindingsFresh(registry)
  {
    if !component.NodeRef? {
      return Fail(NotANode(d.zuid));
    }
    r := Pass;
    var m := registry.entries;
    RestoreValues(component, d);
    RestoreSerializedComponents(registry, component.node);
    BindAddedKeepsBound(m, d.node.value.serializedComponents, component.node.serializedComponents);
  }

  /** The records pass A deserializes: those whose component type resolves
      to an `IZSerialize` type. */
  predicate InPassA(env: LoadEnv, t: LoadTuple) {
    && t.descriptorType.Some?
    && RealType(env, t.descriptorType.value).Some?
    && IsZSerialize(RealType(env, t.descriptorType.value).value)
  }

  /** The descriptors of a record whose component type is the node type
      carry the node fields, as the node's descriptor type declares them. */
  predicate CarriesNodeFields(env: LoadEnv, t: LoadTuple) {
    t.descriptorType.Some? && RealType(env, t.descriptorType.value).Some?
    && RealType(env, t.descriptorType.value).value.kind.NodeKind? ==>
      forall d :: d in t.descriptors ==> d.node.Some?
  }

  /** Pass A is expected to place a descriptor when it is a node's or when
      its game object was live before the pass. */
  predicate Expected(m0: map<string, Ref>, ct: ComponentType, d: Descriptor) {
    ct.kind.NodeKind? || BoundIn(m0, d.gozuid)
  }

  /** The descriptor's component and its game object are both bound. */
  predicate Placed(m: map<string, Ref>, d: Descriptor) {
    BoundIn(m, d.zuid) && BoundIn(m, d.gozuid)
  }

  /** The inner loop of `LoadComponents`: every descriptor of one record is
      loaded in order; the first fault ends the pass. */
  method LoadTupleComponents(registry: IdRegistry, ct: ComponentType, ds: seq<Descriptor>)
    returns (r: Outcome<LoadFault>)
    requires IsZSerialize(ct)
    requires ct.kind.NodeKind? ==> forall d :: d in ds ==> d.node.Some?
    modifies registry, Touched(registry.entries, ds)
    ensures r.Pass? ==> forall j :: 0 <= j < |ds| && Expected(old(registry.entries), ct, ds[j]) ==>
      Placed(registry.entries, ds[j])
    ensures r.Fail? ==> exists j :: 0 <= j < |ds| && (r.error == NoOwner(ds[j].zuid) || r.error == NotANode(ds[j].zuid))
    ensures forall k :: BoundIn(old(registry.entries), k) ==> BoundIn(registry.entries, k)
    ensures forall o :: o in registry.Objects() ==> o in old(registry.Objects()) || fresh(o)
    ensures NewBindingsFresh(registry)
  {
    r := Pass;
    var j := 0;
    while j < |ds|
      invariant 0 <= j <= |ds|
      invariant r.Pass?
      invariant forall i :: 0 <= i < j && Expected(old(registry.entries), ct, ds[i]) ==>
        Placed(registry.entries, ds[i])
      invariant forall k :: BoundIn(old(registry.entries), k) ==> BoundIn(registry.entries, k)
      invariant forall o :: o in registry.Objects() ==> o in old(registry.Objects()) || fresh(o)
      invariant NewBindingsFresh(registry)
    {
      assert ds[j] in ds;
      TouchedSince(old(registry.entries), registry.entries, [ds[j]], ds);
      ReboundFresh(registry);
      assert ComponentOf(registry.entries, ds[j].zuid).Target() <= Touched(registry.entries, [ds[j]]);
      var owner, component;
      r, owner, component := LoadObjectsDynamically(registry, ct, ds[j]);
      if r.Fail? {
        assert r.error == NoOwner(ds[j].zuid) || r.error == NotANode(ds[j].zuid);
        return;
      }
      j := j + 1;
    }
  }

  /** The descriptors pass A loads, in order. */
  function Loaded(env: LoadEnv, tuples: seq<LoadTuple>): seq<Descriptor> {
    if |tuples| == 0 then []
    else
      var n := |tuples| - 1;
      Loaded(env, tuples[..n]) + (if InPassA(env, tuples[n]) then tuples[n].descriptors else [])
  }

  /** Every descriptor of a record pass A processes is among those it loads. */
  lemma {:induction false} LoadedContains(env: LoadEnv, tuples: seq<LoadTuple>, i: nat)
    requires i < |tuples| && InPassA(env, tuples[i])
    ensures forall d :: d in tuples[i].descriptors ==> d in Loaded(env, tuples)
  {
    var n := |tuples| - 1;
    if i < n {
      assert tuples[..n][i] == tuples[i];
      LoadedContains(env, tuples[..n], i);
    }
  }

  /** A node record before record `i` rebuilds a game object under `gozuid`. */
  ghost predicate RebuiltBefore(env: LoadEnv, tuples: seq<LoadTuple>, i: nat, gozuid: string)
    requires i <= |tuples|
  {
    exists i0, j0 ::
      && 0 <= i0 < i && InPassA(env, tuples[i0])
      && RealType(env, tuples[i0].descriptorType.value).value.kind.NodeKind?
      && 0 <= j0 < |tuples[i0].descriptors| && tuples[i0].descriptors[j0].gozuid == gozuid
  }

  /** Pass A is expected to place a descriptor of record `i` when it is a
      node's, when its game object was live before the pass, or when a node
      record before it rebuilds its game object. */
  ghost predicate ExpectedInPass(env: LoadEnv, m0: map<string, Ref>, tuples: seq<LoadTuple>, i: nat, d: Descriptor)
    requires i < |tuples| && InPassA(env, tuples[i])
  {
    Expected(m0, RealType(env, tuples[i].descriptorType.value).value, d) || RebuiltBefore(env, tuples, i, d.gozuid)
  }

  /** `LoadComponents` (pass A): the records are filtered to those of an
      `IZSerialize` component type and each of their descriptors is loaded.
      Resolving the component type of a record whose descriptor type did not
      resolve faults. After a pass without fault, every descriptor of a
      processed record that was expected to be placed has its component and
      its game object bound. Only the components bound under the ZUIDs of
      the loaded descriptors are written. */
  method LoadComponents(registry: IdRegistry, env: LoadEnv, tuples: seq<LoadTuple>)
    returns (r: Outcome<LoadFault>)
    requires forall i :: 0 <= i < |tuples| ==> CarriesNodeFields(env, tuples[i])
    modifies registry, Touched(registry.entries, Loaded(env, tuples))
    ensures (exists i :: 0 <= i < |tuples| && tuples[i].descriptorType.None?) ==> r.Fail?
    ensures r.Fail? ==>
      || r.error == UnresolvedDescriptorType
      || exists i, j :: 0 <= i < |tuples| && InPassA(env, tuples[i]) && 0 <= j < |tuples[i].descriptors|
           && (r.error == NoOwner(tuples[i].descriptors[j].zuid) || r.error == NotANode(tuples[i].descriptors[j].zuid))
    ensures r.Pass? ==> forall i, j ::
      0 <= i < |tuples| && InPassA(env, tuples[i]) && 0 <= j < |tuples[i].descriptors|
      && ExpectedInPass(env, old(registry.entries), tuples, i, tuples[i].descriptors[j]) ==>
        Placed(registry.entries, tuples[i].descriptors[j])
    ensures forall k :: BoundIn(old(registry.entries), k) ==> BoundIn(registry.entries, k)
    ensures forall o :: o in registry.Objects() ==> o in old(registry.Objects()) || fresh(o)
    ensures NewBindingsFresh(registry)
  {
    r := Pass;
    var ti := 0;
    while ti < |tuples|
      invariant 0 <= ti <= |tuples|
      invariant r.Pass?
      invariant forall i :: 0 <= i < ti ==> tuples[i].descriptorType.Some?
      invariant forall i, j ::
        0 <= i < ti && InPassA(env, tuples[i]) && 0 <= j < |tuples[i].descriptors|
        && ExpectedInPass(env, old(registry.entries), tuples, i, tuples[i].descriptors[j]) ==>
          Placed(registry.entries, tuples[i].descriptors[j])
      invariant forall k :: BoundIn(old(registry.entries), k) ==> BoundIn(registry.entries, k)
      invariant forall o :: o in registry.Objects() ==> o in old(registry.Objects()) || fresh(o)
      invariant NewBindingsFresh(registry)
    {
      var t := tuples[ti];
      if t.descriptorType.None? {
        return Fail(UnresolvedDescriptorType);
      }
      var realType := RealType(env, t.descriptorType.value);
      if realType.Some? && IsZSerialize(realType.value) {
        assert CarriesNodeFields(env, tuples[ti]);
        ghost var mt := registry.entries;
        LoadedContains(env, tuples, ti);
        TouchedSince(old(registry.entries), mt, t.descriptors, Loaded(env, tuples));
        ReboundFresh(registry);
        ExpectedAtRecordStart(env, old(registry.entries), mt, tuples, ti);
        r := LoadTupleComponents(registry, realType.value, t.descriptors);
        if r.Fail? {
          var j :| 0 <= j < |t.descriptors| && (r.error == NoOwner(t.descriptors[j].zuid) || r.error == NotANode(t.descriptors[j].zuid));
          assert InPassA(env, tuples[ti]);
          return;
        }
      }
      ti := ti + 1;
    }
  }

  /** What pass A expects of record `i` it expects of the registry at the
      start of that record, once the earlier records are placed. */
  lemma ExpectedAtRecordStart(env: LoadEnv, m0: map<string, Ref>, mt: map<string, Ref>, tuples: seq<LoadTuple>, i: nat)
    requires i < |tuples| && InPassA(env, tuples[i])
    requires forall k :: BoundIn(m0, k) ==> BoundIn(mt, k)
    requires forall i0, j0 ::
      0 <= i0 < i && InPassA(env, tuples[i0]) && 0 <= j0 < |tuples[i0].descriptors|
      && ExpectedInPass(env, m0, tuples, i0, tuples[i0].descriptors[j0]) ==>
        Placed(mt, tuples[i0].descriptors[j0])
    ensures forall d :: ExpectedInPass(env, m0, tuples, i, d) ==>
      Expected(mt, RealType(env, tuples[i].descriptorType.value).value, d)
  {
    forall d | ExpectedInPass(env, m0, tuples, i, d)
      ensures Expected(mt, RealType(env, tuples[i].descriptorType.value).value, d)
    {
      if RebuiltBefore(env, tuples, i, d.gozuid) {
        var i0, j0 :|
          && 0 <= i0 < i && InPassA(env, tuples[i0])
          && RealType(env, tuples[i0].descriptorType.value).value.kind.NodeKind?
          && 0 <= j0 < |tuples[i0].descriptors| && tuples[i0].descriptors[j0].gozuid == d.gozuid;
        assert ExpectedInPass(env, m0, tuples, i0, tuples[i0].descriptors[j0]);
      }
    }
  }

  /** Pass B leaves out the records of the node descriptor type. */
  predicate InPassB(t: LoadTuple) {
    !(t.descriptorType.Some? && t.descriptorType.value.name == NodeDescriptorName)
  }

  /** Type `t` is type `a` or derives from it. */
  predicate IsA(env: LoadEnv, t: string, a: string) {
    t == a || (t, a) in env.derives
  }

  /** The generated `RestoreValues` of the record's descriptor type sets at
      least one field. */
  predicate SetsFields(env: LoadEnv, t: LoadTuple) {
    t.descriptorType.Some? && t.descriptorType.value.name !in env.fieldless
  }

  /** What `FieldInfo.SetValue` accepts as its target: a component of the
      record's component type or of a type derived from it. */
  predicate Fits(env: LoadEnv, ct: ComponentType, c: Ref) {
    match c
    case NodeRef(_) => ct.kind.NodeKind?
    case BehaviourRef(b) => IsA(env, b.typeName, ct.name)
    case ComponentRef(u) => IsA(env, u.typeName, ct.name)
    case _ => false
  }

  /** Pass B gets through a record: its descriptor type and component type
      resolve, every descriptor's ZUID is in the registry and, when the
      generated `RestoreValues` sets any field, is bound to a component that
      fits the component type. */
  predicate Restorable(env: LoadEnv, m: map<string, Ref>, t: LoadTuple) {
    && t.descriptorType.Some?
    && forall d :: d in t.descriptors ==>
         RealType(env, t.descriptorType.value).Some?
         && d.zuid in m
         && (SetsFields(env, t) ==> Fits(env, RealType(env, t.descriptorType.value).value, ComponentOf(m, d.zuid)))
  }

  /** The condition of `Restorable` for one descriptor of a record whose component type
      resolved to `ct` and whose `RestoreValues` sets a field when `writing`. */
  predicate RestorableAs(env: LoadEnv, m: map<string, Ref>, ct: Option<ComponentType>, writing: bool, d: Descriptor) {
    && ct.Some?
    && d.zuid in m
    && (writing ==> Fits(env, ct.value, ComponentOf(m, d.zuid)))
  }

  /** A record whose components were destroyed is unbound for pass A, yet
      pass B still gets through it: the cast yields the destroyed
      components and their values are written back. */
  lemma DestroyedComponentsAreRestorable(env: LoadEnv, m: map<string, Ref>, t: LoadTuple)
    requires t.descriptorType.Some? && RealType(env, t.descriptorType.value).Some?
    requires forall d :: d in t.descriptors ==>
      d.zuid in m && m[d.zuid].Destroyed? && Fits(env, RealType(env, t.descriptorType.value).value, m[d.zuid].was)
    ensures forall d :: d in t.descriptors ==> !BoundIn(m, d.zuid)
    ensures Restorable(env, m, t)
  {
  }

  /** A record whose generated `RestoreValues` sets no field is restorable
      exactly when its ZUIDs are registered, whatever they are bound to. */
  lemma FieldlessRecordRestorable(env: LoadEnv, m: map<string, Ref>, t: LoadTuple)
    requires t.descriptorType.Some? && RealType(env, t.descriptorType.value).Some?
    requires t.descriptorType.value.name in env.fieldless
    ensures Restorable(env, m, t) <==> forall d :: d in t.descriptors ==> d.zuid in m
  {
  }

  /** A component of a type derived from the record's component type fits. */
  lemma DerivedComponentFits(env: LoadEnv, ct: ComponentType, c: Ref)
    requires c.BehaviourRef? || c.ComponentRef?
    requires (if c.BehaviourRef? then c.behaviour.typeName else c.component.typeName, ct.name) in env.derives
    ensures Fits(env, ct, c)
  {
  }

  /** The descriptors of one record whose values pass B writes. */
  function Writes(env: LoadEnv, t: LoadTuple): seq<Descriptor> {
    if InPassB(t) && SetsFields(env, t) then t.descriptors else []
  }

  /** The descriptors pass B writes back, in order. */
  function Written(env: LoadEnv, tuples: seq<LoadTuple>): seq<Descriptor> {
    if |tuples| == 0 then []
    else
      var n := |tuples| - 1;
      Written(env, tuples[..n]) + Writes(env, tuples[n])
  }

  /** Every write of one record is among the writes of the pass. */
  lemma {:induction false} WrittenContains(env: LoadEnv, tuples: seq<LoadTuple>, i: nat)
    requires i < |tuples|
    ensures forall d :: d in Writes(env, tuples[i]) ==> d in Written(env, tuples)
  {
    var n := |tuples| - 1;
    if i < n {
      assert tuples[..n][i] == tuples[i];
      WrittenContains(env, tuples[..n], i);
    }
  }

  /** The components one record writes are among those the pass writes. */
  lemma WritesTouched(env: LoadEnv, m: map<string, Ref>, tuples: seq<LoadTuple>, i: nat)
    requires i < |tuples|
    ensures Touched(m, Writes(env, tuples[i])) <= Touched(m, Written(env, tuples))
  {
    WrittenContains(env, tuples, i);
    TouchedMono(m, Writes(env, tuples[i]), Written(env, tuples));
  }

  /** The writes of one more record follow the writes of those before it. */
  lemma WrittenSnoc(env: LoadEnv, tuples: seq<LoadTuple>, i: nat)
    requires i < |tuples|
    ensures Written(env, tuples[..i + 1]) == Written(env, tuples[..i]) + Writes(env, tuples[i])
  {
    assert tuples[..i + 1][..i] == tuples[..i];
  }

  /** The serialized field values held by a component. */
  function ValuesOf(c: Ref): string
    reads c.Target()
  {
    match c
    case NodeRef(n) => n.values
    case BehaviourRef(b) => b.values
    case ComponentRef(u) => u.values
    case _ => ""
  }

  /** No later write of `ws` goes to the component of write `i`. */
  predicate LastWrite(m: map<string, Ref>, ws: seq<Descriptor>, i: nat)
    requires i < |ws|
  {
    forall k :: i < k < |ws| ==> ComponentOf(m, ws[k].zuid) != ComponentOf(m, ws[i].zuid)
  }

  /** Every component holds the values of the last write to it. */
  ghost predicate LastWins(m: map<string, Ref>, ws: seq<Descriptor>)
    reads ObjectsOf(m)
  {
    forall i :: 0 <= i < |ws| && LastWrite(m, ws, i) ==>
      ComponentOf(m, ws[i].zuid).Target() <= ObjectsOf(m)
      && ValuesOf(ComponentOf(m, ws[i].zuid)) == ws[i].values
  }

  /** The inner loop of `LoadReferences`: the values of each descriptor of
      one record are written back onto the component its ZUID is bound to.
      A node record is left out, as the pass filters it. A descriptor type
      whose `RestoreValues` sets no field writes nothing
      and so faults only on a ZUID missing from the registry. */
  method RestoreTuple(registry: IdRegistry, env: LoadEnv, t: LoadTuple, ghost before: seq<Descriptor>)
    returns (r: Outcome<LoadFault>)
    requires CarriesNodeFields(env, t)
    requires LastWins(registry.entries, before)
    modifies Touched(registry.entries, Writes(env, t))
    ensures registry.entries == old(registry.entries)
    ensures r.Pass? <==> (InPassB(t) ==> Restorable(env, registry.entries, t))
    ensures r.Pass? ==> LastWins(registry.entries, before + Writes(env, t))
  {
    if !InPassB(t) {
      assert before + Writes(env, t) == before;
      return Pass;
    }
    if t.descriptorType.None? {
      return Fail(UnresolvedDescriptorType);
    }
    var writing := SetsFields(env, t);
    r := RestoreDescriptors(registry.entries, env, RealType(env, t.descriptorType.value), writing, t.descriptors, before);
  }

  /** The loop over one record's descriptors: each ZUID is looked up and,
      when the record's `RestoreValues` sets a field, its values are written
      onto the component bound under it. The pass stops at the first
      descriptor it cannot get through. */
  method RestoreDescriptors(m: map<string, Ref>, env: LoadEnv, ct: Option<ComponentType>, writing: bool,
                            ds: seq<Descriptor>, ghost before: seq<Descriptor>)
    returns (r: Outcome<LoadFault>)
    requires ct.Some? && ct.value.kind.NodeKind? ==> forall d :: d in ds ==> d.node.Some?
    requires LastWins(m, before)
    modifies if writing then Touched(m, ds) else {}
    ensures r.Pass? <==> forall d :: d in ds ==> RestorableAs(env, m, ct, writing, d)
    ensures r.Pass? ==> LastWins(m, before + (if writing then ds else []))
  {
    ghost var ws := before;
    var j := 0;
    while j < |ds|
      invariant 0 <= j <= |ds|
      invariant ws == before + (if writing then ds[..j] else [])
      invariant LastWins(m, ws)
      invariant forall i :: 0 <= i < j ==> RestorableAs(env, m, ct, writing, ds[i])
    {
      var d := ds[j];
      if ct.None? {
        assert !RestorableAs(env, m, ct, writing, d);
        return Fail(UnresolvedComponentType);
      }
      if d.zuid !in m {
        assert !RestorableAs(env, m, ct, writing, d);
        return Fail(UnknownId(d.zuid));
      }
      if writing {
        assert ct.value.kind.NodeKind? ==> d.node.Some? by { assert d in ds; }
        TouchedMono(m, [d], ds);
        assert ComponentOf(m, d.zuid).Target() <= Touched(m, [d]);
        r := RestoreDescriptor(m, env, ct.value, d, ws);
        if r.Fail? {
          assert !RestorableAs(env, m, ct, writing, d);
          return;
        }
        ws := ws + [d];
        assert ds[..j + 1] == ds[..j] + [d];
      }
      j := j + 1;
    }
    assert ds[..j] == ds;
    forall d | d in ds
      ensures RestorableAs(env, m, ct, writing, d)
    {
      var i :| 0 <= i < |ds| && ds[i] == d;
    }
    r := Pass;
  }


  /** One descriptor of pass B: the cast of the component bound under its
      ZUID, then the generated `RestoreValues`, which faults unless the
      component fits the record's component type. */
  method RestoreDescriptor(m: map<string, Ref>, env: LoadEnv, ct: ComponentType, d: Descriptor, ghost ws: seq<Descriptor>)
    returns (r: Outcome<LoadFault>)
    requires ct.kind.NodeKind? ==> d.node.Some?
    requires LastWins(m, ws)
    modifies ComponentOf(m, d.zuid).Target()
    ensures r.Pass? <==> Fits(env, ct, ComponentOf(m, d.zuid))
    ensures r.Pass? ==> LastWins(m, ws + [d])
  {
    var c := ComponentOf(m, d.zuid);
    if !c.IsComponent() {
      return Fail(NotAComponent(d.zuid));
    }
    if !Fits(env, ct, c) {
      return Fail(WrongComponentType(d.zuid));
    }
    WriteBack(m, ws, d);
    r := Pass;
  }

  /** One write of pass B: the descriptor's values go onto the component
      bound under its ZUID, and every component keeps the values of the
      last write to it. */
  method WriteBack(m: map<string, Ref>, ghost ws: seq<Descriptor>, d: Descriptor)
    requires ComponentOf(m, d.zuid).IsComponent()
    requires ComponentOf(m, d.zuid).NodeRef? ==> d.node.Some?
    requires LastWins(m, ws)
    modifies ComponentOf(m, d.zuid).Target()
    ensures LastWins(m, ws + [d])
  {
    var c := ComponentOf(m, d.zuid);
    ComponentOfIsRegistered(m, d.zuid);
    WriteKeepsLastWins(m, ws, d);
    label Before:
    RestoreValues(c, d);
    forall i | 0 <= i < |ws| + 1 && LastWrite(m, ws + [d], i)
      ensures ComponentOf(m, (ws + [d])[i].zuid).Target() <= ObjectsOf(m)
      ensures ValuesOf(ComponentOf(m, (ws + [d])[i].zuid)) == (ws + [d])[i].values
    {
      if i < |ws| {
        var ci := ComponentOf(m, ws[i].zuid);
        assert ci != c && LastWrite(m, ws, i);
        assert ci.Target() !! c.Target();
        assert ValuesOf(ci) == old@Before(ValuesOf(ci));
      }
    }
  }

  /** Two different component references name two different objects. */
  lemma WriteKeepsLastWins(m: map<string, Ref>, ws: seq<Descriptor>, d: Descriptor)
    ensures forall i :: 0 <= i < |ws| && LastWrite(m, ws + [d], i) ==>
      LastWrite(m, ws, i) && ComponentOf(m, ws[i].zuid) != ComponentOf(m, d.zuid)
  {
    forall i | 0 <= i < |ws| && LastWrite(m, ws + [d], i)
      ensures LastWrite(m, ws, i) && ComponentOf(m, ws[i].zuid) != ComponentOf(m, d.zuid)
    {
      assert (ws + [d])[|ws|] == d;
      forall k | i < k < |ws|
        ensures ComponentOf(m, ws[k].zuid) != ComponentOf(m, ws[i].zuid)
      {
        assert (ws + [d])[k] == ws[k];
      }
    }
  }

  /** `LoadReferences` (pass B): every record except the node records is
      deserialized again and each descriptor's values are written back onto
      the component its ZUID is bound to. The pass succeeds exactly when
      every such record is restorable, and then every component written
      holds the values of the last descriptor written to it. */
  method LoadReferences(registry: IdRegistry, env: LoadEnv, tuples: seq<LoadTuple>)
    returns (r: Outcome<LoadFault>)
    requires forall i :: 0 <= i < |tuples| ==> CarriesNodeFields(env, tuples[i])
    modifies Touched(registry.entries, Written(env, tuples))
    ensures registry.entries == old(registry.entries)
    ensures r.Pass? <==> forall i :: 0 <= i < |tuples| && InPassB(tuples[i]) ==>
      Restorable(env, registry.entries, tuples[i])
    ensures r.Pass? ==> LastWins(registry.entries, Written(env, tuples))
  {
    var m := registry.entries;
    var ti := 0;
    while ti < |tuples|
      invariant 0 <= ti <= |tuples|
      invariant registry.entries == m
      invariant forall i :: 0 <= i < ti && InPassB(tuples[i]) ==> Restorable(env, m, tuples[i])
      invariant LastWins(m, Written(env, tuples[..ti]))
    {
      WrittenSnoc(env, tuples, ti);
      WritesTouched(env, m, tuples, ti);
      r := RestoreTuple(registry, env, tuples[ti], Written(env, tuples[..ti]));
      if r.Fail? {
        assert InPassB(tuples[ti]) && !Restorable(env, m, tuples[ti]);
        return;
      }
      ti := ti + 1;
    }
    assert tuples[..ti] == tuples;
    r := Pass;
  }
}
