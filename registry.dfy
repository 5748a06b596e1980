/** The identity registry (`idMap`): every live object the save system knows,
    keyed by its ZUID. A destroyed object compares equal to null in the
    engine, but its entry stays in the map and a cast still yields it; the
    model keeps such an entry as `Destroyed`. */
module Registry {
  import opened PersistentGameObjects
  import opened PersistentMonoBehaviours

  /** What a registry entry refers to. */
  datatype Ref =
    | Null
    | GameObjectRef(go: GameObject)
    | NodeRef(node: PersistentGameObject)
    | BehaviourRef(behaviour: PersistentMonoBehaviour)
    | ComponentRef(component: UnityComponent)
    /** An object destroyed since it was registered. */
    | Destroyed(was: Ref)
  {
    /** `as Component` on a live object: game objects and null are not
        components. */
    predicate IsComponent() {
      NodeRef? || BehaviourRef? || ComponentRef?
    }

    /** The engine's `!= null`: neither null nor destroyed. */
    predicate Live() {
      !Null? && !Destroyed?
    }

    /** The referenced object, for frames; a destroyed object is still one. */
    function Target(): set<object> {
      if Destroyed? then was.Held() else Held()
    }

    /** The object a live reference holds. */
    function Held(): set<object> {
      match this
      case GameObjectRef(g) => {g}
      case NodeRef(n) => {n}
      case BehaviourRef(b) => {b}
      case ComponentRef(c) => {c}
      case _ => {}
    }
  }

  /** `TryAdd`: binds the key only when it is not bound yet. */
  function TryAdded<K, V>(m: map<K, V>, key: K, value: V): map<K, V> {
    if key in m then m else m[key := value]
  }

  /** `m2` keeps every binding of `m1`. */
  ghost predicate Extends<K, V>(m1: map<K, V>, m2: map<K, V>) {
    forall k :: k in m1 ==> k in m2 && m2[k] == m1[k]
  }

  /** `TryAdd` never replaces a binding: the old map is kept, the key ends up
      bound, and it is bound to the new value exactly when it was unbound. */
  lemma TryAddNeverOverwrites<K, V>(m: map<K, V>, key: K, value: V)
    ensures Extends(m, TryAdded(m, key, value))
    ensures TryAdded(m, key, value).Keys == m.Keys + {key}
    ensures key !in m ==> TryAdded(m, key, value)[key] == value
    ensures key in m ==> TryAdded(m, key, value) == m
  {
  }

  lemma ExtendsTransitive<K, V>(m1: map<K, V>, m2: map<K, V>, m3: map<K, V>)
    requires Extends(m1, m2) && Extends(m2, m3)
    ensures Extends(m1, m3)
  {
  }

  /** The objects bound in a registry map. */
  function ObjectsOf(m: map<string, Ref>): set<object> {
    set k, o | k in m && o in m[k].Target() :: o
  }

  /** Binding a key adds at most the bound object. */
  lemma ObjectsOfUpdate(m: map<string, Ref>, key: string, value: Ref)
    ensures ObjectsOf(m[key := value]) <= ObjectsOf(m) + value.Target()
  {
  }

  class IdRegistry {
    var entries: map<string, Ref>

    constructor ()
      ensures entries == map[]
    {
      entries := map[];
    }

    /** The key is bound to a live object (`idMap.ContainsKey(k) && idMap[k] != null`). */
    predicate Bound(key: string)
      reads this
    {
      key in entries && entries[key].Live()
    }

    /** The objects the registry refers to. */
    function Objects(): set<object>
      reads this
    {
      ObjectsOf(entries)
    }

    /** `idMap[key] = value`. */
    method Set(key: string, value: Ref)
      modifies this
      ensures entries == old(entries)[key := value]
    {
      entries := entries[key := value];
    }

    /** `idMap.TryAdd(key, value)`. */
    method TryAdd(key: string, value: Ref)
      modifies this
      ensures entries == TryAdded(old(entries), key, value)
    {
      if key !in entries {
        entries := entries[key := value];
      }
    }
  }
}
