/** Scene objects the save system creates and restores: the game object with
    the data it is rebuilt from, the node component (`PersistentGameObject`)
    that carries a game object's identity and its list of serialized engine
    components, and a plain engine component. */
module PersistentGameObjects {

  datatype Vector3 = Vector3(x: real, y: real, z: real)
  datatype Quaternion = Quaternion(x: real, y: real, z: real, w: real)

  /** Loading order of a node record: ordered by `x`, then by `y`. */
  datatype LoadingOrder = LoadingOrder(x: int, y: int)

  /** The serialized state of a game object, from which a destroyed one is
      rebuilt. */
  datatype GameObjectData = GameObjectData(
    loadingOrder: LoadingOrder,
    hideFlags: int,
    name: string,
    active: bool,
    isStatic: bool,
    layer: int,
    tag: string,
    position: Vector3,
    rotation: Quaternion,
    size: Vector3,
    parent: GameObject?)

  /** A game object together with its transform. */
  class GameObject {
    var hideFlags: int
    var name: string
    var active: bool
    var isStatic: bool
    var layer: int
    var tag: string
    var position: Vector3
    var rotation: Quaternion
    var localScale: Vector3
    var parent: GameObject?
    /** The chain of transform parents, nearest first. */
    ghost var ancestors: seq<GameObject>

    /** `new GameObject()`: a root object with the engine's defaults. */
    constructor ()
      ensures hideFlags == 0 && name == "New Game Object" && active && !isStatic
      ensures layer == 0 && tag == "Untagged"
      ensures position == Vector3(0.0, 0.0, 0.0) && rotation == Quaternion(0.0, 0.0, 0.0, 1.0)
      ensures localScale == Vector3(1.0, 1.0, 1.0)
      ensures parent == null && ancestors == []
      ensures HierarchyValid()
    {
      hideFlags := 0;
      name := "New Game Object";
      active := true;
      isStatic := false;
      layer := 0;
      tag := "Untagged";
      position := Vector3(0.0, 0.0, 0.0);
      rotation := Quaternion(0.0, 0.0, 0.0, 1.0);
      localScale := Vector3(1.0, 1.0, 1.0);
      parent := null;
      ancestors := [];
    }

    /** The parent links form the finite chain recorded in `ancestors`. */
    ghost predicate HierarchyValid()
      reads this, ancestors
      decreases |ancestors|
    {
      if parent == null then ancestors == []
      else
        && |ancestors| > 0
        && ancestors[0] == parent
        && parent.ancestors == ancestors[1..]
        && parent.HierarchyValid()
    }
  }

  /** `CountParents`: the object itself plus every transform above it. */
  function CountParents(t: GameObject): (r: nat)
    reads t, t.ancestors
    requires t.HierarchyValid()
    decreases |t.ancestors|
    ensures r == 1 + |t.ancestors|
  {
    if t.parent == null then 1
    else 1 + CountParents(t.parent)
  }

  /** A child is counted one deeper than its parent. */
  lemma ChildDeeperThanParent(t: GameObject)
    requires t.HierarchyValid() && t.parent != null
    ensures t.parent.HierarchyValid()
    ensures CountParents(t) == CountParents(t.parent) + 1
  {
  }

  /** Every field `MakePerfectlyValidGameObject` sets holds the data's value. */
  predicate BuiltFrom(o: GameObject, data: GameObjectData)
    reads o
  {
    && o.hideFlags == data.hideFlags && o.name == data.name && o.active == data.active
    && o.isStatic == data.isStatic && o.layer == data.layer && o.tag == data.tag
    && o.position == data.position && o.rotation == data.rotation && o.localScale == data.size
    && o.parent == data.parent
  }

  /** `GameObjectData.MakePerfectlyValidGameObject`: a new game object with
      every recorded property copied over and placed under the recorded
      parent, or at the root when there is none. */
  method MakePerfectlyValidGameObject(data: GameObjectData) returns (o: GameObject)
    ensures fresh(o) && BuiltFrom(o, data)
    ensures data.parent == null ==> o.HierarchyValid() && CountParents(o) == 1
    ensures data.parent != null && data.parent.HierarchyValid() ==>
      o.HierarchyValid() && CountParents(o) == CountParents(data.parent) + 1
  {
    o := new GameObject();
    o.hideFlags := data.hideFlags;
    o.name := data.name;
    o.active := data.active;
    o.isStatic := data.isStatic;
    o.layer := data.layer;
    o.tag := data.tag;
    o.position := data.position;
    o.rotation := data.rotation;
    o.localScale := data.size;
    o.parent := data.parent;
    if data.parent != null {
      o.ancestors := [data.parent] + data.parent.ancestors;
    }
  }

  /** A serialized engine component of a node: its id, its type, and the
      live component, or null when it is missing. */
  datatype SerializedComponent = SerializedComponent(zuid: string, typeName: string, component: UnityComponent?)

  /** The `PersistentGameObject` component that makes a game object a node. */
  class PersistentGameObject {
    const gameObject: GameObject
    var zuid: string
    var gozuid: string
    /** The serialized fields, as last restored. */
    var values: string
    var serializedComponents: seq<SerializedComponent>

    /** `AddComponent<PersistentGameObject>()` on `owner`. */
    constructor (owner: GameObject)
      ensures gameObject == owner && zuid == "" && gozuid == "" && values == ""
      ensures serializedComponents == []
    {
      gameObject := owner;
      zuid := "";
      gozuid := "";
      values := "";
      serializedComponents := [];
    }
  }

  /** An engine component saved through its node, such as a rigid body. */
  class UnityComponent {
    const typeName: string
    const gameObject: GameObject
    var values: string

    /** `AddComponent(type)` on `owner`. */
    constructor (typeName: string, owner: GameObject)
      ensures this.typeName == typeName && gameObject == owner && values == ""
    {
      this.typeName := typeName;
      gameObject := owner;
      values := "";
    }
  }
}
