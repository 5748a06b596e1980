/** The base class of every saveable behaviour: its save-group membership,
    its on/off switch and the flags a save raises while it runs. */
module PersistentMonoBehaviours {
  import opened PersistentGameObjects

  class PersistentMonoBehaviour {
    /** The concrete behaviour type. */
    const typeName: string
    /** Number of base-type steps from the concrete type up to
        `PersistentMonoBehaviour` (0 for the base class itself). */
    const inheritanceDepth: nat
    const gameObject: GameObject

    var showSettings: bool
    var isOn: bool
    var groupID: int
    var autoSync: bool

    /** The fields above are those `PersistentMonoBehaviour.cs` declares.
        The ones below are what the runtime reaches through `IZSerialize`:
        the ids (Scripts/Runtime/ZSerialize.cs:424-425, 640-641), the
        saving and loading flags (:648, :815) and the restored values.
        First, the identity of the behaviour and of its game object. */
    var zuid: string
    var gozuid: string
    var isSaving: bool
    var isLoading: bool
    /** The serialized fields, as last restored. */
    var values: string

    /** `AddComponent` of a behaviour type: field initialisers apply, so
        `autoSync` starts on and everything else off or zero. */
    constructor (typeName: string, inheritanceDepth: nat, owner: GameObject)
      ensures this.typeName == typeName && this.inheritanceDepth == inheritanceDepth
      ensures gameObject == owner
      ensures !showSettings && !isOn && groupID == 0 && autoSync
      ensures zuid == "" && gozuid == "" && !isSaving && !isLoading && values == ""
    {
      this.typeName := typeName;
      this.inheritanceDepth := inheritanceDepth;
      gameObject := owner;
      showSettings := false;
      isOn := false;
      groupID := 0;
      autoSync := true;
      zuid := "";
      gozuid := "";
      isSaving := false;
      isLoading := false;
      values := "";
    }

    /** The `GroupID` setter. */
    method SetGroupID(value: int)
      modifies `groupID
      ensures groupID == value
    {
      groupID := value;
    }

    /** The `AutoSync` setter. */
    method SetAutoSync(value: bool)
      modifies `autoSync
      ensures autoSync == value
    {
      autoSync := value;
    }

    /** `Reset`: the switch takes the default the settings give this type;
        `defaultOn` stands for that settings lookup. */
    method Reset(defaultOn: string -> bool)
      modifies `isOn
      ensures isOn == defaultOn(typeName)
    {
      isOn := defaultOn(typeName);
    }

    /** Hooks a behaviour may override; the base class does nothing. */
    method OnPreSave() {}
    method OnPostSave() {}
    method OnPreLoad() {}
    method OnPostLoad() {}
  }
}
