/** The editor of the older front end: its staleness check of a generated
    descriptor, the "Reset all Group IDs" button, and a group change made
    in a behaviour's settings. */
module SaverEditor {
  import opened Seqs
  import opened ClassStates
  import opened PersistentMonoBehaviours

  // ---------------------------------------------------------------------
  // Staleness of a generated descriptor

  /** A field of the type is expected in its descriptor: it does not carry
      `NonZSerialized`, or it is forced. */
  predicate LegacyFieldSelected(f: FieldInfo) {
    !f.nonZSerialized || f.forceZSerialized
  }

  /** The fields the descriptor should have: the type's public fields, then
      its base type's non-public ones, each filtered by the same rule. */
  function LegacyExpectedFields(t: ClassType): (r: seq<FieldInfo>)
    ensures forall f :: f in r <==> (f in t.publicFields || f in t.baseNonPublicFields) && LegacyFieldSelected(f)
    ensures |r| <= |t.publicFields| + |t.baseNonPublicFields|
  {
    Filter(t.publicFields, LegacyFieldSelected) + Filter(t.baseNonPublicFields, LegacyFieldSelected)
  }

  /** The older `GetClassState`: the descriptor is looked up as
      `<Name>ZSerializer` (the simple name); without one the class is
      `NotMade`, otherwise it is `Valid` exactly when its compared fields
      agree with the expected ones. */
  method GetClassState(t: ClassType, assembly: Assembly) returns (state: ClassState)
    ensures t.name + "ZSerializer" !in assembly <==> state == NotMade
    ensures t.name + "ZSerializer" in assembly ==>
      (state == Valid <==> SameFields(DescriptorFields(assembly[t.name + "ZSerializer"]), LegacyExpectedFields(t)))
  {
    var name := t.name + "ZSerializer";
    if name !in assembly {
      return NotMade;
    }
    state := CompareFieldLists(DescriptorFields(assembly[name]), LegacyExpectedFields(t));
  }

  // ---------------------------------------------------------------------
  // Group ids

  /** Nothing but the group id of `b` changed. */
  twostate predicate OnlyGroupIDChanged(b: PersistentMonoBehaviour)
    reads b
  {
    && b.isOn == old(b.isOn) && b.autoSync == old(b.autoSync)
    && b.zuid == old(b.zuid) && b.gozuid == old(b.gozuid)
    && b.isSaving == old(b.isSaving) && b.isLoading == old(b.isLoading)
    && b.showSettings == old(b.showSettings) && b.values == old(b.values)
  }

  /** The private `groupID` is reached by reflection: `GetField` on the
      concrete type finds it only when that type is
      `PersistentMonoBehaviour`, and on the base type only when the base
      type is. */
  predicate GroupIDReachable(b: PersistentMonoBehaviour) {
    b.inheritanceDepth <= 1
  }

  /** One behaviour of the reset loop. */
  method ResetGroupID(b: PersistentMonoBehaviour)
    modifies b
    ensures b.groupID == (if GroupIDReachable(b) then 0 else old(b.groupID))
    ensures OnlyGroupIDChanged(b)
  {
    if b.inheritanceDepth == 0 {
      b.groupID := 0;
    }
    if b.inheritanceDepth == 1 {
      b.groupID := 0;
    }
  }

  /** "Reset all Group IDs from Scene": every behaviour whose `groupID` the
      reflection lookups reach is put back in group 0; nothing else
      changes. */
  method ResetAllGroupIDs(scene: seq<PersistentMonoBehaviour>)
    modifies set b | b in scene
    ensures forall b :: b in scene ==>
      b.groupID == (if GroupIDReachable(b) then 0 else old(b.groupID)) && OnlyGroupIDChanged(b)
  {
    for i := 0 to |scene|
      invariant forall b :: b in scene ==>
        b.groupID == (if GroupIDReachable(b) && b in scene[..i] then 0 else old(b.groupID))
        && OnlyGroupIDChanged(b)
    {
      assert scene[..i + 1] == scene[..i] + [scene[i]];
      ResetGroupID(scene[i]);
    }
    assert scene[..|scene|] == scene;
  }

  /** A behaviour the auto-sync loop stops at: it has the edited type and
      auto-sync on, but its base type is not `PersistentMonoBehaviour`, so
      the `groupID` lookup gives null and setting it throws. */
  predicate Blocks(b: PersistentMonoBehaviour, typeName: string)
    reads b
  {
    b.typeName == typeName && b.autoSync && b.inheritanceDepth != 1
  }

  /** The number of behaviours the auto-sync loop gets through. */
  function SyncStop(scene: seq<PersistentMonoBehaviour>, typeName: string): (n: nat)
    reads set b | b in scene
    ensures n <= |scene|
    ensures forall j :: 0 <= j < n ==> !Blocks(scene[j], typeName)
    ensures n < |scene| ==> Blocks(scene[n], typeName)
    decreases |scene|
  {
    if |scene| == 0 then 0
    else if Blocks(scene[0], typeName) then 0
    else 1 + SyncStop(scene[1..], typeName)
  }

  /** Joins the edited behaviour's new group: has its type and auto-sync on. */
  predicate Synced(b: PersistentMonoBehaviour, typeName: string)
    reads b
  {
    b.typeName == typeName && b.autoSync
  }

  /** The group change of `ShowGroupIDSettings`, once the popup returned
      `newValue` for `data`. With auto-sync off only `data` moves; with it
      on, every behaviour of `scene` of the same type with auto-sync on
      moves, until one whose `groupID` cannot be reached stops the loop with
      an exception (`ok` false). An unchanged choice changes nothing. */
  method ChangeGroup(data: PersistentMonoBehaviour, scene: seq<PersistentMonoBehaviour>, newValue: int)
    returns (ok: bool)
    modifies {data} + set b | b in scene
    ensures forall b :: b in scene || b == data ==> OnlyGroupIDChanged(b)
    ensures newValue == old(data.groupID) ==>
      ok && data.groupID == old(data.groupID) && forall b :: b in scene ==> b.groupID == old(b.groupID)
    ensures newValue != old(data.groupID) && !old(data.autoSync) ==>
      ok && data.groupID == newValue && forall b :: b in scene && b != data ==> b.groupID == old(b.groupID)
    ensures newValue != old(data.groupID) && old(data.autoSync) ==>
      var n := old(SyncStop(scene, data.typeName));
      && (ok <==> n == |scene|)
      && (forall b :: b in scene ==>
            b.groupID == if b in scene[..n] && old(Synced(b, data.typeName)) then newValue else old(b.groupID))
      && (data !in scene ==> data.groupID == old(data.groupID))
  {
    ok := true;
    if newValue == data.groupID {
      return;
    }
    if !data.autoSync {
      data.groupID := newValue;
      return;
    }
    ok := SyncGroup(scene, data.typeName, newValue);
  }

  /** The auto-sync loop of `ShowGroupIDSettings`. */
  method SyncGroup(scene: seq<PersistentMonoBehaviour>, typeName: string, newValue: int) returns (ok: bool)
    modifies set b | b in scene
    ensures forall b :: b in scene ==> OnlyGroupIDChanged(b)
    ensures var n := old(SyncStop(scene, typeName));
      && (ok <==> n == |scene|)
      && forall b :: b in scene ==>
           b.groupID == if b in scene[..n] && old(Synced(b, typeName)) then newValue else old(b.groupID)
  {
    ghost var n := SyncStop(scene, typeName);
    var i := 0;
    while i < |scene|
      invariant 0 <= i <= n
      invariant forall b :: b in scene ==>
        b.groupID == (if b in scene[..i] && old(Synced(b, typeName)) then newValue else old(b.groupID))
        && OnlyGroupIDChanged(b)
    {
      var o := scene[i];
      assert scene[..i + 1] == scene[..i] + [o];
      if o.typeName == typeName && o.autoSync {
        if o.inheritanceDepth != 1 {
          assert i == n;
          return false;
        }
        o.groupID := newValue;
      }
      i := i + 1;
    }
    return true;
  }
}
