/** The save side of a group: which behaviours a group save takes, the set-up
    check made before anything is written, and the flags raised around the
    save. */
module Save {
  import opened Seqs
  import opened PersistentMonoBehaviours

  /** `ShouldBeSerialized`: a live behaviour that is switched on, in the
      current group or in any group while every group is being saved (-1). */
  predicate ShouldBeSerialized(s: PersistentMonoBehaviour?, currentGroupID: int): (r: bool)
    reads s
    // Only a live behaviour that is switched on is taken ...
    ensures r ==> s != null && s.isOn
    // ... and it is taken when it is in the current group.
    ensures s != null && s.isOn && s.groupID == currentGroupID ==> r
    // A single group takes nothing from another group.
    ensures r && currentGroupID != -1 ==> s.groupID == currentGroupID
  {
    s != null && (s.groupID == currentGroupID || currentGroupID == -1) && s.isOn
  }

  /** Saving every group takes every live behaviour that is switched on. */
  lemma AllGroupsTakesEveryOnBehaviour(s: PersistentMonoBehaviour?)
    ensures ShouldBeSerialized(s, -1) <==> s != null && s.isOn
  {
  }

  /** A single group takes only its own behaviours, so two different groups
      never both take the same behaviour. */
  lemma GroupsAreDisjoint(s: PersistentMonoBehaviour?, g1: int, g2: int)
    requires g1 != -1 && g2 != -1 && g1 != g2
    ensures ShouldBeSerialized(s, g1) ==> s.groupID == g1 && !ShouldBeSerialized(s, g2)
  {
  }

  /** `Distinct()`: every value of the list, each once. */
  function DistinctIDs(ids: seq<int>): (r: seq<int>)
    ensures Distinct(r)
    ensures forall x :: x in r <==> x in ids
  {
    if |ids| == 0 then []
    else
      var n := |ids| - 1;
      var front := DistinctIDs(ids[..n]);
      assert forall x :: x in ids <==> x in ids[..n] || x == ids[n] by {
        assert ids == ids[..n] + [ids[n]];
      }
      if ids[n] in front then front else front + [ids[n]]
  }

  /** When every group is saved, the group list is the distinct group ids of
      the scene, and a behaviour that is switched on is taken by exactly one
      of the group saves (provided no group id is -1). */
  lemma EveryOnBehaviourSavedOnce(s: PersistentMonoBehaviour, sceneIDs: seq<int>)
    requires s.groupID in sceneIDs && s.isOn
    requires -1 !in sceneIDs
    ensures exists i :: 0 <= i < |DistinctIDs(sceneIDs)| && ShouldBeSerialized(s, DistinctIDs(sceneIDs)[i])
    ensures forall i, j ::
      (0 <= i < |DistinctIDs(sceneIDs)| && 0 <= j < |DistinctIDs(sceneIDs)|
       && ShouldBeSerialized(s, DistinctIDs(sceneIDs)[i]) && ShouldBeSerialized(s, DistinctIDs(sceneIDs)[j])) ==> i == j
  {
    var idList := DistinctIDs(sceneIDs);
    assert s.groupID in idList;
    var k := IndexOf(idList, s.groupID);
    assert ShouldBeSerialized(s, idList[k]);
  }

  /** The behaviours a group save takes from the scene, in scene order. */
  function Selected(scene: seq<PersistentMonoBehaviour>, currentGroupID: int): (r: seq<PersistentMonoBehaviour>)
    reads set b | b in scene
    ensures forall i :: 0 <= i < |r| ==> r[i] in scene && ShouldBeSerialized(r[i], currentGroupID)
    ensures forall j :: 0 <= j < |scene| && ShouldBeSerialized(scene[j], currentGroupID) ==> scene[j] in r
  {
    if |scene| == 0 then []
    else
      var n := |scene| - 1;
      var front := Selected(scene[..n], currentGroupID);
      assert forall j :: 0 <= j < n ==> scene[..n][j] == scene[j];
      if ShouldBeSerialized(scene[n], currentGroupID) then front + [scene[n]] else front
  }

  /** A behaviour has been set up with both of its ids. */
  predicate HasIds(b: PersistentMonoBehaviour)
    reads b
  {
    b.zuid != "" && b.gozuid != ""
  }

  /** The number of selected behaviours before the first one without ids. */
  function SetUpPrefix(selected: seq<PersistentMonoBehaviour>): (k: nat)
    reads set b | b in selected
    ensures k <= |selected|
    ensures forall j :: 0 <= j < k ==> HasIds(selected[j])
    ensures k < |selected| ==> !HasIds(selected[k])
  {
    if |selected| == 0 || !HasIds(selected[0]) then 0
    else 1 + SetUpPrefix(selected[1..])
  }

  /** Every field of the behaviour but `isSaving` is as it was. */
  twostate predicate OnlySavingChanged(b: PersistentMonoBehaviour)
    reads b
  {
    && b.isOn == old(b.isOn) && b.groupID == old(b.groupID) && b.autoSync == old(b.autoSync)
    && b.zuid == old(b.zuid) && b.gozuid == old(b.gozuid)
    && b.isLoading == old(b.isLoading) && b.showSettings == old(b.showSettings)
    && b.values == old(b.values)
  }

  /** `OnPreSave` followed by raising the saving flag. */
  method MarkSaving(b: PersistentMonoBehaviour)
    modifies b
    ensures b.isSaving && OnlySavingChanged(b)
  {
    b.OnPreSave();
    b.isSaving := true;
  }

  /** The pre-save loop of `SaveAll` for one group: each selected behaviour
      is checked for ids, then gets `OnPreSave` and is marked as saving. The
      first one without a ZUID or a GOZUID ends the save with a
      `SerializationException`; it and the ones after it are left alone. */
  method PrepareGroupForSave(scene: seq<PersistentMonoBehaviour>, currentGroupID: int)
    returns (ok: bool, selected: seq<PersistentMonoBehaviour>)
    modifies set b | b in scene
    ensures selected == old(Selected(scene, currentGroupID))
    ensures ok <==> old(SetUpPrefix(selected)) == |selected|
    ensures forall b :: b in scene ==>
      b.isSaving == (b in selected[..old(SetUpPrefix(selected))] || old(b.isSaving))
    ensures forall b :: b in scene ==> OnlySavingChanged(b)
  {
    selected := Selected(scene, currentGroupID);
    ok := MarkSelected(selected);
  }

  /** The loop itself, over the selected behaviours. */
  method MarkSelected(selected: seq<PersistentMonoBehaviour>) returns (ok: bool)
    modifies set b | b in selected
    ensures ok <==> old(SetUpPrefix(selected)) == |selected|
    ensures forall b :: b in selected ==>
      b.isSaving == (b in selected[..old(SetUpPrefix(selected))] || old(b.isSaving))
    ensures forall b :: b in selected ==> OnlySavingChanged(b)
  {
    ghost var k := SetUpPrefix(selected);
    ghost var marked: set<PersistentMonoBehaviour> := {};
    var i := 0;
    ok := true;
    while i < |selected|
      invariant 0 <= i <= k && k == old(SetUpPrefix(selected))
      invariant marked == set j | 0 <= j < i :: selected[j]
      invariant forall b :: b in selected ==> b.isSaving == (b in marked || old(b.isSaving)) && OnlySavingChanged(b)
    {
      var b := selected[i];
      if b.zuid == "" || b.gozuid == "" {
        ok := false;
        break;
      }
      MarkSaving(b);
      marked := marked + {b};
      i := i + 1;
    }
    assert forall b :: b in selected[..k] <==> b in marked;
  }

  /** Lowering the saving flag followed by `OnPostSave`. */
  method UnmarkSaving(b: PersistentMonoBehaviour)
    modifies b
    ensures !b.isSaving && OnlySavingChanged(b)
  {
    b.isSaving := false;
    b.OnPostSave();
  }

  /** The post-save loop of `SaveAll` for one group: every selected behaviour
      has its saving flag lowered and gets `OnPostSave`. */
  method FinishGroupSave(selected: seq<PersistentMonoBehaviour>)
    modifies set b | b in selected
    ensures forall b :: b in selected ==> !b.isSaving && OnlySavingChanged(b)
  {
    ghost var done: set<PersistentMonoBehaviour> := {};
    var i := 0;
    while i < |selected|
      invariant 0 <= i <= |selected|
      invariant done == set j | 0 <= j < i :: selected[j]
      invariant forall b :: b in selected ==> (b in done ==> !b.isSaving) && OnlySavingChanged(b)
    {
      UnmarkSaving(selected[i]);
      done := done + {selected[i]};
      i := i + 1;
    }
    assert forall b :: b in selected ==> b in done;
  }
}
