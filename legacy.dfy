/** The older save front end (`ZSave`): a table from the instance id each
    object had when the scene was saved to the id its live counterpart has
    now, and the rewriting of every save file when an object had to be
    rebuilt under a new instance id. */
module Legacy {
  import opened Seqs
  import opened Strings
  import opened PersistentGameObjects

  /** The table after every value equal to `prevID` is changed to `newID`. */
  function Retargeted(m: map<int, int>, prevID: int, newID: int): map<int, int> {
    map k | k in m :: if m[k] == prevID then newID else m[k]
  }

  /** Retargeting an id to itself changes nothing. */
  lemma RetargetSame(m: map<int, int>, id: int)
    ensures Retargeted(m, id, id) == m
  {
  }

  /** Once `prevID` is retargeted to a different id, no key refers to it. */
  lemma RetargetForgetsPrevious(m: map<int, int>, prevID: int, newID: int)
    requires prevID != newID
    ensures prevID !in Retargeted(m, prevID, newID).Values
  {
  }

  /** An object rebuilt twice: when the intermediate id was not in use, the
      keys that referred to the first id end up referring to the last. */
  lemma RetargetChain(m: map<int, int>, a: int, b: int, c: int)
    requires b !in m.Values
    ensures Retargeted(Retargeted(m, a, b), b, c) == Retargeted(m, a, c)
  {
    var l := Retargeted(Retargeted(m, a, b), b, c);
    var r := Retargeted(m, a, c);
    forall k | k in m
      ensures l[k] == r[k]
    {
      assert m[k] in m.Values;
    }
  }

  /** `String.Replace` of each `previousFields[i]` by `newFields[i]`, in array
      order, each step applied to the result of the previous one. */
  function ReplaceInOrder(s: string, previousFields: seq<string>, newFields: seq<string>): (r: string)
    requires |previousFields| <= |newFields|
    requires forall i :: 0 <= i < |previousFields| ==> |previousFields[i]| > 0
    // Replacing every pattern by itself leaves the text as it was.
    ensures previousFields == newFields[..|previousFields|] ==> r == s
    decreases |previousFields|
  {
    if |previousFields| == 0 then s
    else
      var n := |previousFields| - 1;
      var front := ReplaceInOrder(s, previousFields[..n], newFields);
      assert previousFields == newFields[..|previousFields|] ==> previousFields[..n] == newFields[..n];
      ReplaceAllSame(front, previousFields[n]);
      ReplaceAll(front, previousFields[n], newFields[n])
  }

  /** A last pair that replaces a pattern by itself adds nothing. */
  lemma ReplaceInOrderDropSameLast(s: string, previousFields: seq<string>, newFields: seq<string>)
    requires 0 < |previousFields| <= |newFields|
    requires forall i :: 0 <= i < |previousFields| ==> |previousFields[i]| > 0
    requires previousFields[|previousFields| - 1] == newFields[|previousFields| - 1]
    ensures ReplaceInOrder(s, previousFields, newFields)
         == ReplaceInOrder(s, previousFields[..|previousFields| - 1], newFields)
  {
    var n := |previousFields| - 1;
    ReplaceAllSame(ReplaceInOrder(s, previousFields[..n], newFields), previousFields[n]);
  }

  /** The owner of a component, if any, as a set for frames. */
  function OwnerSet(owner: GameObject?): set<GameObject> {
    if owner == null then {} else {owner}
  }

  /** The files `Directory.GetFiles(dir, "*.save", AllDirectories)` lists. */
  predicate IsSaveFile(name: string) {
    EndsWith(name, ".save")
  }

  /** Every save file with the replacements applied; other files as they were. */
  function RewriteFiles(files: map<string, string>, previousFields: seq<string>, newFields: seq<string>): map<string, string>
    requires |previousFields| <= |newFields|
    requires forall i :: 0 <= i < |previousFields| ==> |previousFields[i]| > 0
  {
    map f | f in files :: if IsSaveFile(f) then ReplaceInOrder(files[f], previousFields, newFields) else files[f]
  }

  /** Rewriting with identical pattern lists leaves every file as it was. */
  lemma RewriteFilesIdentity(files: map<string, string>, fields: seq<string>)
    requires forall i :: 0 <= i < |fields| ==> |fields[i]| > 0
    ensures RewriteFiles(files, fields, fields) == files
  {
    forall f | f in files
      ensures RewriteFiles(files, fields, fields)[f] == files[f]
    {
      assert fields == fields[..|fields|];
    }
  }

  /** The two ways a component reference to `id` is written in a save file. */
  function ComponentPatterns(id: int): (r: seq<string>)
    ensures |r| == 2 && |r[0]| > 0 && |r[1]| > 0
  {
    ["instanceID\":" + IntToString(id), "m_FileID\":" + IntToString(id)]
  }

  /** The five ways a reference to game object `prevID` is searched for. */
  function GameObjectPatterns(prevID: int): (r: seq<string>)
    ensures |r| == 5 && forall i :: 0 <= i < 5 ==> |r[i]| > 0
  {
    var p := IntToString(prevID);
    ["\"gameObjectInstanceID\":" + p,
     "\"_componentParent\":{\"instanceID\":" + p + "}",
     "\"parent\":{\"instanceID\":" + p + "}",
     "\"_componentParent\":{\"m_FileID\":" + p,
     "\"parent\":{\"m_FileID\":" + p]
  }

  /** What each of the five patterns is replaced by. The last one is built
      from the previous id, as `ZSave` builds it. */
  function GameObjectReplacements(prevID: int, newID: int): (r: seq<string>)
    ensures |r| == 5
  {
    var n := IntToString(newID);
    ["\"gameObjectInstanceID\":" + n,
     "\"_componentParent\":{\"instanceID\":" + n + "}",
     "\"parent\":{\"instanceID\":" + n + "}",
     "\"_componentParent\":{\"m_FileID\":" + n,
     "\"parent\":{\"m_FileID\":" + IntToString(prevID)]
  }

  /** The parent `m_FileID` pair replaces the reference by itself, so a
      game object rewrite never touches parent file-id references: it is
      the same as rewriting with the first four pairs alone. */
  lemma ParentFileIDNotRewritten(s: string, prevID: int, newID: int)
    ensures ReplaceInOrder(s, GameObjectPatterns(prevID), GameObjectReplacements(prevID, newID))
         == ReplaceInOrder(s, GameObjectPatterns(prevID)[..4], GameObjectReplacements(prevID, newID))
  {
    ReplaceInOrderDropSameLast(s, GameObjectPatterns(prevID), GameObjectReplacements(prevID, newID));
  }

  /** With the same old and new id, both rewrites leave every file as it was. */
  lemma SameIdRewritesNothing(files: map<string, string>, id: int)
    ensures RewriteFiles(files, GameObjectPatterns(id), GameObjectReplacements(id, id)) == files
    ensures RewriteFiles(files, ComponentPatterns(id), ComponentPatterns(id)) == files
  {
    assert GameObjectReplacements(id, id) == GameObjectPatterns(id);
    RewriteFilesIdentity(files, GameObjectPatterns(id));
    RewriteFilesIdentity(files, ComponentPatterns(id));
  }

  /** One restore step for key `k` whose table value is `v`: references to
      `v` become references to `k`, game object patterns first. */
  function RestoreStep(files: map<string, string>, k: int, v: int): map<string, string> {
    RewriteFiles(RewriteFiles(files, GameObjectPatterns(v), GameObjectReplacements(v, k)),
                 ComponentPatterns(v), ComponentPatterns(k))
  }

  /** The files after restore steps for `ks`, in order. */
  function Restored(files: map<string, string>, ks: seq<int>, m: map<int, int>): map<string, string>
    requires forall k :: k in ks ==> k in m
    decreases |ks|
  {
    if |ks| == 0 then files
    else
      var n := |ks| - 1;
      RestoreStep(Restored(files, ks[..n], m), ks[n], m[ks[n]])
  }

  /** When no object was rebuilt, every key maps to itself and restoring
      leaves the save files as they were. */
  lemma {:induction false} RestoreWithoutRebuildsIsIdentity(files: map<string, string>, ks: seq<int>, m: map<int, int>)
    requires forall k :: k in ks ==> k in m && m[k] == k
    ensures Restored(files, ks, m) == files
    decreases |ks|
  {
    if |ks| > 0 {
      var n := |ks| - 1;
      assert forall k :: k in ks[..n] ==> k in ks;
      RestoreWithoutRebuildsIsIdentity(files, ks[..n], m);
      assert ks[n] in ks;
      SameIdRewritesNothing(files, ks[n]);
      SameIdRewritesNothing(RewriteFiles(files, GameObjectPatterns(ks[n]), GameObjectReplacements(ks[n], ks[n])), ks[n]);
    }
  }

  /** How the older `LoadObjectsDynamically` ended for one record. */
  datatype LegacyLoad =
    | OwnerDestroyed     // neither the component nor its game object exists: nothing is added
    | ComponentNotAdded  // the engine returned no component
    | MissingParent      // a node record with its component but no game object: the transform write fails
    | Loaded

  /** The static state of `ZSave`: the id table, with its keys in insertion
      order, and the save files it rewrites, by name. */
  class ZSave {
    var keys: seq<int>
    var idStorage: map<int, int>
    var files: map<string, string>

    ghost predicate Valid()
      reads this
    {
      && Distinct(keys)
      && (forall k :: k in idStorage ==> k in keys)
      && (forall j :: 0 <= j < |keys| ==> keys[j] in idStorage)
    }

    constructor (files: map<string, string>)
      ensures Valid() && keys == [] && idStorage == map[] && this.files == files
    {
      keys := [];
      idStorage := map[];
      this.files := files;
    }

    /** `RecordAllPersistentIDs`: each id of `ids` (the node game objects,
        then the serialized components) is added mapping to itself;
        `Dictionary.Add` throws on the first id already present, leaving the
        ids before it added. */
    method RecordAllPersistentIDs(ids: seq<int>) returns (ok: bool)
      requires Valid()
      modifies this`keys, this`idStorage
      ensures Valid()
      ensures ok <==> Distinct(old(keys) + ids)
      ensures exists n :: 0 <= n <= |ids| && keys == old(keys) + ids[..n] && (n < |ids| ==> ids[n] in keys)
      ensures forall k :: k in idStorage ==> idStorage[k] == (if k in old(idStorage) then old(idStorage)[k] else k)
      ensures ok ==> forall id :: id in ids ==> id in idStorage && idStorage[id] == id
    {
      var i := 0;
      while i < |ids|
        invariant 0 <= i <= |ids|
        invariant keys == old(keys) + ids[..i]
        invariant Valid()
        invariant forall k :: k in idStorage ==> idStorage[k] == (if k in old(idStorage) then old(idStorage)[k] else k)
        invariant forall k :: k in ids[..i] ==> k !in old(idStorage)
      {
        if ids[i] in idStorage {
          ok := false;
          var j := IndexOf(keys, ids[i]);
          var s := old(keys) + ids;
          assert s[j] == ids[i] == s[|old(keys)| + i] && j < |old(keys)| + i;
          return;
        }
        assert ids[..i + 1] == ids[..i] + [ids[i]];
        assert ids[i] !in idStorage;
        assert ids[i] !in keys;
        idStorage := idStorage[ids[i] := ids[i]];
        keys := keys + [ids[i]];
        assert forall j :: 0 <= j < |keys| - 1 ==> keys[j] != keys[|keys| - 1];
        i := i + 1;
      }
      assert ids[..i] == ids;
      forall id | id in ids
        ensures id in idStorage
      {
        var j :| 0 <= j < |ids| && ids[j] == id;
        assert keys[|old(keys)| + j] == id;
      }
      ok := true;
    }

    /** `RecordTempID`: every key whose value is `prevID` now maps to `newID`. */
    method RecordTempID(prevID: int, newID: int)
      requires Valid()
      modifies this`idStorage
      ensures Valid()
      ensures idStorage == Retargeted(old(idStorage), prevID, newID)
    {
      var i := 0;
      while i < |keys|
        invariant 0 <= i <= |keys|
        invariant idStorage.Keys == old(idStorage).Keys
        invariant Valid()
        invariant forall j :: 0 <= j < |keys| ==> keys[j] in idStorage && keys[j] in old(idStorage)
        invariant forall j :: 0 <= j < |keys| ==>
          idStorage[keys[j]] == (if j < i && old(idStorage)[keys[j]] == prevID then newID else old(idStorage)[keys[j]])
      {
        if idStorage[keys[i]] == prevID {
          idStorage := idStorage[keys[i] := newID];
        }
        i := i + 1;
      }
      forall k | k in idStorage
        ensures idStorage[k] == Retargeted(old(idStorage), prevID, newID)[k]
      {
        var j := IndexOf(keys, k);
      }
    }

    /** `UpdateAllJSONFiles`: every save file is rewritten with the
        replacements applied in order. */
    method UpdateAllJSONFiles(previousFields: seq<string>, newFields: seq<string>)
      requires |previousFields| <= |newFields|
      requires forall i :: 0 <= i < |previousFields| ==> |previousFields[i]| > 0
      modifies this`files
      ensures files == RewriteFiles(old(files), previousFields, newFields)
    {
      var todo := files.Keys;
      while todo != {}
        invariant todo <= files.Keys == old(files).Keys
        invariant forall f :: f in files ==>
          files[f] == (if f in todo || !IsSaveFile(f) then old(files)[f] else ReplaceInOrder(old(files)[f], previousFields, newFields))
        decreases |todo|
      {
        var f :| f in todo;
        if IsSaveFile(f) {
          var newJson := ApplyReplacements(files[f], previousFields, newFields);
          files := files[f := newJson];
        }
        todo := todo - {f};
      }
    }

    /** `UpdateComponentInstanceIDs`: outside a restore the table follows the
        component to its new id; component references in every save file
        are rewritten. */
    method UpdateComponentInstanceIDs(prevID: int, newID: int, isRestoring: bool)
      requires Valid()
      modifies this`idStorage, this`files
      ensures Valid() && keys == old(keys)
      ensures idStorage == if isRestoring then old(idStorage) else Retargeted(old(idStorage), prevID, newID)
      ensures files == RewriteFiles(old(files), ComponentPatterns(prevID), ComponentPatterns(newID))
    {
      if !isRestoring {
        RecordTempID(prevID, newID);
      }
      UpdateAllJSONFiles(ComponentPatterns(prevID), ComponentPatterns(newID));
    }

    /** `UpdateGameObjectInstanceIDs`: outside a restore the table follows the
        game object to its new id; game object references in every save file
        are rewritten. */
    method UpdateGameObjectInstanceIDs(prevID: int, newID: int, isRestoring: bool)
      requires Valid()
      modifies this`idStorage, this`files
      ensures Valid() && keys == old(keys)
      ensures idStorage == if isRestoring then old(idStorage) else Retargeted(old(idStorage), prevID, newID)
      ensures files == RewriteFiles(old(files), GameObjectPatterns(prevID), GameObjectReplacements(prevID, newID))
    {
      if !isRestoring {
        RecordTempID(prevID, newID);
      }
      UpdateAllJSONFiles(GameObjectPatterns(prevID), GameObjectReplacements(prevID, newID));
    }

    /** `RestoreTempIDs`: for each key in order, references to its current id
        are rewritten back to the key; the table itself is not changed. */
    method RestoreTempIDs()
      requires Valid()
      modifies this`idStorage, this`files
      ensures Valid() && keys == old(keys) && idStorage == old(idStorage)
      ensures files == Restored(old(files), keys, idStorage)
    {
      var i := 0;
      while i < |keys|
        invariant 0 <= i <= |keys|
        invariant Valid() && keys == old(keys) && idStorage == old(idStorage)
        invariant files == Restored(old(files), keys[..i], idStorage)
      {
        assert keys[..i + 1][..i] == keys[..i];
        var k := keys[i];
        UpdateGameObjectInstanceIDs(idStorage[k], k, true);
        UpdateComponentInstanceIDs(idStorage[k], k, true);
        i := i + 1;
      }
      assert keys[..i] == keys;
    }

    /** The older `LoadObjectsDynamically` for one record. `componentParent`
        and `componentPresent` are what the record's `_componentParent` and
        `_component` fields resolved to; `found` is what looking the owner up
        by its saved instance id gives; `componentAdded` is whether the engine
        returns a component when asked for one; `newGameObjectID` and
        `newComponentID` are the instance ids the engine gives to objects
        created here. */
    method LoadObjectsDynamically(isNode: bool, data: GameObjectData,
                                  componentParent: GameObject?, found: GameObject?, componentPresent: bool,
                                  componentInstanceID: int, gameObjectInstanceID: int,
                                  componentAdded: bool, newGameObjectID: int, newComponentID: int)
      returns (outcome: LegacyLoad, gameObject: GameObject?)
      requires Valid()
      modifies this`idStorage, this`files
      // Of the owner, only its transform is written.
      modifies OwnerSet(componentParent)`position, OwnerSet(componentParent)`rotation,
               OwnerSet(componentParent)`localScale
      ensures Valid() && keys == old(keys)
      ensures outcome == OwnerDestroyed <==>
        !componentPresent && !isNode && componentParent == null && found == null
      ensures outcome == OwnerDestroyed ==> idStorage == old(idStorage) && files == old(files)
      ensures outcome == MissingParent <==> componentPresent && isNode && componentParent == null
      ensures outcome == ComponentNotAdded <==>
        !componentPresent && !componentAdded && (componentParent != null || (!isNode && found != null))
      ensures componentPresent && !(isNode && componentParent == null) ==> outcome == Loaded
      ensures componentPresent ==> idStorage == old(idStorage) && files == old(files)
      ensures !isNode ==> gameObject == (if componentParent == null then found else componentParent)
      ensures componentParent != null ==> gameObject == componentParent
      ensures isNode && componentParent == null && !componentPresent ==>
        outcome == Loaded && gameObject != null && fresh(gameObject) &&
        BuiltFrom(gameObject, data) &&
        idStorage == Retargeted(Retargeted(old(idStorage), gameObjectInstanceID, newGameObjectID),
                                componentInstanceID, newComponentID) &&
        files == RewriteFiles(RewriteFiles(old(files), GameObjectPatterns(gameObjectInstanceID),
                                           GameObjectReplacements(gameObjectInstanceID, newGameObjectID)),
                              ComponentPatterns(componentInstanceID), ComponentPatterns(newComponentID))
      ensures !componentPresent && (componentParent != null || (!isNode && found != null)) ==>
        (outcome == Loaded <==> componentAdded) &&
        idStorage == (if componentAdded then Retargeted(old(idStorage), componentInstanceID, newComponentID)
                      else old(idStorage)) &&
        files == (if componentAdded
                  then RewriteFiles(old(files), ComponentPatterns(componentInstanceID), ComponentPatterns(newComponentID))
                  else old(files))
      ensures outcome == Loaded && isNode ==>
        gameObject != null && gameObject.position == data.position &&
        gameObject.rotation == data.rotation && gameObject.localScale == data.size
    {
      gameObject := componentParent;
      if !isNode && gameObject == null {
        gameObject := found;
      }
      if !componentPresent {
        if gameObject == null {
          if !isNode {
            return OwnerDestroyed, gameObject;
          }
          gameObject := LoadDestroyedGameObject(gameObjectInstanceID, data, newGameObjectID);
          UpdateComponentInstanceIDs(componentInstanceID, newComponentID, false);
        } else {
          if !componentAdded {
            return ComponentNotAdded, gameObject;
          }
          UpdateComponentInstanceIDs(componentInstanceID, newComponentID, false);
        }
      }
      if isNode {
        if gameObject == null {
          return MissingParent, gameObject;
        }
        gameObject.position := data.position;
        gameObject.rotation := data.rotation;
        gameObject.localScale := data.size;
      }
      outcome := Loaded;
    }

    /** `LoadDestroyedGameObject`: the game object is rebuilt from its data,
        receives its node component (`newID` is the instance id the engine
        gives it) and references to its old id are rewritten. */
    method LoadDestroyedGameObject(gameObjectInstanceID: int, data: GameObjectData, newID: int)
      returns (gameObject: GameObject)
      requires Valid()
      modifies this`idStorage, this`files
      ensures Valid() && keys == old(keys)
      ensures fresh(gameObject) && BuiltFrom(gameObject, data)
      ensures idStorage == Retargeted(old(idStorage), gameObjectInstanceID, newID)
      ensures files == RewriteFiles(old(files), GameObjectPatterns(gameObjectInstanceID),
                                    GameObjectReplacements(gameObjectInstanceID, newID))
    {
      gameObject := MakePerfectlyValidGameObject(data);
      var node := new PersistentGameObject(gameObject);
      UpdateGameObjectInstanceIDs(gameObjectInstanceID, newID, false);
    }
  }

  /** The inner loop of `UpdateAllJSONFiles`: the replacements applied to
      one file's text, in order. */
  method ApplyReplacements(json: string, previousFields: seq<string>, newFields: seq<string>)
    returns (newJson: string)
    requires |previousFields| <= |newFields|
    requires forall i :: 0 <= i < |previousFields| ==> |previousFields[i]| > 0
    ensures newJson == ReplaceInOrder(json, previousFields, newFields)
  {
    newJson := json;
    for i := 0 to |previousFields|
      invariant newJson == ReplaceInOrder(json, previousFields[..i], newFields)
    {
      assert previousFields[..i + 1][..i] == previousFields[..i];
      newJson := ReplaceAll(newJson, previousFields[i], newFields[i]);
    }
    assert previousFields[..|previousFields|] == previousFields;
  }
}
