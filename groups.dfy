/** Save groups: the mapping between group names and ids, the directory a
    group's files are written to, and the reverse mapping from a save
    file's path to its group id. */
module Groups {
  import opened Wrappers
  import opened Seqs
  import opened Strings

  datatype GroupFault =
    /** A group id outside the list of save groups. */
    | GroupOutOfRange(id: int)
    /** A save file path with no parent directory. */
    | NoParentDirectory(path: string)

  /** `NameToSaveGroupID`: the first group with that name, or -1. */
  function NameToSaveGroupID(groups: seq<string>, name: string): (id: int)
    ensures id == -1 <==> name !in groups
    ensures 0 <= id ==> id < |groups| && groups[id] == name && name !in groups[..id]
  {
    IndexOf(groups, name)
  }

  /** `SaveGroupIDToName`: the list indexer, which throws outside the list. */
  function SaveGroupIDToName(groups: seq<string>, id: int): (r: Result<string, GroupFault>)
    ensures r.Success? <==> 0 <= id < |groups|
    ensures r.Failure? ==> r.error == GroupOutOfRange(id)
  {
    if 0 <= id < |groups| then Success(groups[id]) else Failure(GroupOutOfRange(id))
  }

  /** A group name maps to an id that maps back to the name. */
  lemma NameToIdToName(groups: seq<string>, name: string)
    requires name in groups
    ensures SaveGroupIDToName(groups, NameToSaveGroupID(groups, name)) == Success(name)
  {
  }

  /** An id whose group name does not occur earlier in the list maps to a
      name that maps back to the id; with duplicate names, a later id maps
      back to the first one. */
  lemma IdToNameToId(groups: seq<string>, id: int)
    requires 0 <= id < |groups|
    ensures groups[id] !in groups[..id] ==>
      NameToSaveGroupID(groups, SaveGroupIDToName(groups, id).value) == id
    ensures groups[id] in groups[..id] ==>
      NameToSaveGroupID(groups, SaveGroupIDToName(groups, id).value) < id
  {
    if groups[id] !in groups[..id] {
      IndexOfAt(groups, groups[id], id);
    } else {
      var k := IndexOf(groups[..id], groups[id]);
      assert groups[..id][..k] == groups[..k];
      IndexOfAt(groups, groups[id], k);
    }
  }

  const Separator := '/'
  const AltSeparator := '\\'

  /** `Path.Combine(a, b)` with `/` as the directory separator: an empty
      second part leaves the first, a rooted second part (or an empty first
      part) replaces the first, and a separator is inserted unless the first
      part already ends with one. */
  function Combine(a: string, b: string): (r: string)
    ensures EndsWith(r, b)
    ensures |a| > 0 && (|b| == 0 || b[0] != Separator) ==> StartsWith(r, a)
    ensures |a| > 0 && |b| > 0 && b[0] != Separator ==>
      r == a + b || r == a + [Separator] + b
  {
    if |b| == 0 then a
    else if |a| == 0 || b[0] == Separator then b
    else if a[|a| - 1] == Separator then a + b
    else a + [Separator] + b
  }

  /** Where the save system keeps its files: the persistent data path, the
      selected save slot, the current scene, the level being saved (if any),
      the save groups and the current group. */
  datatype Location = Location(
    persistentDataPath: string,
    selectedSaveFile: int,
    currentScene: string,
    currentLevelName: Option<string>,
    saveGroups: seq<string>,
    currentGroupID: int)

  /** The directory of the current scene inside the selected save slot. */
  function SceneDirectory(loc: Location): string {
    Combine(Combine(loc.persistentDataPath, "SaveFile-" + IntToString(loc.selectedSaveFile)), loc.currentScene)
  }

  /** `GetFilePath`: a global file sits in the scene directory; otherwise
      it sits in the `levels` directory while a level is being handled, and
      in the current group's directory otherwise, which faults when the
      current group is not a valid index. */
  function GetFilePath(loc: Location, fileName: string, useGlobalID: bool): (r: Result<string, GroupFault>)
    ensures r.Failure? <==>
      !useGlobalID && loc.currentLevelName.None? && !(0 <= loc.currentGroupID < |loc.saveGroups|)
    ensures r.Success? ==> EndsWith(r.value, fileName)
  {
    var scene := SceneDirectory(loc);
    if useGlobalID then Success(Combine(scene, fileName))
    else if loc.currentLevelName.Some? then Success(Combine(Combine(scene, "levels"), fileName))
    else if 0 <= loc.currentGroupID < |loc.saveGroups| then
      Success(Combine(Combine(scene, loc.saveGroups[loc.currentGroupID]), fileName))
    else Failure(GroupOutOfRange(loc.currentGroupID))
  }

  /** The second-to-last piece of a path, after turning `\` into `/`. */
  function ParentDirectoryName(path: string): Option<string> {
    var split := Split(ReplaceChar(path, AltSeparator, Separator), Separator);
    if |split| < 2 then None else Some(split[|split| - 2])
  }

  /** `GetIDList`: the group id of each save file, read off the name of its
      parent directory; the first path without one faults. */
  function GetIDList(files: seq<string>, groups: seq<string>): (r: Result<seq<int>, GroupFault>)
    ensures r.Success? <==> forall i :: 0 <= i < |files| ==> ParentDirectoryName(files[i]).Some?
    ensures r.Success? ==> |r.value| == |files| && forall i :: 0 <= i < |files| ==>
      r.value[i] == NameToSaveGroupID(groups, ParentDirectoryName(files[i]).value)
    ensures r.Failure? ==> exists i :: 0 <= i < |files| && r.error == NoParentDirectory(files[i])
  {
    if |files| == 0 then Success([])
    else
      var n := |files| - 1;
      match GetIDList(files[..n], groups)
      case Failure(e) => Failure(e)
      case Success(ids) =>
        match ParentDirectoryName(files[n])
        case None => Failure(NoParentDirectory(files[n]))
        case Some(name) => Success(ids + [NameToSaveGroupID(groups, name)])
  }

  /** A directory or file name with no separator in it. */
  predicate PlainName(s: string) {
    |s| > 0 && Separator !in s && AltSeparator !in s
  }

  /** A file written into a group's directory is read back as belonging to
      that group, when the group's name is a plain directory name that does
      not occur earlier in the list. */
  lemma GroupFileMapsBack(loc: Location, fileName: string)
    requires loc.currentLevelName.None? && 0 <= loc.currentGroupID < |loc.saveGroups|
    requires PlainName(loc.saveGroups[loc.currentGroupID]) && PlainName(fileName)
    requires loc.saveGroups[loc.currentGroupID] !in loc.saveGroups[..loc.currentGroupID]
    ensures GetFilePath(loc, fileName, false).Success?
    ensures GetIDList([GetFilePath(loc, fileName, false).value], loc.saveGroups) == Success([loc.currentGroupID])
  {
    var g := loc.saveGroups[loc.currentGroupID];
    var path := Combine(Combine(SceneDirectory(loc), g), fileName);
    assert GetFilePath(loc, fileName, false) == Success(path);
    ParentOfGroupFile(SceneDirectory(loc), g, fileName);
    IndexOfAt(loc.saveGroups, g, loc.currentGroupID);
    assert NameToSaveGroupID(loc.saveGroups, g) == loc.currentGroupID;
    assert [path][..0] == [];
    assert GetIDList([path], loc.saveGroups) == Success([] + [loc.currentGroupID]);
    assert [] + [loc.currentGroupID] == [loc.currentGroupID];
  }

  /** The parent directory of `Combine(Combine(dir, g), f)` is `g` for plain
      names `g` and `f`. */
  lemma ParentOfGroupFile(dir: string, g: string, f: string)
    requires PlainName(g) && PlainName(f)
    ensures ParentDirectoryName(Combine(Combine(dir, g), f)) == Some(g)
  {
    var q := Combine(dir, g);
    assert q[|q| - 1] == g[|g| - 1];
    assert Combine(q, f) == q + [Separator] + f;
    if |dir| == 0 {
      assert q == g;
      ParentOfPair(g, f);
    } else {
      var a := if dir[|dir| - 1] == Separator then dir[..|dir| - 1] else dir;
      assert q == a + [Separator] + g;
      ParentOfTriple(a, g, f);
    }
  }

  /** `g/f` has parent directory `g`. */
  lemma ParentOfPair(g: string, f: string)
    requires PlainName(g) && PlainName(f)
    ensures ParentDirectoryName(g + [Separator] + f) == Some(g)
  {
    var path := g + [Separator] + f;
    ReplaceCharAbsent(path, AltSeparator, Separator);
    SplitSnoc(g, f, Separator);
    assert Split(g, Separator) == [g];
  }

  /** `a/g/f` has parent directory `g`. */
  lemma ParentOfTriple(a: string, g: string, f: string)
    requires PlainName(g) && PlainName(f)
    ensures ParentDirectoryName(a + [Separator] + g + [Separator] + f) == Some(g)
  {
    var tail := [Separator] + g + [Separator] + f;
    ReplaceCharConcat(a, tail, AltSeparator, Separator);
    ReplaceCharAbsent(tail, AltSeparator, Separator);
    assert a + [Separator] + g + [Separator] + f == a + tail;
    var ra := ReplaceChar(a, AltSeparator, Separator);
    assert ra + tail == (ra + [Separator] + g) + [Separator] + f;
    SplitSnoc(ra + [Separator] + g, f, Separator);
    SplitSnoc(ra, g, Separator);
  }
}
