/** The editor helpers of the current front end: inspector labels, the
    field selection a descriptor is generated from, the staleness check of
    a generated descriptor, and the registry rebuild after a hierarchy edit. */
module SerializerEditor {
  import opened Wrappers
  import opened Seqs
  import opened ClassStates
  import opened PersistentGameObjects
  import opened Registry

  // ---------------------------------------------------------------------
  // Inspector names

  /** `Char.IsUpper`, for ASCII letters. */
  predicate IsUpper(c: char) {
    'A' <= c <= 'Z'
  }

  /** `Char.ToUpper`, for ASCII letters. */
  function ToUpper(c: char): (r: char)
    ensures 'a' <= c <= 'z' ==> IsUpper(r)
    ensures !('a' <= c <= 'z') ==> r == c
  {
    if 'a' <= c <= 'z' then (c as int - 32) as char else c
  }

  /** What one character after the first becomes in an inspector name. */
  function Piece(c: char): string {
    if IsUpper(c) then [' ', ToUpper(c)] else [c]
  }

  /** The inspector label of a field name, character by character: the first
      character upper-cased, a space before every later upper-case one. */
  function InspectorName(s: string): string
    decreases |s|
  {
    if |s| == 0 then ""
    else if |s| == 1 then [ToUpper(s[0])]
    else InspectorName(s[..|s| - 1]) + Piece(s[|s| - 1])
  }

  /** Upper-case characters after the first. */
  function LaterUppers(s: string): nat
    decreases |s|
  {
    if |s| <= 1 then 0
    else LaterUppers(s[..|s| - 1]) + (if IsUpper(s[|s| - 1]) then 1 else 0)
  }

  /** `FieldNameToInspectorName`: the label is built by appending to a list
      of characters. */
  method FieldNameToInspectorName(value: string) returns (r: string)
    ensures r == InspectorName(value)
  {
    var chars: seq<char> := [];
    for i := 0 to |value|
      invariant chars == InspectorName(value[..i])
    {
      assert value[..i + 1][..i] == value[..i];
      if i == 0 {
        chars := chars + [ToUpper(value[i])];
        continue;
      }
      if IsUpper(value[i]) {
        chars := chars + [' '];
        chars := chars + [ToUpper(value[i])];
      } else {
        chars := chars + [value[i]];
      }
    }
    assert value[..|value|] == value;
    r := chars;
  }

  /** An empty name gives an empty label. */
  lemma InspectorNameEmpty()
    ensures InspectorName("") == ""
  {
  }

  /** The label starts with the upper-cased first character. */
  lemma {:induction false} InspectorNameFirst(s: string)
    requires |s| > 0
    ensures |InspectorName(s)| > 0 && InspectorName(s)[0] == ToUpper(s[0])
    decreases |s|
  {
    if |s| > 1 {
      InspectorNameFirst(s[..|s| - 1]);
    }
  }

  /** One space is inserted per upper-case character after the first. */
  lemma {:induction false} InspectorNameLength(s: string)
    ensures |InspectorName(s)| == |s| + LaterUppers(s)
    decreases |s|
  {
    if |s| > 1 {
      InspectorNameLength(s[..|s| - 1]);
    }
  }

  /** The label of a prefix is a prefix of the label. */
  lemma {:induction false} InspectorNamePrefix(s: string, n: nat)
    requires n <= |s|
    ensures InspectorName(s[..n]) <= InspectorName(s)
    decreases |s| - n
  {
    if n < |s| {
      InspectorNamePrefix(s, n + 1);
      var t := s[..n + 1];
      assert t[..|t| - 1] == s[..n];
      if n == 0 {
        assert InspectorName(s[..n]) == "";
      }
    } else {
      assert s[..n] == s;
    }
  }

  /** Every character after the first appears in the label, in order, as
      itself or, when upper-case, behind one inserted space: its piece sits
      right after the label of the characters before it. */
  lemma InspectorNamePiece(s: string, i: nat)
    requires 1 <= i < |s|
    ensures var at := |InspectorName(s[..i])|;
      at + |Piece(s[i])| <= |InspectorName(s)|
      && InspectorName(s)[at..at + |Piece(s[i])|] == Piece(s[i])
  {
    InspectorNamePrefix(s, i + 1);
    var t := s[..i + 1];
    assert t[..|t| - 1] == s[..i];
    assert InspectorName(t) == InspectorName(s[..i]) + Piece(s[i]);
  }

  // ---------------------------------------------------------------------
  // Field selection

  /** A public field is selected: not marked `NonZSerialized` unless forced,
      of a serializable type that is not a dictionary. */
  predicate PublicFieldSelected(f: FieldInfo) {
    && (!f.nonZSerialized || f.forceZSerialized)
    && SerializableType(f.fieldType)
    && NotDictionary(f.fieldType)
  }

  /** A non-public field is selected: marked `SerializeField` and not
      `NonZSerialized`, of a serializable type that is not a dictionary. */
  predicate NonPublicFieldSelected(f: FieldInfo) {
    && f.serializeField
    && !f.nonZSerialized
    && SerializableType(f.fieldType)
    && NotDictionary(f.fieldType)
  }

  /** `GetFieldsThatShouldBeSerialized`: the selected public fields, then the
      selected non-public ones, each in declaration order. */
  function GetFieldsThatShouldBeSerialized(t: ClassType): (r: seq<FieldInfo>)
    ensures forall f :: f in r ==> NotDictionary(f.fieldType) && SerializableType(f.fieldType)
    ensures forall f :: f in r <==>
      (f in t.publicFields && PublicFieldSelected(f)) || (f in t.nonPublicFields && NonPublicFieldSelected(f))
  {
    Filter(t.publicFields, PublicFieldSelected) + Filter(t.nonPublicFields, NonPublicFieldSelected)
  }

  /** A selected field that is not public carries `SerializeField` and not
      `NonZSerialized`. */
  lemma NonPublicNeedsSerializeField(t: ClassType, f: FieldInfo)
    requires f in GetFieldsThatShouldBeSerialized(t) && f !in t.publicFields
    ensures f.serializeField && !f.nonZSerialized
  {
  }

  /** A dictionary-typed field is never selected. */
  lemma DictionariesNeverSelected(t: ClassType, f: FieldInfo)
    requires f.fieldType.isGeneric && f.fieldType.isDictionary
    ensures f !in GetFieldsThatShouldBeSerialized(t)
  {
  }

  // ---------------------------------------------------------------------
  // Staleness of a generated descriptor

  /** `GetClassState`: the descriptor is looked up as `<FullName>ZSerializer`;
      without one the class is `NotMade`, otherwise it is `Valid` exactly
      when its compared fields agree with the selected ones. */
  method GetClassState(t: ClassType, assembly: Assembly) returns (state: ClassState)
    ensures t.fullName + "ZSerializer" !in assembly <==> state == NotMade
    ensures t.fullName + "ZSerializer" in assembly ==>
      (state == Valid <==>
        SameFields(DescriptorFields(assembly[t.fullName + "ZSerializer"]), GetFieldsThatShouldBeSerialized(t)))
  {
    var name := t.fullName + "ZSerializer";
    if name !in assembly {
      return NotMade;
    }
    state := CompareFieldLists(DescriptorFields(assembly[name]), GetFieldsThatShouldBeSerialized(t));
  }

  /** A descriptor class freshly generated for `t` is up to date: when the
      assembly holds, under `<FullName>ZSerializer`, the fields generated
      from `GetFieldsThatShouldBeSerialized(t)` followed by the fields the
      descriptor inherits (`inherited`, all carrying `NonZSerialized`),
      its compared fields agree with the selected ones, so `GetClassState`
      returns `Valid`. */
  lemma GeneratedDescriptorIsValid(t: ClassType, assembly: Assembly, inherited: seq<FieldInfo>)
    requires forall i :: 0 <= i < |inherited| ==> inherited[i].nonZSerialized
    requires t.fullName + "ZSerializer" in assembly
    requires assembly[t.fullName + "ZSerializer"] == DeclaredFields(GetFieldsThatShouldBeSerialized(t)) + inherited
    ensures SameFields(DescriptorFields(assembly[t.fullName + "ZSerializer"]), GetFieldsThatShouldBeSerialized(t))
  {
    GeneratedDescriptorAgrees(GetFieldsThatShouldBeSerialized(t), inherited);
  }

  // ---------------------------------------------------------------------
  // Registry rebuild after a hierarchy edit

  /** One saveable behaviour as `OnHierarchyChanged` sees it: its ids, the
      behaviour itself, its game object, and, for a node, its serialized
      engine components. */
  datatype Item = Item(
    zuid: string,
    gozuid: string,
    self: Ref,
    gameObject: GameObject,
    serializedComponents: seq<SerializedComponent>)

  /** The ids the local map holds after the loop has visited `items`, when no
      id had to be regenerated. */
  function SeenIds(items: seq<Item>): set<string>
    decreases |items|
  {
    if |items| == 0 then {}
    else
      var last := items[|items| - 1];
      SeenIds(items[..|items| - 1]) + (if last.zuid != "" then {last.zuid, last.gozuid} else {})
  }

  /** No behaviour's ZUID was met before it in the loop. */
  predicate NoRepeatedZUID(items: seq<Item>) {
    forall i :: 0 <= i < |items| && items[i].zuid != "" ==> items[i].zuid !in SeenIds(items[..i])
  }

  /** The registry entry of a serialized component. */
  function ComponentEntry(c: SerializedComponent): Ref {
    if c.component == null then Null else ComponentRef(c.component)
  }

  /** The registry additions for one behaviour whose ZUID was already met:
      its ids are regenerated, then its ZUID, its GOZUID and, for a node, its
      components' ids are offered to `TryAdd`. */
  method AddRegenerated(registry: IdRegistry, item: Item, zuid: string, gozuid: string)
    modifies registry
    ensures Extends(old(registry.entries), registry.entries)
    ensures registry.entries.Keys == old(registry.entries).Keys + {zuid, gozuid}
      + (if item.self.NodeRef? then set c | c in item.serializedComponents :: c.zuid else {})
  {
    registry.TryAdd(zuid, item.self);
    TryAddNeverOverwrites(old(registry.entries), zuid, item.self);
    ghost var afterZuid := registry.entries;
    registry.TryAdd(gozuid, GameObjectRef(item.gameObject));
    TryAddNeverOverwrites(afterZuid, gozuid, GameObjectRef(item.gameObject));
    ExtendsTransitive(old(registry.entries), afterZuid, registry.entries);
    if item.self.NodeRef? {
      ghost var before := registry.entries;
      for k := 0 to |item.serializedComponents|
        invariant Extends(before, registry.entries)
        invariant registry.entries.Keys == before.Keys + set c | c in item.serializedComponents[..k] :: c.zuid
      {
        var c := item.serializedComponents[k];
        ghost var step := registry.entries;
        registry.TryAdd(c.zuid, ComponentEntry(c));
        TryAddNeverOverwrites(step, c.zuid, ComponentEntry(c));
        ExtendsTransitive(before, step, registry.entries);
        assert item.serializedComponents[..k + 1] == item.serializedComponents[..k] + [c];
      }
      assert item.serializedComponents[..|item.serializedComponents|] == item.serializedComponents;
      ExtendsTransitive(old(registry.entries), before, registry.entries);
    }
  }

  /** The loop body of `OnHierarchyChanged` for one behaviour, given the
      local map of ids met so far; returns the updated local map. */
  method VisitItem(registry: IdRegistry, seen: map<string, Ref>, item: Item,
                   regen: (string, string, bool) -> (string, string))
    returns (seen': map<string, Ref>)
    modifies registry
    ensures Extends(old(registry.entries), registry.entries)
    ensures item.zuid == "" ==> seen' == seen && registry.entries == old(registry.entries)
    ensures item.zuid != "" && item.zuid !in seen ==>
      registry.entries == old(registry.entries) && seen'.Keys == seen.Keys + {item.zuid, item.gozuid}
  {
    seen' := seen;
    if item.zuid != "" {
      var zuid, gozuid := item.zuid, item.gozuid;
      if zuid in seen {
        var taken := gozuid in seen && seen[gozuid] != GameObjectRef(item.gameObject);
        zuid, gozuid := regen(zuid, gozuid, taken).0, regen(zuid, gozuid, taken).1;
        AddRegenerated(registry, item, zuid, gozuid);
      }
      seen' := seen'[zuid := item.self];
      seen' := seen'[gozuid := GameObjectRef(item.gameObject)];
    }
  }

  /** The loop's view of a prefix one behaviour longer. */
  lemma NoRepeatedZUIDSnoc(items: seq<Item>, i: nat)
    requires i < |items| && NoRepeatedZUID(items[..i + 1])
    ensures NoRepeatedZUID(items[..i])
    ensures items[i].zuid != "" ==> items[i].zuid !in SeenIds(items[..i])
    ensures SeenIds(items[..i + 1]) ==
      SeenIds(items[..i]) + (if items[i].zuid != "" then {items[i].zuid, items[i].gozuid} else {})
  {
    var t := items[..i + 1];
    assert t[..i] == items[..i];
    forall j | 0 <= j < i
      ensures items[..i][..j] == t[..j]
    {
    }
  }

  /** `OnHierarchyChanged`: `items` are the saveable behaviours in the order
      the loop visits them (the scene's order reversed); `regen` stands for
      `GenerateEditorZUIDs`, giving the new ZUID and GOZUID of a behaviour
      from its current ones and whether its GOZUID is already taken by
      another game object. The registry is only ever extended, and when no
      ZUID repeats it is left as it was. */
  method OnHierarchyChanged(registry: IdRegistry, items: seq<Item>,
                            regen: (string, string, bool) -> (string, string))
    modifies registry
    ensures Extends(old(registry.entries), registry.entries)
    ensures NoRepeatedZUID(items) ==> registry.entries == old(registry.entries)
  {
    var seen: map<string, Ref> := map[];
    for i := 0 to |items|
      invariant Extends(old(registry.entries), registry.entries)
      invariant NoRepeatedZUID(items[..i]) ==> registry.entries == old(registry.entries) && seen.Keys == SeenIds(items[..i])
    {
      ghost var before := registry.entries;
      seen := VisitItem(registry, seen, items[i], regen);
      ExtendsTransitive(old(registry.entries), before, registry.entries);
      if NoRepeatedZUID(items[..i + 1]) {
        NoRepeatedZUIDSnoc(items, i);
      }
    }
    assert items[..|items|] == items;
  }
}
