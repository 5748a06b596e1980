/** The older front end's name-matched copy of a loaded descriptor into a
    live component: into its fields, and into its assignable properties. */
module LegacyCopy {

  /** A public field of a descriptor object: its name and its value. */
  datatype Field<V> = Field(name: string, value: V)

  /** What the older front end looks at in a property of a component type. */
  datatype Property = Property(name: string, canRead: bool, canWrite: bool,
                               obsolete: bool, omitSerializableCheck: bool)

  /** Property names that are never assigned from a descriptor. */
  const ExcludedPropertyNames: seq<string> := ["material", "materials", "sharedMaterial", "mesh", "tag", "name"]

  /** `FieldIsSuitableForAssignment`: a property is assigned only when it is
      readable and writable, neither obsolete nor exempted from the
      serializable check, and not one of the excluded names. */
  predicate FieldIsSuitableForAssignment(p: Property): (r: bool)
    ensures r ==> p.canRead && p.canWrite && !p.obsolete && !p.omitSerializableCheck
    ensures r ==> forall i :: 0 <= i < |ExcludedPropertyNames| ==> p.name != ExcludedPropertyNames[i]
    ensures (&& p.canRead && p.canWrite && !p.obsolete && !p.omitSerializableCheck
             && forall i :: 0 <= i < |ExcludedPropertyNames| ==> p.name != ExcludedPropertyNames[i]) ==> r
  {
    && !p.obsolete
    && !p.omitSerializableCheck
    && p.canRead
    && p.canWrite
    && p.name !in ExcludedPropertyNames
  }

  /** The renderer and identity properties are never assigned, whatever
      their accessors. */
  lemma ExcludedNamesNeverSuitable(p: Property)
    requires p.name == "material" || p.name == "materials" || p.name == "sharedMaterial"
          || p.name == "mesh" || p.name == "tag" || p.name == "name"
    ensures !FieldIsSuitableForAssignment(p)
  {
  }

  /** The index of the last field called `name`, or -1. */
  function LastMatch<V>(fields: seq<Field<V>>, name: string): (r: int)
    ensures -1 <= r < |fields|
    ensures r == -1 <==> forall j :: 0 <= j < |fields| ==> fields[j].name != name
    ensures 0 <= r ==> fields[r].name == name && forall j :: r < j < |fields| ==> fields[j].name != name
    decreases |fields|
  {
    if |fields| == 0 then -1
    else if fields[|fields| - 1].name == name then |fields| - 1
    else LastMatch(fields[..|fields| - 1], name)
  }

  /** The value a member called `name`, now holding `current`, has after
      the descriptor fields are copied in: that of the last same-named field,
      or `current` when none has its name. */
  function CopiedValue<V>(fields: seq<Field<V>>, name: string, current: V): V {
    var j := LastMatch(fields, name);
    if j < 0 then current else fields[j].value
  }

  /** One more field: it wins for its own name and changes nothing else. */
  lemma CopiedValueSnoc<V>(fields: seq<Field<V>>, f: Field<V>, name: string, current: V)
    ensures CopiedValue(fields + [f], name, current)
         == if f.name == name then f.value else CopiedValue(fields, name, current)
  {
    assert (fields + [f])[..|fields|] == fields;
  }

  /** Copying the same descriptor twice gives what copying it once gives. */
  lemma CopyIdempotent<V>(fields: seq<Field<V>>, name: string, current: V)
    ensures CopiedValue(fields, name, CopiedValue(fields, name, current)) == CopiedValue(fields, name, current)
  {
  }

  /** `CopyFieldsToFields`: each component field takes the value of the last
      descriptor field with its name; fields without one keep their value.
      `component[i]` is the value of the field called `componentFields[i]`. */
  method CopyFieldsToFields<V>(zSaverFields: seq<Field<V>>, componentFields: seq<string>, component: array<V>)
    requires component.Length == |componentFields|
    modifies component
    ensures forall i :: 0 <= i < |componentFields| ==>
      component[i] == CopiedValue(zSaverFields, componentFields[i], old(component[i]))
  {
    for i := 0 to |componentFields|
      invariant forall k :: 0 <= k < i ==>
        component[k] == CopiedValue(zSaverFields, componentFields[k], old(component[k]))
      invariant forall k :: i <= k < |componentFields| ==> component[k] == old(component[k])
    {
      for j := 0 to |zSaverFields|
        invariant forall k :: 0 <= k < i ==>
          component[k] == CopiedValue(zSaverFields, componentFields[k], old(component[k]))
        invariant forall k :: i < k < |componentFields| ==> component[k] == old(component[k])
        invariant component[i] == CopiedValue(zSaverFields[..j], componentFields[i], old(component[i]))
      {
        assert zSaverFields[..j + 1] == zSaverFields[..j] + [zSaverFields[j]];
        CopiedValueSnoc(zSaverFields[..j], zSaverFields[j], componentFields[i], old(component[i]));
        if zSaverFields[j].name == componentFields[i] {
          component[i] := zSaverFields[j].value;
        }
      }
      assert zSaverFields[..|zSaverFields|] == zSaverFields;
    }
  }

  /** `GetProperties().Where(FieldIsSuitableForAssignment)`, as the indices
      of the suitable properties, in order. */
  function SuitableIndices(properties: seq<Property>): (r: seq<nat>)
    ensures forall a :: 0 <= a < |r| ==> r[a] < |properties| && FieldIsSuitableForAssignment(properties[r[a]])
    ensures forall a, b :: 0 <= a < b < |r| ==> r[a] < r[b]
    ensures forall k :: 0 <= k < |properties| && FieldIsSuitableForAssignment(properties[k]) ==> k in r
    decreases |properties|
  {
    if |properties| == 0 then []
    else
      var n := |properties| - 1;
      var rest := SuitableIndices(properties[..n]);
      assert forall k :: 0 <= k < n ==> properties[..n][k] == properties[k];
      if FieldIsSuitableForAssignment(properties[n]) then rest + [n] else rest
  }

  /** `CopyFieldsToProperties`: each suitable property takes the value of the
      last descriptor field with its name; unsuitable properties and those
      without a same-named field keep their value. `component[k]` is the
      value of `properties[k]`. */
  method CopyFieldsToProperties<V>(properties: seq<Property>, component: array<V>, fieldInfos: seq<Field<V>>)
    requires component.Length == |properties|
    modifies component
    ensures forall k :: 0 <= k < |properties| ==>
      component[k] == if FieldIsSuitableForAssignment(properties[k])
                      then CopiedValue(fieldInfos, properties[k].name, old(component[k]))
                      else old(component[k])
  {
    var propertyInfos := SuitableIndices(properties);
    for i := 0 to |fieldInfos|
      invariant forall k :: 0 <= k < |properties| ==>
        component[k] == if FieldIsSuitableForAssignment(properties[k])
                        then CopiedValue(fieldInfos[..i], properties[k].name, old(component[k]))
                        else old(component[k])
    {
      CopyOneField(properties, component, propertyInfos, fieldInfos[..i], fieldInfos[i], old(component[..]));
      assert fieldInfos[..i + 1] == fieldInfos[..i] + [fieldInfos[i]];
    }
    assert fieldInfos[..|fieldInfos|] == fieldInfos;
  }

  /** The inner loop of `CopyFieldsToProperties`: field `f` is written into
      every suitable property with its name. */
  method CopyOneField<V>(properties: seq<Property>, component: array<V>, propertyInfos: seq<nat>,
                         ghost done: seq<Field<V>>, f: Field<V>, ghost original: seq<V>)
    requires component.Length == |properties| == |original|
    requires propertyInfos == SuitableIndices(properties)
    requires forall k :: 0 <= k < |properties| ==>
      component[k] == if FieldIsSuitableForAssignment(properties[k])
                      then CopiedValue(done, properties[k].name, original[k])
                      else original[k]
    modifies component
    ensures forall k :: 0 <= k < |properties| ==>
      component[k] == if FieldIsSuitableForAssignment(properties[k])
                      then CopiedValue(done + [f], properties[k].name, original[k])
                      else original[k]
  {
    ghost var start := component[..];
    ghost var target := seq(|properties|, k requires 0 <= k < |properties| =>
      if FieldIsSuitableForAssignment(properties[k])
      then CopiedValue(done + [f], properties[k].name, original[k])
      else original[k]);
    for j := 0 to |propertyInfos|
      invariant forall k :: 0 <= k < |properties| ==>
        component[k] == if k in propertyInfos[..j] then target[k] else start[k]
    {
      var p := propertyInfos[j];
      CopiedValueSnoc(done, f, properties[p].name, original[p]);
      assert target[p] == if properties[p].name == f.name then f.value else start[p];
      assert p !in propertyInfos[..j];
      assert propertyInfos[..j + 1] == propertyInfos[..j] + [p];
      if properties[p].name == f.name {
        component[p] := f.value;
      }
    }
    assert propertyInfos[..|propertyInfos|] == propertyInfos;
    forall k | 0 <= k < |properties| && k !in propertyInfos
      ensures component[k] == target[k]
    {
    }

  }
}
