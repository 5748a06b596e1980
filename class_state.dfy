/** What the editors read through reflection to decide whether a generated
    descriptor class still matches the type it was generated from. */
module ClassStates {
  import opened Wrappers
  import opened Seqs
  import opened Strings

  /** The facts about a field's type that field selection looks at. */
  datatype FieldType = FieldType(
    fullName: Option<string>,
    name: string,
    isSerializable: bool,
    isUnityObject: bool,
    isGeneric: bool,
    /** The generic definition is `Dictionary<,>`. */
    isDictionary: bool)

  /** A field and the attributes that matter to the save system. */
  datatype FieldInfo = FieldInfo(
    name: string,
    fieldType: FieldType,
    nonZSerialized: bool,
    forceZSerialized: bool,
    serializeField: bool)

  /** A behaviour type: its names, the public fields `GetFields()` returns
      (static ones included), its non-public instance fields and those of
      its base type, each in declaration order. */
  datatype ClassType = ClassType(
    name: string,
    fullName: string,
    publicFields: seq<FieldInfo>,
    nonPublicFields: seq<FieldInfo>,
    baseNonPublicFields: seq<FieldInfo>)

  /** An assembly's generated descriptor classes: their public fields, by
      the name `Assembly.GetType` finds them under. */
  type Assembly = map<string, seq<FieldInfo>>

  datatype ClassState = NotMade | Valid | NeedsRebuilding

  /** The descriptor field is compared (it does not carry `NonZSerialized`). */
  predicate Compared(f: FieldInfo) {
    !f.nonZSerialized
  }

  /** The descriptor's fields that take part in the comparison. */
  function DescriptorFields(fields: seq<FieldInfo>): seq<FieldInfo> {
    Filter(fields, Compared)
  }

  /** Two field lists agree: same length, and pairwise the same name and the
      same field type. */
  predicate SameFields(a: seq<FieldInfo>, b: seq<FieldInfo>) {
    |a| == |b| && forall j :: 0 <= j < |a| ==> a[j].name == b[j].name && a[j].fieldType == b[j].fieldType
  }

  /** The comparison both `GetClassState`s end with: `Valid` when the
      descriptor's fields agree with the expected ones, `NeedsRebuilding` at
      a count mismatch or at the first pair that differs. */
  method CompareFieldLists(fieldsZSerializer: seq<FieldInfo>, fieldTypes: seq<FieldInfo>)
    returns (state: ClassState)
    ensures state == Valid <==> SameFields(fieldsZSerializer, fieldTypes)
    ensures state != NotMade
  {
    if |fieldsZSerializer| == |fieldTypes| {
      for j := 0 to |fieldsZSerializer|
        invariant forall k :: 0 <= k < j ==>
          fieldsZSerializer[k].name == fieldTypes[k].name && fieldsZSerializer[k].fieldType == fieldTypes[k].fieldType
      {
        if fieldsZSerializer[j].name != fieldTypes[j].name
          || fieldsZSerializer[j].fieldType != fieldTypes[j].fieldType
        {
          return NeedsRebuilding;
        }
      }
      return Valid;
    }
    return NeedsRebuilding;
  }

  /** A descriptor none of whose fields carries `NonZSerialized` is compared
      whole. */
  lemma {:induction false} DescriptorFieldsUnmarked(fields: seq<FieldInfo>)
    requires forall i :: 0 <= i < |fields| ==> !fields[i].nonZSerialized
    ensures DescriptorFields(fields) == fields
    decreases |fields|
  {
    if |fields| > 0 {
      DescriptorFieldsUnmarked(fields[1..]);
      assert fields == [fields[0]] + fields[1..];
    }
  }

  /** The public fields a generated descriptor class declares for the
      fields it is generated from: one per field, with its name and its
      type and no attribute. */
  function DeclaredFields(fields: seq<FieldInfo>): seq<FieldInfo> {
    seq(|fields|, i requires 0 <= i < |fields| => FieldInfo(fields[i].name, fields[i].fieldType, false, false, false))
  }

  /** Filtering a concatenation filters each part. */
  lemma {:induction false} DescriptorFieldsAppend(a: seq<FieldInfo>, b: seq<FieldInfo>)
    ensures DescriptorFields(a + b) == DescriptorFields(a) + DescriptorFields(b)
    decreases |a|
  {
    if |a| == 0 {
      assert a + b == b;
    } else {
      assert (a + b)[0] == a[0];
      assert (a + b)[1..] == a[1..] + b;
      DescriptorFieldsAppend(a[1..], b);
    }
  }

  /** Fields that all carry `NonZSerialized` are left out of the comparison. */
  lemma {:induction false} DescriptorFieldsMarked(fields: seq<FieldInfo>)
    requires forall i :: 0 <= i < |fields| ==> fields[i].nonZSerialized
    ensures DescriptorFields(fields) == []
    decreases |fields|
  {
    if |fields| > 0 {
      DescriptorFieldsMarked(fields[1..]);
    }
  }

  /** A descriptor class generated from `selected` declares one field per
      selected field; after the fields it inherits, which carry
      `NonZSerialized`, are left out, it agrees with `selected`. */
  lemma GeneratedDescriptorAgrees(selected: seq<FieldInfo>, inherited: seq<FieldInfo>)
    requires forall i :: 0 <= i < |inherited| ==> inherited[i].nonZSerialized
    ensures SameFields(DescriptorFields(DeclaredFields(selected) + inherited), selected)
  {
    DescriptorFieldsAppend(DeclaredFields(selected), inherited);
    DescriptorFieldsUnmarked(DeclaredFields(selected));
    DescriptorFieldsMarked(inherited);
    assert DescriptorFields(DeclaredFields(selected)) + [] == DeclaredFields(selected);
  }

  /** The field's type can be serialized: serializable, an engine object, or
      named in the engine's namespace. */
  predicate SerializableType(t: FieldType) {
    t.isSerializable || t.isUnityObject
    || StartsWith(match t.fullName case Some(n) => n case None => t.name, "UnityEngine.")
  }

  /** The field's type is not a `Dictionary<,>`. */
  predicate NotDictionary(t: FieldType) {
    if t.isGeneric then !t.isDictionary else true
  }
}
