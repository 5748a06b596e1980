/** The durable record format of a save file: one line per descriptor type,
    `{<type name>}<JSON payload>` followed by a newline, and the mapping from
    a descriptor type back to the component type it describes. */
module Codec {
  import opened Wrappers
  import opened Seqs
  import opened Strings

  /** One line of a save file: a descriptor type name and its JSON payload. */
  datatype Record = Record(typeName: string, json: string)

  datatype CodecError =
    /** The line at this index has no `}`; the runtime faults removing the
        first character of an empty string. */
    | MalformedLine(index: nat)

  /** A line as `CompileJson` writes it, without its newline. */
  function RecordLine(r: Record): string {
    "{" + r.typeName + "}" + r.json
  }

  /** `GetStringFromTypesAndJson`: every record's line, each ending in a newline. */
  function GetStringFromTypesAndJson(rs: seq<Record>): (r: string)
    // No records give the empty text; otherwise it opens the first record's
    // type name and closes with a newline.
    ensures |r| == 0 <==> |rs| == 0
    ensures |rs| > 0 ==> r[0] == '{' && r[|r| - 1] == '\n'
    // At least one newline per record.
    ensures |r| >= 3 * |rs|
  {
    if |rs| == 0 then ""
    else GetStringFromTypesAndJson(rs[..|rs| - 1]) + RecordLine(rs[|rs| - 1]) + "\n"
  }

  /** One line of `GetTypesAndJsonFromString`: the text before the first `}`
      with every `{` removed is the type name; the pieces after it, rejoined
      with `}` behind an emptied first piece, lose their first character and
      form the payload. */
  function ParseLine(line: string): Option<Record> {
    ParseParts(Split(line, '}'))
  }

  /** The pieces of a line split at `}`, turned into a record. */
  function ParseParts(parts: seq<string>): Option<Record>
    requires |parts| >= 1
  {
    var typeName := ReplaceAll(parts[0], "{", "");
    var joined := Join('}', [""] + parts[1..]);
    if |joined| == 0 then None else Some(Record(typeName, joined[1..]))
  }

  /** The lines parsed in order; the first malformed line ends the parse. */
  function ParseAll(lines: seq<string>): Result<seq<Record>, CodecError> {
    if |lines| == 0 then Success([])
    else
      var prefix := ParseAll(lines[..|lines| - 1]);
      if prefix.Failure? then prefix
      else match ParseLine(lines[|lines| - 1])
        case None => Failure(MalformedLine(|lines| - 1))
        case Some(r) => Success(prefix.value + [r])
  }

  /** What `GetTypesAndJsonFromString` computes: the text is split at every
      newline and all pieces but the last are parsed. */
  function Unpack(text: string): Result<seq<Record>, CodecError> {
    var pieces := Split(text, '\n');
    ParseAll(pieces[..|pieces| - 1])
  }

  /** `GetTypesAndJsonFromString`: fills one tuple per newline-terminated line. */
  method GetTypesAndJsonFromString(text: string) returns (r: Result<seq<Record>, CodecError>)
    ensures r == Unpack(text)
  {
    var strings := Split(text, '\n');
    var n := |strings| - 1;
    var tuples := new Record[n];
    var i := 0;
    while i < n
      invariant 0 <= i <= n
      invariant ParseAll(strings[..i]) == Success(tuples[..i])
    {
      var parsed := ParseLine(strings[i]);
      assert strings[..i + 1] == strings[..i] + [strings[i]];
      if parsed.None? {
        ParseAllFails(strings[..i], strings[i]);
        ParseAllFailureStays(strings[..n], i + 1);
        assert strings[..n][..i + 1] == strings[..i + 1];
        return Failure(MalformedLine(i));
      }
      ParseAllSnoc(strings[..i], strings[i], tuples[..i], parsed.value);
      tuples[i] := parsed.value;
      assert tuples[..i + 1] == tuples[..i] + [parsed.value];
      i := i + 1;
    }
    assert tuples[..] == tuples[..n];
    r := Success(tuples[..]);
  }

  /** A malformed line after a successful prefix fails the parse at its index. */
  lemma ParseAllFails(lines: seq<string>, line: string)
    requires ParseAll(lines).Success?
    requires ParseLine(line).None?
    ensures ParseAll(lines + [line]) == Failure(MalformedLine(|lines|))
  {
    assert (lines + [line])[..|lines|] == lines;
  }

  /** A failure in a prefix of the lines is the failure of the whole parse. */
  lemma {:induction false} ParseAllFailureStays(lines: seq<string>, k: nat)
    requires k <= |lines|
    requires ParseAll(lines[..k]).Failure?
    ensures ParseAll(lines) == ParseAll(lines[..k])
    decreases |lines| - k
  {
    if k < |lines| {
      var longer := lines[..k + 1];
      assert longer[..k] == lines[..k];
      ParseAllFailureStays(lines, k + 1);
    } else {
      assert lines[..k] == lines;
    }
  }

  /** A line parses exactly when it holds a `}`; the type name is the text
      before the first `}` without its `{` characters, and the payload is
      everything after that `}`. */
  lemma ParseLineMeaning(line: string)
    ensures ParseLine(line).Some? <==> '}' in line
    ensures '}' in line ==>
      var i := IndexOf(line, '}');
      ParseLine(line) == Some(Record(ReplaceAll(line[..i], "{", ""), line[i + 1..]))
  {
    if '}' in line {
      ParseLineWithBrace(line);
    } else {
      assert Split(line, '}') == [line];
    }
  }

  lemma ParseLineWithBrace(line: string)
    requires '}' in line
    ensures var i := IndexOf(line, '}');
      ParseLine(line) == Some(Record(ReplaceAll(line[..i], "{", ""), line[i + 1..]))
  {
    var i := IndexOf(line, '}');
    var rest := line[i + 1..];
    SplitAtFirst(line, '}');
    ParsePartsAfterFirst(line[..i], rest);
  }

  /** Rejoining the pieces after the first one behind an empty piece gives a
      `}` followed by the text after the first `}`, which loses that `}`. */
  lemma ParsePartsAfterFirst(head: string, rest: string)
    ensures ParseParts([head] + Split(rest, '}')) == Some(Record(ReplaceAll(head, "{", ""), rest))
  {
    var parts := [head] + Split(rest, '}');
    assert parts[1..] == Split(rest, '}');
    JoinEmptyHead('}', Split(rest, '}'));
    JoinSplit(rest, '}');
    var joined := Join('}', [""] + parts[1..]);
    assert joined == "}" + rest;
    assert joined[1..] == rest;
  }

  /** A type name that can be written on a line and read back. */
  predicate WellFormedRecord(r: Record) {
    '{' !in r.typeName && '}' !in r.typeName && '\n' !in r.typeName && '\n' !in r.json
  }

  predicate WellFormed(rs: seq<Record>) {
    forall i :: 0 <= i < |rs| ==> WellFormedRecord(rs[i])
  }

  /** A written line of a well-formed record parses back to that record. */
  lemma ParseRecordLine(r: Record)
    requires WellFormedRecord(r)
    ensures ParseLine(RecordLine(r)) == Some(r)
  {
    var line := RecordLine(r);
    var k := |r.typeName| + 1;
    var head := "{" + r.typeName;
    assert line == head + "}" + r.json;
    assert line[..k] == head;
    assert line[k] == '}';
    IndexOfAt(line, '}', k);
    ParseLineMeaning(line);
    assert ParseLine(line) == Some(Record(ReplaceAll(head, "{", ""), line[k + 1..]));
    assert head[..1] == "{";
    assert head[1..] == r.typeName;
    assert ReplaceAll(head, "{", "") == "" + ReplaceAll(head[1..], "{", "");
    ReplaceAllAbsentChar(r.typeName, '{', "");
    assert ReplaceAll(head, "{", "") == r.typeName;
    assert line[k + 1..] == r.json;
  }

  /** The written lines of some records. */
  function Lines(rs: seq<Record>): (ls: seq<string>)
    ensures |ls| == |rs|
  {
    seq(|rs|, i requires 0 <= i < |rs| => RecordLine(rs[i]))
  }

  /** Splitting written records followed by an unterminated tail at the
      newlines gives their lines and then the tail. */
  lemma {:induction false} SplitWritten(rs: seq<Record>, tail: string)
    requires WellFormed(rs)
    requires '\n' !in tail
    ensures Split(GetStringFromTypesAndJson(rs) + tail, '\n') == Lines(rs) + [tail]
    decreases |rs|
  {
    if |rs| > 0 {
      var front := rs[..|rs| - 1];
      var last := RecordLine(rs[|rs| - 1]);
      var body := GetStringFromTypesAndJson(front) + last;
      WrittenSnoc(rs, tail);
      SplitSnoc(body, tail, '\n');
      WellFormedPrefix(rs);
      SplitWritten(front, last);
      LinesSnoc(rs);
    } else {
      assert GetStringFromTypesAndJson(rs) + tail == tail;
    }
  }

  lemma WrittenSnoc(rs: seq<Record>, tail: string)
    requires |rs| > 0
    ensures GetStringFromTypesAndJson(rs) + tail
         == (GetStringFromTypesAndJson(rs[..|rs| - 1]) + RecordLine(rs[|rs| - 1])) + ['\n'] + tail
  {
  }

  lemma WellFormedPrefix(rs: seq<Record>)
    requires |rs| > 0 && WellFormed(rs)
    ensures WellFormed(rs[..|rs| - 1])
    ensures '\n' !in RecordLine(rs[|rs| - 1])
  {
    var r := rs[|rs| - 1];
    assert WellFormedRecord(r);
    assert RecordLine(r) == "{" + r.typeName + "}" + r.json;
  }

  lemma LinesSnoc(rs: seq<Record>)
    requires |rs| > 0
    ensures Lines(rs) == Lines(rs[..|rs| - 1]) + [RecordLine(rs[|rs| - 1])]
  {
  }

  /** Parsing the lines of well-formed records gives those records. */
  lemma {:induction false} ParseWritten(rs: seq<Record>)
    requires WellFormed(rs)
    ensures ParseAll(Lines(rs)) == Success(rs)
    decreases |rs|
  {
    if |rs| > 0 {
      var front := rs[..|rs| - 1];
      var last := rs[|rs| - 1];
      LinesSnoc(rs);
      WellFormedPrefix(rs);
      ParseWritten(front);
      assert WellFormedRecord(last);
      ParseRecordLine(last);
      ParseAllSnoc(Lines(front), RecordLine(last), front, last);
      assert front + [last] == rs;
    }
  }

  /** One more well-formed line extends a successful parse by its record. */
  lemma ParseAllSnoc(lines: seq<string>, line: string, done: seq<Record>, r: Record)
    requires ParseAll(lines) == Success(done)
    requires ParseLine(line) == Some(r)
    ensures ParseAll(lines + [line]) == Success(done + [r])
  {
    assert (lines + [line])[..|lines|] == lines;
  }

  /** Round trip: a file written from well-formed records reads back as
      exactly those records, in order. */
  lemma RoundTrip(rs: seq<Record>)
    requires WellFormed(rs)
    ensures Unpack(GetStringFromTypesAndJson(rs)) == Success(rs)
  {
    var text := GetStringFromTypesAndJson(rs);
    assert text + "" == text;
    SplitWritten(rs, "");
    assert (Lines(rs) + [""])[..|rs|] == Lines(rs);
    ParseWritten(rs);
  }

  /** Text after the last newline is never read. */
  lemma UnpackIgnoresTail(body: string, tail: string)
    requires '\n' !in tail
    ensures Unpack(body + "\n" + tail) == Unpack(body + "\n")
  {
    SplitSnoc(body, tail, '\n');
    SplitSnoc(body, "", '\n');
    assert body + "\n" + "" == body + "\n";
    assert body + "\n" + tail == body + ['\n'] + tail;
    assert (Split(body, '\n') + [tail])[..|Split(body, '\n')|] == Split(body, '\n');
    assert (Split(body, '\n') + [""])[..|Split(body, '\n')|] == Split(body, '\n');
  }

  /** The accumulated text of one save pass (`jsonToSave`). */
  class JsonBuffer {
    var jsonToSave: string
    /** The records compiled since the last write. */
    ghost var compiled: seq<Record>

    ghost predicate Valid()
      reads this
    {
      jsonToSave == GetStringFromTypesAndJson(compiled)
    }

    constructor ()
      ensures Valid() && compiled == [] && jsonToSave == ""
    {
      jsonToSave := "";
      compiled := [];
    }

    /** `CompileJson`: appends one record line; `json` stands for the
        payload the JSON serializer produced for the objects. */
    method CompileJson(typeName: string, json: string)
      requires Valid()
      modifies this
      ensures Valid()
      ensures compiled == old(compiled) + [Record(typeName, json)]
      ensures jsonToSave == old(jsonToSave) + "{" + typeName + "}" + json + "\n"
    {
      jsonToSave := jsonToSave + "{" + typeName + "}" + json + "\n";
      compiled := compiled + [Record(typeName, json)];
    }

    /** `SaveJsonData`: hands the text to the file writer and empties the
        buffer; the written text reads back as the compiled records. */
    method SaveJsonData() returns (written: string)
      requires Valid()
      modifies this
      ensures Valid() && compiled == [] && jsonToSave == ""
      ensures written == old(jsonToSave)
      ensures WellFormed(old(compiled)) ==> Unpack(written) == Success(old(compiled))
    {
      written := jsonToSave;
      if WellFormed(compiled) {
        RoundTrip(compiled);
      }
      jsonToSave := "";
      compiled := [];
    }
  }

  /** A descriptor type as resolved from a record's type name. */
  datatype DescriptorType = DescriptorType(name: string, assembly: string)

  /** The loaded assemblies (by name, with the type names they define) and
      the Unity component assemblies recorded by the save. */
  datatype TypeEnv = TypeEnv(assemblies: map<string, set<string>>, unityComponentAssemblies: seq<string>)

  const DescriptorSuffix := "ZSerializer"
  const NodeDescriptorName := "PersistentGameObjectZSerializer"
  const NodeTypeName := "PersistentGameObject"

  predicate Defines(env: TypeEnv, assembly: string, typeName: string) {
    assembly in env.assemblies && typeName in env.assemblies[assembly]
  }

  /** The first Unity component assembly defining the name, if any. */
  function FirstDefining(env: TypeEnv, assemblies: seq<string>, typeName: string): (r: Option<string>)
    ensures r.Some? <==> exists a :: a in assemblies && Defines(env, a, typeName)
    ensures r.Some? ==> r.value in assemblies && Defines(env, r.value, typeName)
  {
    if |assemblies| == 0 then None
    else if Defines(env, assemblies[0], typeName) then Some(assemblies[0])
    else
      var r := FirstDefining(env, assemblies[1..], typeName);
      assert forall a :: a in assemblies <==> a == assemblies[0] || a in assemblies[1..];
      r
  }

  /** `GetTypeFromZSerializerType`: the node descriptor maps to the node type;
      any other descriptor loses every `ZSerializer` in its name and is looked
      up in its own assembly, then as a `UnityEngine.` type in the Unity
      component assemblies. */
  function GetTypeFromZSerializerType(env: TypeEnv, d: DescriptorType): (r: Option<string>)
    ensures d.name == NodeDescriptorName ==> r == Some(NodeTypeName)
    // Any other resolved name is defined by the descriptor's own assembly or
    // by a Unity component assembly, as a `UnityEngine.` type in the latter.
    ensures d.name != NodeDescriptorName && r.Some? ==>
      Defines(env, d.assembly, r.value)
      || (StartsWith(r.value, "UnityEngine.")
          && exists a :: a in env.unityComponentAssemblies && Defines(env, a, r.value))
  {
    if d.name == NodeDescriptorName then Some(NodeTypeName)
    else
      var stripped := ReplaceAll(d.name, DescriptorSuffix, "");
      if Defines(env, d.assembly, stripped) then Some(stripped)
      else
        var unityName := "UnityEngine." + stripped;
        match FirstDefining(env, env.unityComponentAssemblies, unityName)
        case Some(_) => Some(unityName)
        case None => None
  }

  /** A descriptor named after its component, `<Name>ZSerializer`, resolves to
      `<Name>` when its assembly defines it and the suffix is the only
      occurrence of `ZSerializer`; failing that, to `UnityEngine.<Name>` when
      a Unity component assembly defines that; otherwise to nothing. */
  lemma DescriptorNamesItsComponent(env: TypeEnv, name: string, assembly: string)
    requires NoEarlyMatch(name, DescriptorSuffix)
    requires name + DescriptorSuffix != NodeDescriptorName
    ensures var r := GetTypeFromZSerializerType(env, DescriptorType(name + DescriptorSuffix, assembly));
      && (Defines(env, assembly, name) ==> r == Some(name))
      && (!Defines(env, assembly, name) ==>
            (r.Some? <==> exists a :: a in env.unityComponentAssemblies && Defines(env, a, "UnityEngine." + name)))
      && (r.Some? && !Defines(env, assembly, name) ==> r == Some("UnityEngine." + name))
  {
    ReplaceAllSuffix(name, DescriptorSuffix, "");
    assert name + "" == name;
  }
}
