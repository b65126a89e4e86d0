/**
 * `src/utils/modelLoader.ts`: the shallow structural check of a custom model
 * (`validateGeometry`, `validateModel`) and the two rejections of
 * `loadModelFromFile`. Property reads on `null` throw in JavaScript; the model
 * keeps that outcome (`Threw`) so that the `try`/`catch` of `validateModel`
 * is visible.
 */
module ModelLoader {
  import opened Wrappers
  import opened Json
  import opened JsStrings
  import opened SkinTypes

  /** How evaluating a boolean JavaScript expression ends. */
  datatype Completion = Returned(value: bool) | Threw

  const GeometryPrefix: string := "geometry."

  /** The callback of `bones.every`. Reading `bone.name` throws on `null`; on
      other non-objects every property is `undefined`. */
  function CheckBone(bone: Json): Completion {
    if bone.JNull? then Threw
    else
      Returned(
        && Truthy(Prop(bone, "name"))
        && IsArray(Prop(bone, "pivot"))
        && |Prop(bone, "pivot").value.items| == 3
        && (!Truthy(Prop(bone, "cubes")) || IsArray(Prop(bone, "cubes"))))
  }

  /** `Array.prototype.every`: stops at the first callback that throws or
      answers false. */
  function EveryBone(bones: seq<Json>): (c: Completion)
    ensures c == Returned(true) <==> forall i :: 0 <= i < |bones| ==> BoneOk(bones[i])
    ensures c == Threw ==> exists i :: 0 <= i < |bones| && bones[i].JNull?
    decreases |bones|
  {
    if bones == [] then Returned(true)
    else match CheckBone(bones[0]) {
      case Threw => Threw
      case Returned(false) => Returned(false)
      case Returned(true) => EveryBone(bones[1..])
    }
  }

  /** Declarative form of the bone check. */
  predicate BoneOk(bone: Json) {
    && bone.JObj?
    && Truthy(Get(bone.fields, "name"))
    && IsArray(Get(bone.fields, "pivot"))
    && |Get(bone.fields, "pivot").value.items| == 3
    && (!Truthy(Get(bone.fields, "cubes")) || IsArray(Get(bone.fields, "cubes")))
  }

  /** The header test of `validateGeometry`: both texture sizes truthy and
      `bones` an array. */
  predicate HeaderOk(g: Json) {
    && g.JObj?
    && Truthy(Get(g.fields, "texturewidth"))
    && Truthy(Get(g.fields, "textureheight"))
    && IsArray(Get(g.fields, "bones"))
  }

  /** `validateGeometry`, including the throw on a `null` argument. */
  function ValidateGeometry(g: Json): Completion {
    if g.JNull? then Threw
    else if !Truthy(Prop(g, "texturewidth")) || !Truthy(Prop(g, "textureheight")) ||
            !IsArray(Prop(g, "bones")) then Returned(false)
    else EveryBone(Prop(g, "bones").value.items)
  }

  /** Declarative form: a geometry definition passes iff its header passes and
      every bone passes. */
  predicate GeometryOk(g: Json) {
    HeaderOk(g) &&
    var bones := Get(g.fields, "bones").value.items;
    forall i :: 0 <= i < |bones| ==> BoneOk(bones[i])
  }

  lemma ValidateGeometryMeaning(g: Json)
    ensures ValidateGeometry(g) == Returned(true) <==> GeometryOk(g)
    ensures !HeaderOk(g) ==> ValidateGeometry(g) != Returned(true)
  {
  }

  predicate IsGeometryKey(k: string) {
    StartsWith(k, GeometryPrefix)
  }

  /** The entries whose key starts with the `geometry.` prefix, in key order. */
  function GeometryEntries(fs: Fields): (r: Fields)
    ensures forall e :: e in r <==> e in fs && IsGeometryKey(e.0)
    ensures |r| <= |fs|
    decreases |fs|
  {
    if fs == [] then []
    else if IsGeometryKey(fs[0].0) then [fs[0]] + GeometryEntries(fs[1..])
    else GeometryEntries(fs[1..])
  }

  /** Every geometry entry passes `validateGeometry`, checked in key order and
      stopping at the first one that fails or throws. */
  function EveryGeometry(entries: Fields): (c: Completion)
    ensures c == Returned(true) <==> forall i :: 0 <= i < |entries| ==> GeometryOk(entries[i].1)
    decreases |entries|
  {
    if entries == [] then Returned(true)
    else match ValidateGeometry(entries[0].1) {
      case Threw => Threw
      case Returned(false) => Returned(false)
      case Returned(true) => EveryGeometry(entries[1..])
    }
  }

  predicate HasGeometryKey(fs: Fields) {
    exists i :: 0 <= i < |fs| && IsGeometryKey(fs[i].0)
  }

  predicate AllGeometriesOk(fs: Fields) {
    forall i :: 0 <= i < |fs| && IsGeometryKey(fs[i].0) ==> GeometryOk(fs[i].1)
  }

  /** `validateModel`: `null` when no key starts with `geometry.`, when any such
      entry fails, or when the check throws; otherwise the input object itself.
      `Object.keys` of a non-object here never yields a `geometry.` key, and of
      `null` it throws; both end in `null`. */
  function ValidateModel(json: Json): (r: Option<CustomModel>)
    ensures r.Some? <==> json.JObj? && HasGeometryKey(json.fields) && AllGeometriesOk(json.fields)
    ensures r.Some? ==> json == JObj(r.value.entries)
  {
    if !json.JObj? then None
    else
      var entries := GeometryEntries(json.fields);
      if |entries| == 0 then
        assert forall i :: 0 <= i < |json.fields| ==> !IsGeometryKey(json.fields[i].0) by {
          forall i | 0 <= i < |json.fields| ensures !IsGeometryKey(json.fields[i].0) {
            assert json.fields[i] in json.fields;
            assert json.fields[i] !in entries;
          }
        }
        None
      else
        assert entries[0] in json.fields;
        match EveryGeometry(entries) {
          case Returned(true) =>
            forall i | 0 <= i < |json.fields| && IsGeometryKey(json.fields[i].0)
              ensures GeometryOk(json.fields[i].1)
            {
              assert json.fields[i] in entries;
            }
            Some(CustomModel(json.fields))
          case _ =>
            assert exists j :: 0 <= j < |entries| && !GeometryOk(entries[j].1);
            None
        }
  }

  /** Entries without the `geometry.` prefix never decide the outcome: inserting
      one anywhere leaves acceptance unchanged. */
  lemma OtherKeysIrrelevant(fs: Fields, i: nat, k: string, v: Json)
    requires i <= |fs| && !IsGeometryKey(k)
    ensures ValidateModel(JObj(fs[..i] + [(k, v)] + fs[i..])).Some? == ValidateModel(JObj(fs)).Some?
  {
    var gs := fs[..i] + [(k, v)] + fs[i..];
    InsertAt(fs, i, (k, v));
    InsertKeepsGeometryKey(fs, gs, i);
    InsertKeepsGeometriesOk(fs, gs, i);
  }

  /** Where the entries of `fs` sit once `e` is inserted at `i`. */
  lemma InsertAt(fs: Fields, i: nat, e: (string, Json))
    requires i <= |fs|
    ensures var gs := fs[..i] + [e] + fs[i..];
      && |gs| == |fs| + 1 && gs[i] == e
      && (forall j :: 0 <= j < i ==> gs[j] == fs[j])
      && (forall j :: i <= j < |fs| ==> gs[j + 1] == fs[j])
  {
  }

  lemma InsertKeepsGeometryKey(fs: Fields, gs: Fields, i: nat)
    requires i <= |fs| && |gs| == |fs| + 1 && !IsGeometryKey(gs[i].0)
    requires forall j :: 0 <= j < i ==> gs[j] == fs[j]
    requires forall j :: i <= j < |fs| ==> gs[j + 1] == fs[j]
    ensures HasGeometryKey(gs) == HasGeometryKey(fs)
  {
    if HasGeometryKey(gs) {
      var j :| 0 <= j < |gs| && IsGeometryKey(gs[j].0);
      if j < i { assert fs[j] == gs[j]; } else if j > i { assert fs[j - 1] == gs[j]; }
    }
    if HasGeometryKey(fs) {
      var j :| 0 <= j < |fs| && IsGeometryKey(fs[j].0);
      if j < i { assert gs[j] == fs[j]; } else { assert gs[j + 1] == fs[j]; }
    }
  }

  lemma InsertKeepsGeometriesOk(fs: Fields, gs: Fields, i: nat)
    requires i <= |fs| && |gs| == |fs| + 1 && !IsGeometryKey(gs[i].0)
    requires forall j :: 0 <= j < i ==> gs[j] == fs[j]
    requires forall j :: i <= j < |fs| ==> gs[j + 1] == fs[j]
    ensures AllGeometriesOk(gs) == AllGeometriesOk(fs)
  {
    if AllGeometriesOk(gs) {
      forall j | 0 <= j < |fs| && IsGeometryKey(fs[j].0) ensures GeometryOk(fs[j].1) {
        if j < i { assert gs[j] == fs[j]; } else { assert gs[j + 1] == fs[j]; }
      }
    }
    if AllGeometriesOk(fs) {
      forall j | 0 <= j < |gs| && IsGeometryKey(gs[j].0) ensures GeometryOk(gs[j].1) {
        if j < i { assert fs[j] == gs[j]; } else if j > i { assert fs[j - 1] == gs[j]; }
      }
    }
  }

  /** A `null` geometry value makes `validateGeometry` throw; `validateModel`
      catches it and answers `null` instead of failing. */
  lemma NullGeometryCaught(fs: Fields, i: nat)
    requires i < |fs| && IsGeometryKey(fs[i].0) && fs[i].1 == JNull
    ensures ValidateGeometry(fs[i].1) == Threw
    ensures ValidateModel(JObj(fs)) == None
  {
  }

  /** A `null` bone makes the `every` callback throw, with the same outcome,
      unless an earlier bone already failed. */
  lemma NullBoneCaught(bones: seq<Json>, i: nat)
    requires i < |bones| && bones[i] == JNull
    ensures EveryBone(bones) != Returned(true)
    ensures (forall j :: 0 <= j < i ==> BoneOk(bones[j])) ==> EveryBone(bones) == Threw
  {
    if forall j :: 0 <= j < i ==> BoneOk(bones[j]) {
      EveryBoneAt(bones, i);
    }
  }

  lemma {:induction false} EveryBoneAt(bones: seq<Json>, i: nat)
    requires i < |bones| && bones[i] == JNull
    requires forall j :: 0 <= j < i ==> BoneOk(bones[j])
    ensures EveryBone(bones) == Threw
    decreases i
  {
    if i > 0 {
      assert BoneOk(bones[0]);
      EveryBoneAt(bones[1..], i - 1);
    }
  }

  /** An accepted model is a non-empty object, so it has a first key. */
  lemma AcceptedModelHasFirstKey(json: Json)
    requires ValidateModel(json).Some?
    ensures |ValidateModel(json).value.entries| > 0
  {
  }

  /** An object with no `geometry.` key, `{}` included, is refused. */
  lemma EmptyObjectRefused()
    ensures ValidateModel(JObj([])) == None
  {
  }

  /** One well-formed geometry is accepted, and the result is the input. */
  lemma ExampleAccepted(bone: Json, geo: Json)
    requires bone == JObj([("name", JStr("body")), ("pivot", JArr([JNum(0.0), JNum(0.0), JNum(0.0)]))])
    requires geo == JObj([("texturewidth", JNum(64.0)), ("textureheight", JNum(64.0)), ("bones", JArr([bone]))])
    ensures ValidateModel(JObj([("geometry.foo", geo)])) == Some(CustomModel([("geometry.foo", geo)]))
  {
    ExampleBoneOk(bone);
    ExampleGeometryOk(bone, geo);
    var fs := [("geometry.foo", geo)];
    assert IsGeometryKey(fs[0].0);
    assert HasGeometryKey(fs) && AllGeometriesOk(fs);
  }

  lemma ExampleBoneOk(bone: Json)
    requires bone == JObj([("name", JStr("body")), ("pivot", JArr([JNum(0.0), JNum(0.0), JNum(0.0)]))])
    ensures BoneOk(bone)
  {
    assert Get(bone.fields, "name") == Some(JStr("body"));
    assert IndexOf(bone.fields[1..], "pivot") == Some(0);
    assert Get(bone.fields, "pivot") == Some(JArr([JNum(0.0), JNum(0.0), JNum(0.0)]));
  }

  lemma ExampleGeometryOk(bone: Json, geo: Json)
    requires BoneOk(bone)
    requires geo == JObj([("texturewidth", JNum(64.0)), ("textureheight", JNum(64.0)), ("bones", JArr([bone]))])
    ensures GeometryOk(geo)
  {
    assert IndexOf(geo.fields[2..], "bones") == Some(0);
    assert IndexOf(geo.fields[1..], "bones") == Some(1);
    assert Get(geo.fields, "bones") == Some(JArr([bone]));
    assert Get(geo.fields, "texturewidth") == Some(JNum(64.0));
    assert IndexOf(geo.fields[1..], "textureheight") == Some(0);
    assert Get(geo.fields, "textureheight") == Some(JNum(64.0));
  }

  /** A geometry whose `bones` is a string is refused. */
  lemma ExampleBonesNotArray()
    ensures var geo := JObj([("texturewidth", JNum(64.0)), ("textureheight", JNum(64.0)), ("bones", JStr("not-an-array"))]);
      ValidateModel(JObj([("geometry.foo", geo)])) == None
  {
    var geo := JObj([("texturewidth", JNum(64.0)), ("textureheight", JNum(64.0)), ("bones", JStr("not-an-array"))]);
    assert IsGeometryKey("geometry.foo");
    assert IndexOf(geo.fields[2..], "bones") == Some(0);
    assert IndexOf(geo.fields[1..], "bones") == Some(1);
    assert Get(geo.fields, "bones") == Some(JStr("not-an-array"));
  }

  /** Why `loadModelFromFile` rejects. */
  datatype LoadError = ParseError | InvalidModel

  function LoadErrorMessage(e: LoadError): string {
    match e
    case ParseError => "无法解析模型文件。请确保是有效的 JSON 格式。"
    case InvalidModel => "无效的模型文件格式。请确保是正确的 Minecraft 自定义模型 JSON 文件。"
  }

  /** `loadModelFromFile` once the text is read: `parsed` is what `JSON.parse`
      produced, `None` when it threw. */
  function LoadModel(parsed: Option<Json>): (r: Result<CustomModel, LoadError>)
    ensures parsed.None? <==> r == Failure(ParseError)
    ensures r == Failure(InvalidModel) <==> parsed.Some? && ValidateModel(parsed.value).None?
    ensures r.Success? ==> parsed.Some? && ValidateModel(parsed.value) == Some(r.value)
  {
    match parsed
    case None => Failure(ParseError)
    case Some(json) =>
      match ValidateModel(json)
      case None => Failure(InvalidModel)
      case Some(model) => Success(model)
  }
}
