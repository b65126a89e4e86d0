/**
 * `src/utils/skinPackGenerator.ts`, `generateSkinPack`: the `manifest.json`
 * and `skins.json` documents, the merged `geometry.json`, and one PNG per
 * skin, written step by step into the archive, a map from file name to
 * content. The two manifest UUIDs and the PNG encoder are inputs.
 */
module SkinPackGenerator {
  import opened Wrappers
  import opened Json
  import opened JsStrings
  import opened SkinTypes

  datatype Header = Header(name: string, uuid: string, version: seq<int>)
  datatype PackModule = PackModule(moduleType: string, uuid: string, version: seq<int>)
  datatype Manifest = Manifest(formatVersion: int, header: Header, modules: seq<PackModule>)

  /** One entry of `skins.json`; a `None` geometry is `undefined`, which
      `JSON.stringify` leaves out. */
  datatype SkinEntry = SkinEntry(localizationName: string, geometry: Option<string>, texture: string, entryType: string)
  datatype SkinsIndex = SkinsIndex(skins: seq<SkinEntry>, serializeName: string, localizationName: string)

  datatype FileContent =
    | ManifestFile(manifest: Manifest)
    | SkinsFile(index: SkinsIndex)
    | GeometryFile(geometry: Fields)
    | PngFile(png: seq<byte>)

  /** The archive's entries; `Path` gives each its file name. */
  datatype FileName = ManifestJson | SkinsJson | GeometryJson | Texture(index: nat)

  type Archive = map<FileName, FileContent>

  /** Encodes a `width x height` canvas painted with the pixels; `None` when
      `toBlob` yields no blob. */
  type Encoder = (PixelGrid, int, int) -> Option<seq<byte>>

  const ManifestPath: string := "manifest.json"
  const SkinsPath: string := "skins.json"
  const GeometryPath: string := "geometry.json"
  const PackVersion: seq<int> := [1, 0, 0]
  const HumanoidCustom: string := "geometry.humanoid.custom"
  const HumanoidCustomSlim: string := "geometry.humanoid.customSlim"
  const ErrorPrefix: string := "Failed to generate skin pack: "
  const NoContextMessage: string := "Could not create canvas context"
  const NoBlobMessage: string := "Failed to create skin image"

  function BuildManifest(name: string, headerUuid: string, moduleUuid: string): (m: Manifest)
    ensures m.formatVersion == 1 && m.header.name == name && m.header.version == [1, 0, 0]
    ensures |m.modules| == 1 && m.modules[0].moduleType == "skin_pack" && m.modules[0].version == [1, 0, 0]
    ensures m.header.uuid == headerUuid && m.modules[0].uuid == moduleUuid
  {
    Manifest(1, Header(name, headerUuid, PackVersion), [PackModule("skin_pack", moduleUuid, PackVersion)])
  }

  /** The texture file name of the skin at position `index`. */
  function TextureName(index: nat): string {
    "skin_" + NatToString(index) + ".png"
  }

  /** Different positions give different texture names, so no PNG overwrites another. */
  lemma TextureNamesDistinct(i: nat, j: nat)
    requires i != j
    ensures TextureName(i) != TextureName(j)
  {
    if TextureName(i) == TextureName(j) {
      var a, b := NatToString(i), NatToString(j);
      assert |a| == |b|;
      assert a == TextureName(i)[5..5 + |a|];
      assert b == TextureName(j)[5..5 + |b|];
      NatToStringInjective(i, j);
    }
  }

  function Path(f: FileName): string {
    match f
    case ManifestJson => ManifestPath
    case SkinsJson => SkinsPath
    case GeometryJson => GeometryPath
    case Texture(i) => TextureName(i)
  }

  /** Different entries have different file names, so keying the archive by
      `FileName` is keying it by file name. */
  lemma PathInjective(f: FileName, g: FileName)
    requires f != g
    ensures Path(f) != Path(g)
  {
    if f.Texture? && g.Texture? {
      TextureNamesDistinct(f.index, g.index);
    } else if f.Texture? {
      TextureNameIsNotDocument(f.index);
    } else if g.Texture? {
      TextureNameIsNotDocument(g.index);
    } else {
      DocumentNamesDistinct();
    }
  }

  lemma DocumentNamesDistinct()
    ensures ManifestPath != SkinsPath && ManifestPath != GeometryPath && SkinsPath != GeometryPath
  {
    assert ManifestPath[0] == 'm' && GeometryPath[0] == 'g' && SkinsPath[0] == 's';
  }

  /** No texture name is one of the document names. */
  lemma TextureNameIsNotDocument(i: nat)
    ensures TextureName(i) != ManifestPath && TextureName(i) != SkinsPath && TextureName(i) != GeometryPath
  {
    var t := TextureName(i);
    assert t[0] == 's' && t[4] == '_';
    assert ManifestPath[0] == 'm' && GeometryPath[0] == 'g' && SkinsPath[4] == 's';
  }

  /** The `geometry` field of a skin's entry: the first key of its custom model
      when it has one, otherwise the built-in humanoid of its model type. */
  function GeometryRef(skin: Skin): Option<string> {
    match skin.customModel
    case Some(m) => if |m.entries| > 0 then Some(m.entries[0].0) else None
    case None => Some(if skin.modelType == Slim then HumanoidCustomSlim else HumanoidCustom)
  }

  function Entry(skin: Skin, index: nat): SkinEntry {
    SkinEntry(skin.name, GeometryRef(skin), TextureName(index), "free")
  }

  /** `skins.json`: one entry per skin, in pack order. */
  function BuildSkinsIndex(pack: SkinPack): (idx: SkinsIndex)
    ensures |idx.skins| == |pack.skins|
    ensures idx.serializeName == pack.name && idx.localizationName == pack.name
  {
    SkinsIndex(
      seq(|pack.skins|, i requires 0 <= i < |pack.skins| => Entry(pack.skins[i], i)),
      pack.name, pack.name)
  }

  /** What the index says about skin `i`. */
  lemma SkinsIndexEntry(pack: SkinPack, i: nat)
    requires i < |pack.skins|
    ensures var e := BuildSkinsIndex(pack).skins[i]; var s := pack.skins[i];
      && e.localizationName == s.name
      && e.texture == TextureName(i)
      && e.entryType == "free"
      && (s.customModel.None? && s.modelType == Classic ==> e.geometry == Some("geometry.humanoid.custom"))
      && (s.customModel.None? && s.modelType == Slim ==> e.geometry == Some("geometry.humanoid.customSlim"))
      && (s.customModel.Some? && |s.customModel.value.entries| > 0 ==>
            e.geometry == Some(s.customModel.value.entries[0].0))
  {
  }

  /** The models of the skins that carry one, in pack order. */
  function CustomModels(skins: seq<Skin>): (ms: seq<Fields>)
    ensures |ms| == 0 <==> forall i :: 0 <= i < |skins| ==> skins[i].customModel.None?
    decreases |skins|
  {
    if skins == [] then []
    else
      var rest := CustomModels(skins[..|skins| - 1]);
      var last := skins[|skins| - 1];
      assert forall i :: 0 <= i < |skins| - 1 ==> skins[..|skins| - 1][i] == skins[i];
      if last.customModel.Some? then rest + [last.customModel.value.entries] else rest
  }

  /** The models written one after another into an empty object, so that a
      later model overrides an earlier one key by key. */
  function Merge(models: seq<Fields>): Fields
    decreases |models|
  {
    if models == [] then [] else Assign(Merge(models[..|models| - 1]), models[|models| - 1])
  }

  /** The value the last model holding key `k` gives it. */
  function LastValue(models: seq<Fields>, k: string): Option<Json>
    decreases |models|
  {
    if models == [] then None
    else if HasKey(models[|models| - 1], k) then Get(models[|models| - 1], k)
    else LastValue(models[..|models| - 1], k)
  }

  /** In the merged document every key reads the value of the last model that
      has it: later models win. */
  lemma {:induction false} MergeGet(models: seq<Fields>, k: string)
    requires forall i :: 0 <= i < |models| ==> UniqueKeys(models[i])
    ensures Get(Merge(models), k) == LastValue(models, k)
    decreases |models|
  {
    if models != [] {
      var init := models[..|models| - 1];
      assert forall i :: 0 <= i < |init| ==> init[i] == models[i];
      MergeGet(init, k);
      AssignGet(Merge(init), models[|models| - 1], k);
    }
  }

  /** A key keeps the position of its first occurrence, so the merged document
      starts with the first key of the first model. */
  lemma {:induction false} MergeKeepsFirstKey(models: seq<Fields>)
    requires |models| > 0 && |models[0]| > 0
    ensures |Merge(models)| > 0 && Merge(models)[0].0 == models[0][0].0
    decreases |models|
  {
    var init, last := models[..|models| - 1], models[|models| - 1];
    var r := Merge(models);
    assert r == Assign(Merge(init), last);
    if |models| == 1 {
      var m := models[0];
      var first := [m[0]];
      assert Merge(init) == [];
      assert Put([], m[0].0, m[0].1) == first;
      assert r == Assign(first, m[1..]);
      AssignKeepsPrefix(first, m[1..]);
      assert Keys(r)[..1] == Keys(first);
      assert Keys(r)[0] == Keys(r)[..1][0];
    } else {
      assert init[0] == models[0];
      MergeKeepsFirstKey(init);
      AssignKeepsPrefix(Merge(init), last);
      var p := |Merge(init)|;
      assert Keys(r)[..p] == Keys(Merge(init));
      assert Keys(r)[0] == Keys(r)[..p][0];
    }
  }

  /** Merging copies of one model gives back that model. */
  lemma {:induction false} MergeCopies(models: seq<Fields>, m: Fields)
    requires |models| > 0 && UniqueKeys(m)
    requires forall i :: 0 <= i < |models| ==> models[i] == m
    ensures Merge(models) == m
    decreases |models|
  {
    if |models| == 1 {
      AssignFresh([], m);
      assert Merge(models) == Assign([], m);
    } else {
      var init := models[..|models| - 1];
      MergeCopies(init, m);
      forall j | 0 <= j < |m| ensures Get(m, m[j].0) == Some(m[j].1) {
        assert IndexOf(m, m[j].0) == Some(j);
      }
      AssignSame(m, m);
    }
  }

  /** The model of skin `s` defines key `k`. */
  predicate HoldsKey(s: Skin, k: string) {
    s.customModel.Some? && HasKey(s.customModel.value.entries, k)
  }

  /** Skin `i` is the last skin of the pack whose model defines `k`. */
  predicate LastHolder(skins: seq<Skin>, k: string, i: int) {
    0 <= i < |skins| && HoldsKey(skins[i], k)
    && forall j :: i < j < |skins| ==> !HoldsKey(skins[j], k)
  }

  /** The models collected are exactly the models the skins carry. */
  lemma {:induction false} CustomModelsMembers(skins: seq<Skin>)
    ensures forall t :: 0 <= t < |CustomModels(skins)| ==>
      exists i :: 0 <= i < |skins| && skins[i].customModel == Some(CustomModel(CustomModels(skins)[t]))
    ensures forall i :: 0 <= i < |skins| && skins[i].customModel.Some? ==>
      skins[i].customModel.value.entries in CustomModels(skins)
    decreases |skins|
  {
    if skins != [] {
      var init, last := skins[..|skins| - 1], skins[|skins| - 1];
      CustomModelsMembers(init);
      assert forall i :: 0 <= i < |init| ==> init[i] == skins[i];
      var ms, rest := CustomModels(skins), CustomModels(init);
      forall t | 0 <= t < |ms|
        ensures exists i :: 0 <= i < |skins| && skins[i].customModel == Some(CustomModel(ms[t]))
      {
        if t < |rest| {
          assert ms[t] == rest[t];
          var i :| 0 <= i < |init| && init[i].customModel == Some(CustomModel(rest[t]));
          assert skins[i] == init[i];
        } else {
          assert ms == rest + [last.customModel.value.entries];
          assert skins[|skins| - 1].customModel == Some(CustomModel(ms[t]));
        }
      }
      forall i | 0 <= i < |skins| && skins[i].customModel.Some?
        ensures skins[i].customModel.value.entries in ms
      {
        if i < |init| {
          assert init[i] == skins[i];
          assert ms == rest || ms == rest + [last.customModel.value.entries];
        }
      }
      assert forall t :: 0 <= t < |ms| ==>
        exists i :: 0 <= i < |skins| && skins[i].customModel == Some(CustomModel(ms[t]));
    } else {
      assert CustomModels(skins) == [];
    }
  }

  /** Each model collected has unique keys when every skin's model has. */
  lemma CustomModelsUnique(skins: seq<Skin>)
    requires forall i :: 0 <= i < |skins| && skins[i].customModel.Some? ==>
      UniqueKeys(skins[i].customModel.value.entries)
    ensures forall t :: 0 <= t < |CustomModels(skins)| ==> UniqueKeys(CustomModels(skins)[t])
  {
    CustomModelsMembers(skins);
    forall t | 0 <= t < |CustomModels(skins)| ensures UniqueKeys(CustomModels(skins)[t]) {
      var i :| 0 <= i < |skins| && skins[i].customModel == Some(CustomModel(CustomModels(skins)[t]));
    }
  }

  /** Over the collected models, the last value of `k` is the one the last
      skin holding `k` gives it, and there is none when no skin holds `k`. */
  lemma {:induction false} LastValueOfSkins(skins: seq<Skin>, k: string)
    ensures var v := LastValue(CustomModels(skins), k);
      && (v.None? <==> forall i :: 0 <= i < |skins| ==> !HoldsKey(skins[i], k))
      && (v.Some? ==> exists i :: LastHolder(skins, k, i) && v == Get(skins[i].customModel.value.entries, k))
    decreases |skins|
  {
    if skins != [] {
      var n := |skins| - 1;
      var init, last := skins[..n], skins[n];
      LastValueOfSkins(init, k);
      LastValueStep(skins, k);
      if HoldsKey(last, k) {
        assert LastHolder(skins, k, n);
      } else {
        LastHolderExtend(skins, k);
      }
    }
  }

  /** One more skin at the end: its model's value of `k` wins when it has one. */
  lemma LastValueStep(skins: seq<Skin>, k: string)
    requires skins != []
    ensures var n := |skins| - 1;
      LastValue(CustomModels(skins), k) ==
        if HoldsKey(skins[n], k) then Get(skins[n].customModel.value.entries, k)
        else LastValue(CustomModels(skins[..n]), k)
  {
    var n := |skins| - 1;
    var rest := CustomModels(skins[..n]);
    if skins[n].customModel.Some? {
      var e := skins[n].customModel.value.entries;
      assert CustomModels(skins) == rest + [e];
      assert (rest + [e])[..|rest|] == rest;
    }
  }

  /** When the last skin does not hold `k`, the holders of `k` and the last of
      them are those of the skins before it. */
  lemma LastHolderExtend(skins: seq<Skin>, k: string)
    requires skins != [] && !HoldsKey(skins[|skins| - 1], k)
    ensures var init := skins[..|skins| - 1];
      && ((forall i :: 0 <= i < |init| ==> !HoldsKey(init[i], k)) <==>
          (forall i :: 0 <= i < |skins| ==> !HoldsKey(skins[i], k)))
      && forall i :: LastHolder(init, k, i) ==> LastHolder(skins, k, i) && init[i] == skins[i]
  {
    var n := |skins| - 1;
    var init := skins[..n];
    if forall i :: 0 <= i < |init| ==> !HoldsKey(init[i], k) {
      forall i | 0 <= i < |skins| ensures !HoldsKey(skins[i], k) {
        if i < n { assert init[i] == skins[i]; }
      }
    }
    if forall i :: 0 <= i < |skins| ==> !HoldsKey(skins[i], k) {
      forall i | 0 <= i < |init| ensures !HoldsKey(init[i], k) {
        assert init[i] == skins[i];
      }
    }
    forall i | LastHolder(init, k, i) ensures LastHolder(skins, k, i) && init[i] == skins[i] {
      assert init[i] == skins[i];
      forall j | i < j < |skins| ensures !HoldsKey(skins[j], k) {
        if j < n { assert init[j] == skins[j]; }
      }
    }
  }

  /** `geometry.json` exists iff some skin has a custom model. */
  function GeometryDocument(skins: seq<Skin>): (doc: Option<Fields>)
    ensures doc.Some? <==> exists i :: 0 <= i < |skins| && skins[i].customModel.Some?
  {
    var models := CustomModels(skins);
    if |models| > 0 then Some(Merge(models)) else None
  }

  /** The documents of the archive. */
  /** In `geometry.json` every key has the value the last skin in pack order
      whose model defines it gives it, and a key no skin's model defines is
      absent. */
  lemma GeometryValue(skins: seq<Skin>, k: string)
    requires forall i :: 0 <= i < |skins| && skins[i].customModel.Some? ==>
      UniqueKeys(skins[i].customModel.value.entries)
    requires GeometryDocument(skins).Some?
    ensures var v := Get(GeometryDocument(skins).value, k);
      && (v.None? <==> forall i :: 0 <= i < |skins| ==> !HoldsKey(skins[i], k))
      && (v.Some? ==> exists i :: LastHolder(skins, k, i) && v == Get(skins[i].customModel.value.entries, k))
  {
    CustomModelsUnique(skins);
    MergeGet(CustomModels(skins), k);
    LastValueOfSkins(skins, k);
  }

  function Documents(pack: SkinPack, headerUuid: string, moduleUuid: string): Archive {
    var docs := map[ManifestJson := ManifestFile(BuildManifest(pack.name, headerUuid, moduleUuid)),
                    SkinsJson := SkinsFile(BuildSkinsIndex(pack))];
    match GeometryDocument(pack.skins)
    case None => docs
    case Some(g) => docs[GeometryJson := GeometryFile(g)]
  }

  function Png(encode: Encoder, skin: Skin): Option<seq<byte>> {
    encode(skin.pixels, skin.width, skin.height)
  }

  /** The PNGs of the first `k` skins. */
  function PngFiles(skins: seq<Skin>, encode: Encoder, k: nat): Archive
    requires k <= |skins| && forall i :: 0 <= i < k ==> Png(encode, skins[i]).Some?
  {
    if k == 0 then map[]
    else PngFiles(skins, encode, k - 1)[Texture(k - 1) := PngFile(Png(encode, skins[k - 1]).value)]
  }

  predicate AllEncoded(skins: seq<Skin>, encode: Encoder) {
    forall i :: 0 <= i < |skins| ==> Png(encode, skins[i]).Some?
  }

  /** What `generateSkinPack` resolves to or rejects with. `hasContext` says
      whether the canvas yields a 2D context. */
  function Generate(pack: SkinPack, headerUuid: string, moduleUuid: string, hasContext: bool, encode: Encoder)
    : Result<Archive, string>
  {
    if |pack.skins| > 0 && !hasContext then Failure(ErrorPrefix + NoContextMessage)
    else if !AllEncoded(pack.skins, encode) then Failure(ErrorPrefix + NoBlobMessage)
    else Success(Documents(pack, headerUuid, moduleUuid) + PngFiles(pack.skins, encode, |pack.skins|))
  }

  /** `generateSkinPack`, with the PNG fan-out written as a loop over the skins. */
  method GenerateSkinPack(pack: SkinPack, headerUuid: string, moduleUuid: string, hasContext: bool, encode: Encoder)
    returns (r: Result<Archive, string>)
    ensures r == Generate(pack, headerUuid, moduleUuid, hasContext, encode)
  {
    var zip: Archive := map[];
    zip := zip[ManifestJson := ManifestFile(BuildManifest(pack.name, headerUuid, moduleUuid))];
    zip := zip[SkinsJson := SkinsFile(BuildSkinsIndex(pack))];
    var customModels := CustomModels(pack.skins);
    if |customModels| > 0 {
      zip := zip[GeometryJson := GeometryFile(Merge(customModels))];
    }
    var i := 0;
    while i < |pack.skins|
      invariant 0 <= i <= |pack.skins|
      invariant i > 0 ==> hasContext
      invariant forall j :: 0 <= j < i ==> Png(encode, pack.skins[j]).Some?
      invariant zip == Documents(pack, headerUuid, moduleUuid) + PngFiles(pack.skins, encode, i)
    {
      if !hasContext {
        return Failure(ErrorPrefix + NoContextMessage);
      }
      var skin := pack.skins[i];
      var blob := encode(skin.pixels, skin.width, skin.height);
      if blob.None? {
        assert Png(encode, pack.skins[i]).None?;
        return Failure(ErrorPrefix + NoBlobMessage);
      }
      AddPng(Documents(pack, headerUuid, moduleUuid), PngFiles(pack.skins, encode, i), Texture(i), PngFile(blob.value));
      zip := zip[Texture(i) := PngFile(blob.value)];
      i := i + 1;
    }
    return Success(zip);
  }

  /** Adding a file to the PNG part of a union adds it to the union. */
  lemma AddPng(docs: Archive, pngs: Archive, f: FileName, c: FileContent)
    ensures (docs + pngs)[f := c] == docs + pngs[f := c]
  {
  }

  function Textures(n: nat): set<FileName> {
    set i: nat | i < n :: Texture(i)
  }

  lemma {:induction false} PngFilesKeys(skins: seq<Skin>, encode: Encoder, k: nat)
    requires k <= |skins| && forall i :: 0 <= i < k ==> Png(encode, skins[i]).Some?
    ensures PngFiles(skins, encode, k).Keys == Textures(k)
    ensures forall i :: 0 <= i < k ==>
      Texture(i) in PngFiles(skins, encode, k) &&
      PngFiles(skins, encode, k)[Texture(i)] == PngFile(Png(encode, skins[i]).value)
    decreases k
  {
    if k > 0 {
      PngFilesKeys(skins, encode, k - 1);
      assert Textures(k) == Textures(k - 1) + {Texture(k - 1)};
    }
  }

  /** The archive holds `manifest.json`, `skins.json`, `geometry.json` when some
      skin has a model, and `skin_0.png` to `skin_{n-1}.png`, nothing else; each
      PNG is skin `i`'s encoding at its own size, under the name the index gives
      skin `i` as its texture. */
  lemma ArchiveContents(pack: SkinPack, headerUuid: string, moduleUuid: string, hasContext: bool, encode: Encoder)
    requires Generate(pack, headerUuid, moduleUuid, hasContext, encode).Success?
    ensures var a := Generate(pack, headerUuid, moduleUuid, hasContext, encode).value;
      var n := |pack.skins|;
      var geo := GeometryDocument(pack.skins);
      && a.Keys == {ManifestJson, SkinsJson} + (if geo.Some? then {GeometryJson} else {}) + Textures(n)
      && a[ManifestJson] == ManifestFile(BuildManifest(pack.name, headerUuid, moduleUuid))
      && a[SkinsJson] == SkinsFile(BuildSkinsIndex(pack))
      && (geo.Some? ==> a[GeometryJson] == GeometryFile(geo.value))
      && forall i :: 0 <= i < n ==>
           && BuildSkinsIndex(pack).skins[i].texture == Path(Texture(i))
           && Texture(i) in a
           && a[Texture(i)] == PngFile(encode(pack.skins[i].pixels, pack.skins[i].width, pack.skins[i].height).value)
  {
    ArchiveDocuments(pack, headerUuid, moduleUuid, hasContext, encode);
    ArchiveTextures(pack, headerUuid, moduleUuid, hasContext, encode);
  }

  /** A successful archive is the documents and the PNGs of all skins. */
  lemma ArchiveParts(pack: SkinPack, headerUuid: string, moduleUuid: string, hasContext: bool, encode: Encoder)
    requires Generate(pack, headerUuid, moduleUuid, hasContext, encode).Success?
    ensures AllEncoded(pack.skins, encode)
    ensures Generate(pack, headerUuid, moduleUuid, hasContext, encode).value ==
      Documents(pack, headerUuid, moduleUuid) + PngFiles(pack.skins, encode, |pack.skins|)
  {
  }

  /** The document part: the names, and the manifest, index and geometry. */
  lemma ArchiveDocuments(pack: SkinPack, headerUuid: string, moduleUuid: string, hasContext: bool, encode: Encoder)
    requires Generate(pack, headerUuid, moduleUuid, hasContext, encode).Success?
    ensures var a := Generate(pack, headerUuid, moduleUuid, hasContext, encode).value;
      var geo := GeometryDocument(pack.skins);
      && a.Keys == {ManifestJson, SkinsJson} + (if geo.Some? then {GeometryJson} else {}) + Textures(|pack.skins|)
      && a[ManifestJson] == ManifestFile(BuildManifest(pack.name, headerUuid, moduleUuid))
      && a[SkinsJson] == SkinsFile(BuildSkinsIndex(pack))
      && (geo.Some? ==> a[GeometryJson] == GeometryFile(geo.value))
  {
    ArchiveParts(pack, headerUuid, moduleUuid, hasContext, encode);
    var n := |pack.skins|;
    var docs, pngs := Documents(pack, headerUuid, moduleUuid), PngFiles(pack.skins, encode, n);
    DocumentsContents(pack, headerUuid, moduleUuid);
    PngFilesKeys(pack.skins, encode, n);
    DocumentsOverPngs(docs, pngs, n);
  }

  /** Entries that are not textures are the documents' own. */
  lemma DocumentsOverPngs(docs: Archive, pngs: Archive, n: nat)
    requires pngs.Keys == Textures(n)
    ensures (docs + pngs).Keys == docs.Keys + Textures(n)
    ensures forall f :: f in docs && !f.Texture? ==> (docs + pngs)[f] == docs[f]
  {
  }

  /** The texture part: PNG `i` is skin `i`'s encoding, at the index's texture name. */
  lemma ArchiveTextures(pack: SkinPack, headerUuid: string, moduleUuid: string, hasContext: bool, encode: Encoder)
    requires Generate(pack, headerUuid, moduleUuid, hasContext, encode).Success?
    ensures var a := Generate(pack, headerUuid, moduleUuid, hasContext, encode).value;
      forall i :: 0 <= i < |pack.skins| ==>
           && BuildSkinsIndex(pack).skins[i].texture == Path(Texture(i))
           && Texture(i) in a
           && a[Texture(i)] == PngFile(encode(pack.skins[i].pixels, pack.skins[i].width, pack.skins[i].height).value)
  {
    ArchiveParts(pack, headerUuid, moduleUuid, hasContext, encode);
    var n := |pack.skins|;
    var docs, pngs := Documents(pack, headerUuid, moduleUuid), PngFiles(pack.skins, encode, n);
    PngFilesKeys(pack.skins, encode, n);
    forall i | 0 <= i < n
      ensures BuildSkinsIndex(pack).skins[i].texture == Path(Texture(i))
      ensures Texture(i) in docs + pngs && (docs + pngs)[Texture(i)] == pngs[Texture(i)]
    {
      SkinsIndexEntry(pack, i);
    }
  }

  lemma DocumentsContents(pack: SkinPack, headerUuid: string, moduleUuid: string)
    ensures var docs := Documents(pack, headerUuid, moduleUuid);
      var geo := GeometryDocument(pack.skins);
      && docs.Keys == {ManifestJson, SkinsJson} + (if geo.Some? then {GeometryJson} else {})
      && docs[ManifestJson] == ManifestFile(BuildManifest(pack.name, headerUuid, moduleUuid))
      && docs[SkinsJson] == SkinsFile(BuildSkinsIndex(pack))
      && (geo.Some? ==> docs[GeometryJson] == GeometryFile(geo.value))
  {
  }

  lemma {:induction false} TexturesCount(n: nat)
    ensures |Textures(n)| == n
    decreases n
  {
    if n > 0 {
      TexturesCount(n - 1);
      assert Textures(n) == Textures(n - 1) + {Texture(n - 1)};
    } else {
      assert Textures(0) == {};
    }
  }

  /** The archive holds two or three documents and exactly one PNG per skin;
      since `Path` is injective these are as many distinct file names. */
  lemma ArchiveSize(pack: SkinPack, headerUuid: string, moduleUuid: string, hasContext: bool, encode: Encoder)
    requires Generate(pack, headerUuid, moduleUuid, hasContext, encode).Success?
    ensures |Generate(pack, headerUuid, moduleUuid, hasContext, encode).value| ==
      |pack.skins| + (if GeometryDocument(pack.skins).Some? then 3 else 2)
  {
    ArchiveContents(pack, headerUuid, moduleUuid, hasContext, encode);
    var geo := GeometryDocument(pack.skins).Some?;
    var docs: set<FileName> := {ManifestJson, SkinsJson} + (if geo then {GeometryJson} else {});
    DocumentCount(geo, docs);
    ArchiveKeysCount(Generate(pack, headerUuid, moduleUuid, hasContext, encode).value, docs, |pack.skins|);
  }

  lemma DocumentCount(geo: bool, docs: set<FileName>)
    requires docs == {ManifestJson, SkinsJson} + (if geo then {GeometryJson} else {})
    ensures |docs| == (if geo then 3 else 2) && forall f :: f in docs ==> !f.Texture?
  {
  }

  lemma ArchiveKeysCount(a: Archive, docs: set<FileName>, n: nat)
    requires forall f :: f in docs ==> !f.Texture?
    requires a.Keys == docs + Textures(n)
    ensures |a| == |docs| + n
  {
    TexturesCount(n);
    assert docs !! Textures(n);
    assert |a| == |a.Keys|;
  }

  /** A pack with no skins is not refused: the archive holds the manifest and an
      index with no entries, nothing else. */
  lemma EmptyPackArchive(pack: SkinPack, headerUuid: string, moduleUuid: string, hasContext: bool, encode: Encoder)
    requires pack.skins == []
    ensures var r := Generate(pack, headerUuid, moduleUuid, hasContext, encode);
      && r.Success?
      && r.value.Keys == {ManifestJson, SkinsJson}
      && r.value[SkinsJson].index.skins == []
  {
    ArchiveContents(pack, headerUuid, moduleUuid, hasContext, encode);
    assert Textures(0) == {};
  }

  /** Every rejection carries the `Failed to generate skin pack: ` prefix. */
  lemma FailuresArePrefixed(pack: SkinPack, headerUuid: string, moduleUuid: string, hasContext: bool, encode: Encoder)
    requires Generate(pack, headerUuid, moduleUuid, hasContext, encode).Failure?
    ensures StartsWith(Generate(pack, headerUuid, moduleUuid, hasContext, encode).error, ErrorPrefix)
    ensures !hasContext || !AllEncoded(pack.skins, encode)
  {
    var e := Generate(pack, headerUuid, moduleUuid, hasContext, encode).error;
    assert e[..|ErrorPrefix|] == ErrorPrefix;
  }

  /** For a pack whose every skin carries the same model, `geometry.json` is that
      model and every entry names its first key. */
  lemma SharedModelPack(pack: SkinPack, m: CustomModel)
    requires |pack.skins| > 0 && |m.entries| > 0 && UniqueKeys(m.entries)
    requires forall i :: 0 <= i < |pack.skins| ==> pack.skins[i].customModel == Some(m)
    ensures GeometryDocument(pack.skins) == Some(m.entries)
    ensures forall i :: 0 <= i < |pack.skins| ==> BuildSkinsIndex(pack).skins[i].geometry == Some(m.entries[0].0)
  {
    AllCopies(pack.skins, m);
    MergeCopies(CustomModels(pack.skins), m.entries);
  }

  lemma {:induction false} AllCopies(skins: seq<Skin>, m: CustomModel)
    requires forall i :: 0 <= i < |skins| ==> skins[i].customModel == Some(m)
    ensures |CustomModels(skins)| == |skins|
    ensures forall i :: 0 <= i < |skins| ==> CustomModels(skins)[i] == m.entries
    decreases |skins|
  {
    if skins != [] {
      AllCopies(skins[..|skins| - 1], m);
    }
  }
}
