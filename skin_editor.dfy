/**
 * The editor component of `src/components/SkinEditor.tsx`: the same pack state
 * as the store, kept by the component's own setters, plus the pack type, the
 * error banner, the download guards and the `.mcpack` file name. `confirm()`
 * becomes a boolean argument, and the ids, the header and module UUIDs, the
 * canvas and the PNG encoder are injected.
 */
module Editor {
  import opened Wrappers
  import opened JsStrings
  import opened SkinTypes
  import opened SkinOps
  import opened Store
  import opened SkinPackGenerator

  const NoSkinsMessage: string := "请至少添加一个皮肤到皮肤包中"
  const NoNameMessage: string := "请输入皮肤包名称"
  const NoModelMessage: string := "请上传4D/5D模型文件"
  const McpackSuffix: string := ".mcpack"

  /** The three download guards, checked in order; `None` lets the download go on. */
  function DownloadGuard(skins: seq<Skin>, packName: string, packType: Option<PackType>, customModel: Option<CustomModel>)
    : (r: Option<string>)
    ensures r.None? <==> |skins| > 0 && !AllWhitespace(packName) && (packType == Some(Custom) ==> customModel.Some?)
    ensures |skins| == 0 ==> r == Some(NoSkinsMessage)
    ensures |skins| > 0 && AllWhitespace(packName) ==> r == Some(NoNameMessage)
    ensures |skins| > 0 && !AllWhitespace(packName) && packType == Some(Custom) && customModel.None? ==>
      r == Some(NoModelMessage)
  {
    if |skins| == 0 then Some(NoSkinsMessage)
    else if Trim(packName) == [] then Some(NoNameMessage)
    else if packType == Some(Custom) && customModel.None? then Some(NoModelMessage)
    else None
  }

  /** The `disabled` condition of the download button. */
  predicate DownloadDisabled(skins: seq<Skin>, packType: Option<PackType>, customModel: Option<CustomModel>) {
    |skins| == 0 || (packType == Some(Custom) && customModel.None?)
  }

  /** A disabled button stands for a refused download, and the one refusal an
      enabled button still meets is the blank name. */
  lemma DisabledMeansRefused(skins: seq<Skin>, packName: string, packType: Option<PackType>, customModel: Option<CustomModel>)
    ensures DownloadDisabled(skins, packType, customModel) ==> DownloadGuard(skins, packName, packType, customModel).Some?
    ensures !DownloadDisabled(skins, packType, customModel) ==>
      (DownloadGuard(skins, packName, packType, customModel).Some? <==> AllWhitespace(packName))
    ensures !DownloadDisabled(skins, packType, customModel) && AllWhitespace(packName) ==>
      DownloadGuard(skins, packName, packType, customModel) == Some(NoNameMessage)
  {
  }

  /** The name the archive is saved under: the pack name lower-cased, every
      whitespace run turned into one `_`, then `.mcpack`. */
  function DownloadFileName(packName: string): (r: string)
    ensures |r| >= |McpackSuffix| && r[|r| - |McpackSuffix|..] == McpackSuffix
    ensures NoWhitespace(r)
  {
    var stem := ReplaceWhitespaceRuns(ToLowerCase(packName));
    assert NoWhitespace(McpackSuffix);
    stem + McpackSuffix
  }

  /** A name that is already lower case and has no whitespace is kept as it is. */
  lemma PlainNameKept(packName: string)
    requires NoWhitespace(packName) && ToLowerCase(packName) == packName
    ensures DownloadFileName(packName) == packName + McpackSuffix
  {
    ReplaceIdentityWithoutWhitespace(packName);
  }

  /** Two words with a run of whitespace between them give the lower-cased
      words joined by a single `_`. */
  lemma TwoWordFileName(first: string, run: string, second: string)
    requires NoWhitespace(first) && NoWhitespace(second)
    requires run != [] && AllWhitespace(run)
    ensures DownloadFileName(first + run + second) ==
      ToLowerCase(first) + "_" + ToLowerCase(second) + McpackSuffix
  {
    var a, w, b := ToLowerCase(first), ToLowerCase(run), ToLowerCase(second);
    LowerConcat(first, run);
    LowerConcat(first + run, second);
    LowerKeepsClass(first);
    LowerKeepsClass(run);
    LowerKeepsClass(second);
    assert ToLowerCase(first + run + second) == a + (w + b);
    ReplaceTwoWords(a, w, b);
    assert a + (['_'] + b) + McpackSuffix == a + "_" + b + McpackSuffix;
  }

  lemma LowerConcat(x: string, y: string)
    ensures ToLowerCase(x + y) == ToLowerCase(x) + ToLowerCase(y)
  {
  }

  /** Lower-casing neither adds nor removes whitespace. */
  lemma LowerKeepsClass(s: string)
    ensures NoWhitespace(s) ==> NoWhitespace(ToLowerCase(s))
    ensures AllWhitespace(s) ==> AllWhitespace(ToLowerCase(s))
  {
    forall i | 0 <= i < |s| ensures IsWhitespace(ToLowerCase(s)[i]) <==> IsWhitespace(s[i]) {
      LowerKeepsWhitespace(s[i]);
    }
  }

  lemma ReplaceTwoWords(a: string, w: string, b: string)
    requires NoWhitespace(a) && NoWhitespace(b)
    requires w != [] && AllWhitespace(w)
    ensures ReplaceWhitespaceRuns(a + (w + b)) == a + (['_'] + b)
  {
    assert b == [] || !IsWhitespace(b[0]);
    calc {
      ReplaceWhitespaceRuns(a + (w + b));
    == { ReplaceSplit(a, w + b); }
      a + ReplaceWhitespaceRuns(w + b);
    == { ReplaceRun(w, b); }
      a + (['_'] + ReplaceWhitespaceRuns(b));
    == { ReplaceIdentityWithoutWhitespace(b); }
      a + (['_'] + b);
    }
  }

  /** A whitespace-free head is kept and the rest is replaced on its own. */
  lemma {:induction false} ReplaceSplit(w: string, t: string)
    requires NoWhitespace(w)
    ensures ReplaceWhitespaceRuns(w + t) == w + ReplaceWhitespaceRuns(t)
    decreases |w|
  {
    if w != [] {
      assert (w + t)[0] == w[0];
      assert (w + t)[1..] == w[1..] + t;
      ReplaceSplit(w[1..], t);
    } else {
      assert w + t == t;
    }
  }

  class SkinEditor {
    var packType: Option<PackType>
    var skins: seq<Skin>
    var selectedSkinId: Option<string>
    var packName: string
    var packDescription: string
    var error: Option<string>
    var customModel: Option<CustomModel>

    /** Ids are distinct, and a selection names a listed skin. */
    ghost predicate Valid()
      reads this
    {
      DistinctIds(skins) && (selectedSkinId.Some? ==> HasId(skins, selectedSkinId.value))
    }

    constructor ()
      ensures Valid()
      ensures packType == None && skins == [] && selectedSkinId == None
      ensures packName == DefaultPackName && packDescription == DefaultPackDescription
      ensures error == None && customModel == None
    {
      packType := None;
      skins := [];
      selectedSkinId := None;
      packName := DefaultPackName;
      packDescription := DefaultPackDescription;
      error := None;
      customModel := None;
    }

    /** `selectedSkin`, as in the store. */
    function SelectedSkin(): (r: Option<Skin>)
      reads this
      ensures r.Some? <==> IsSetId(selectedSkinId) && HasId(skins, selectedSkinId.value)
      ensures r.Some? ==> r.value in skins && r.value.id == selectedSkinId.value
    {
      if IsSetId(selectedSkinId) then Find(skins, selectedSkinId.value) else None
    }

    /** `handleSkinUpload`: append one skin, select it and clear the error. */
    method HandleSkinUpload(id: string, pixels: PixelGrid, width: int, height: int, modelType: ModelType)
      requires Valid() && !HasId(skins, id)
      modifies this
      ensures Valid()
      ensures skins == old(skins) + [NewSkin(id, pixels, width, height, modelType, |old(skins)|,
                                             ModelForNewSkin(old(packType), old(customModel)))]
      ensures selectedSkinId == Some(id) && error == None
      ensures packType == old(packType) && customModel == old(customModel)
      ensures packName == old(packName) && packDescription == old(packDescription)
    {
      var skin := NewSkin(id, pixels, width, height, modelType, |skins|,
                          ModelForNewSkin(packType, customModel));
      AppendFresh(skins, skin);
      skins := skins + [skin];
      selectedSkinId := Some(id);
      error := None;
    }

    /** `handleModelUpload`: the pack model, every listed skin's model, and no error. */
    method HandleModelUpload(model: CustomModel)
      requires Valid()
      modifies this
      ensures Valid()
      ensures customModel == Some(model) && skins == AttachModel(old(skins), model) && error == None
      ensures packType == old(packType) && selectedSkinId == old(selectedSkinId)
      ensures packName == old(packName) && packDescription == old(packDescription)
    {
      SameIds(skins, AttachModel(skins, model));
      customModel := Some(model);
      skins := AttachModel(skins, model);
      error := None;
    }

    /** `handleSkinDelete`: filter the id out; drop the selection only if it was that id. */
    method HandleSkinDelete(id: string)
      requires Valid()
      modifies this
      ensures Valid()
      ensures skins == RemoveId(old(skins), id)
      ensures selectedSkinId == if old(selectedSkinId) == Some(id) then None else old(selectedSkinId)
      ensures packType == old(packType) && customModel == old(customModel) && error == old(error)
      ensures packName == old(packName) && packDescription == old(packDescription)
    {
      RemoveKeepsDistinct(skins, id);
      if selectedSkinId.Some? {
        RemoveHasId(skins, id, selectedSkinId.value);
      }
      skins := RemoveId(skins, id);
      if selectedSkinId == Some(id) {
        selectedSkinId := None;
      }
    }

    /** `handleSkinRename`: a `map` that renames the skins with that id. */
    method HandleSkinRename(id: string, newName: string)
      requires Valid()
      modifies this
      ensures Valid()
      ensures skins == RenameAll(old(skins), id, newName)
      ensures selectedSkinId == old(selectedSkinId)
      ensures packType == old(packType) && customModel == old(customModel) && error == old(error)
      ensures packName == old(packName) && packDescription == old(packDescription)
    {
      SameIds(skins, RenameAll(skins, id, newName));
      skins := RenameAll(skins, id, newName);
    }

    /** `handleModelTypeChange`: retype the selected skin; nothing when no skin is selected. */
    method HandleModelTypeChange(modelType: ModelType)
      requires Valid()
      modifies this
      ensures Valid()
      ensures skins == if IsSetId(old(selectedSkinId))
                       then SetModelTypeWhere(old(skins), old(selectedSkinId).value, modelType)
                       else old(skins)
      ensures selectedSkinId == old(selectedSkinId)
      ensures packType == old(packType) && customModel == old(customModel) && error == old(error)
      ensures packName == old(packName) && packDescription == old(packDescription)
    {
      if IsSetId(selectedSkinId) {
        SameIds(skins, SetModelTypeWhere(skins, selectedSkinId.value, modelType));
        skins := SetModelTypeWhere(skins, selectedSkinId.value, modelType);
      }
    }

    /** `handleReset`: with skins listed and the confirmation declined, nothing;
        otherwise every field back to its initial value. */
    method HandleReset(confirmed: bool)
      requires Valid()
      modifies this
      ensures Valid()
      ensures |old(skins)| > 0 && !confirmed ==>
        && packType == old(packType) && skins == old(skins) && selectedSkinId == old(selectedSkinId)
        && packName == old(packName) && packDescription == old(packDescription)
        && error == old(error) && customModel == old(customModel)
      ensures |old(skins)| == 0 || confirmed ==>
        && packType == None && skins == [] && selectedSkinId == None
        && packName == DefaultPackName && packDescription == DefaultPackDescription
        && error == None && customModel == None
    {
      if |skins| > 0 && !confirmed {
        return;
      }
      packType := None;
      skins := [];
      selectedSkinId := None;
      packName := DefaultPackName;
      packDescription := DefaultPackDescription;
      error := None;
      customModel := None;
    }

    /** The pack-type chooser's `onSelect`. */
    method SelectPackType(t: PackType)
      modifies this
      ensures packType == Some(t)
      ensures skins == old(skins) && selectedSkinId == old(selectedSkinId) && error == old(error)
      ensures customModel == old(customModel)
      ensures packName == old(packName) && packDescription == old(packDescription)
    {
      packType := Some(t);
    }

    /** The skin list's `onSelect`: it only offers listed skins. */
    method SelectSkin(id: string)
      requires Valid() && HasId(skins, id)
      modifies this
      ensures Valid()
      ensures selectedSkinId == Some(id)
      ensures packType == old(packType) && skins == old(skins) && error == old(error)
      ensures customModel == old(customModel)
      ensures packName == old(packName) && packDescription == old(packDescription)
    {
      selectedSkinId := Some(id);
    }

    /** The name and description inputs. */
    method SetPackDetails(name: string, description: string)
      modifies this
      ensures packName == name && packDescription == description
      ensures packType == old(packType) && skins == old(skins) && selectedSkinId == old(selectedSkinId)
      ensures error == old(error) && customModel == old(customModel)
    {
      packName := name;
      packDescription := description;
    }

    /** `handleDownload`: the archive to save, if any, and the new error banner
        are those `DownloadOutcome` gives for the state before the click. */
    method HandleDownload(headerUuid: string, moduleUuid: string, hasContext: bool, encode: Encoder)
      returns (download: Option<(string, Archive)>)
      modifies this
      ensures var pack := SkinPack(old(packName), old(packDescription), old(skins));
        (download, error) == DownloadOutcome(pack, old(packType), old(customModel),
                                             Generate(pack, headerUuid, moduleUuid, hasContext, encode))
      ensures packType == old(packType) && skins == old(skins) && selectedSkinId == old(selectedSkinId)
      ensures customModel == old(customModel)
      ensures packName == old(packName) && packDescription == old(packDescription)
    {
      download, error := Download(SkinPack(packName, packDescription, skins), packType, customModel,
                                  headerUuid, moduleUuid, hasContext, encode);
    }
  }

  /** The body of `handleDownload` on the state it reads: the guards, the
      generator call and the file name. */
  method Download(pack: SkinPack, packType: Option<PackType>, customModel: Option<CustomModel>,
                  headerUuid: string, moduleUuid: string, hasContext: bool, encode: Encoder)
    returns (download: Option<(string, Archive)>, banner: Option<string>)
    ensures (download, banner) == DownloadOutcome(pack, packType, customModel,
                                                  Generate(pack, headerUuid, moduleUuid, hasContext, encode))
  {
    var guard := DownloadGuard(pack.skins, pack.name, packType, customModel);
    if guard.Some? {
      return None, guard;
    }
    var generated := GenerateSkinPack(pack, headerUuid, moduleUuid, hasContext, encode);
    if generated.Success? {
      download, banner := Some((DownloadFileName(pack.name), generated.value)), None;
    } else {
      download, banner := None, Some(generated.error);
    }
  }

  /** What a click on the download button yields for a pack, its type, its
      model and what the generator makes of the pack: the archive under its
      file name, and the error banner. A refused guard sets its own message and
      generates nothing; past the guards the archive is the generator's, and a
      generator failure becomes the error. */
  function DownloadOutcome(pack: SkinPack, packType: Option<PackType>, customModel: Option<CustomModel>,
                           generated: Result<Archive, string>)
    : (r: (Option<(string, Archive)>, Option<string>))
    ensures var guard := DownloadGuard(pack.skins, pack.name, packType, customModel);
      && (guard.Some? ==> r == (None, guard))
      && (guard.None? && generated.Success? ==> r == (Some((DownloadFileName(pack.name), generated.value)), None))
      && (guard.None? && generated.Failure? ==> r == (None, Some(generated.error)))
  {
    match DownloadGuard(pack.skins, pack.name, packType, customModel)
    case Some(message) => (None, Some(message))
    case None =>
      match generated
      case Success(archive) => (Some((DownloadFileName(pack.name), archive)), None)
      case Failure(message) => (None, Some(message))
  }

  /** A download that goes through names a non-empty pack, so its archive holds
      one texture per skin and at least one PNG. */
  lemma DownloadedArchive(skins: seq<Skin>, packName: string, packDescription: string,
                          packType: Option<PackType>, customModel: Option<CustomModel>,
                          headerUuid: string, moduleUuid: string, hasContext: bool, encode: Encoder)
    requires DownloadGuard(skins, packName, packType, customModel).None?
    requires Generate(SkinPack(packName, packDescription, skins), headerUuid, moduleUuid, hasContext, encode).Success?
    ensures var a := Generate(SkinPack(packName, packDescription, skins), headerUuid, moduleUuid, hasContext, encode).value;
      Texture(0) in a && |a| >= 3 && hasContext
  {
    var pack := SkinPack(packName, packDescription, skins);
    ArchiveContents(pack, headerUuid, moduleUuid, hasContext, encode);
    ArchiveSize(pack, headerUuid, moduleUuid, hasContext, encode);
  }
}
