/**
 * The skin store of `src/stores/skin.ts`: the pack being edited, held in
 * fields that each action reassigns. Ids come from an injected generator in
 * place of `crypto.randomUUID`, and a fresh id is one not listed yet.
 */
module Store {
  import opened Wrappers
  import opened JsStrings
  import opened SkinTypes
  import opened SkinOps

  const DefaultPackName: string := "我的皮肤包"
  const DefaultPackDescription: string := "自定义 Minecraft 皮肤包"

  /** What a skin added to `skins` carries as its model: the pack model when the
      pack type is custom, nothing otherwise. The pack model may itself be unset. */
  function ModelForNewSkin(selectedType: Option<PackType>, customModel: Option<CustomModel>): (m: Option<CustomModel>)
    ensures m.Some? <==> selectedType == Some(Custom) && customModel.Some?
    ensures m.Some? ==> m == customModel
  {
    if selectedType == Some(Custom) then customModel else None
  }

  /** The skin a new upload becomes when `count` skins are listed. */
  function NewSkin(
    id: string, pixels: PixelGrid, width: int, height: int, modelType: ModelType,
    count: nat, model: Option<CustomModel>): (s: Skin)
    ensures s.id == id && s.pixels == pixels && s.width == width && s.height == height
    ensures s.modelType == modelType && s.customModel == model
    ensures s.name == DefaultName(count)
  {
    Skin(id, pixels, width, height, modelType, DefaultName(count), model)
  }

  /** Appending a skin with a fresh id keeps the ids distinct and lists the new id. */
  lemma AppendFresh(skins: seq<Skin>, s: Skin)
    requires DistinctIds(skins) && !HasId(skins, s.id)
    ensures DistinctIds(skins + [s]) && HasId(skins + [s], s.id)
    ensures forall other :: HasId(skins, other) ==> HasId(skins + [s], other)
  {
    var r := skins + [s];
    assert r[|skins|] == s;
    forall i, j | 0 <= i < j < |r| ensures r[i].id != r[j].id {
      assert r[i] == skins[i];
      if j < |skins| { assert r[j] == skins[j]; }
    }
    forall other | HasId(skins, other) ensures HasId(r, other) {
      var k :| 0 <= k < |skins| && skins[k].id == other;
      assert r[k] == skins[k];
    }
  }

  class SkinStore {
    var skins: seq<Skin>
    var selectedSkinId: Option<string>
    var packName: string
    var packDescription: string
    var customModel: Option<CustomModel>
    var selectedType: Option<PackType>

    /** Ids are distinct, and a selection names a listed skin. */
    ghost predicate Valid()
      reads this
    {
      DistinctIds(skins) && (selectedSkinId.Some? ==> HasId(skins, selectedSkinId.value))
    }

    constructor ()
      ensures Valid()
      ensures skins == [] && selectedSkinId == None
      ensures packName == DefaultPackName && packDescription == DefaultPackDescription
      ensures customModel == None && selectedType == None
    {
      skins := [];
      selectedSkinId := None;
      packName := DefaultPackName;
      packDescription := DefaultPackDescription;
      customModel := None;
      selectedType := None;
    }

    /** `selectedSkin`: the listed skin whose id is the selection, when the
        selection is a non-empty string. */
    function SelectedSkin(): (r: Option<Skin>)
      reads this
      ensures r.Some? <==> IsSetId(selectedSkinId) && HasId(skins, selectedSkinId.value)
      ensures r.Some? ==> r.value in skins && r.value.id == selectedSkinId.value
      ensures Valid() && IsSetId(selectedSkinId) ==> r.Some?
    {
      if IsSetId(selectedSkinId) then Find(skins, selectedSkinId.value) else None
    }

    /** `addSkin`: push one skin named after the new length and select it. */
    method AddSkin(id: string, pixels: PixelGrid, width: int, height: int, modelType: ModelType)
      requires Valid() && !HasId(skins, id)
      modifies this
      ensures Valid()
      ensures skins == old(skins) + [NewSkin(id, pixels, width, height, modelType, |old(skins)|,
                                             ModelForNewSkin(old(selectedType), old(customModel)))]
      ensures selectedSkinId == Some(id)
      ensures packName == old(packName) && packDescription == old(packDescription)
      ensures customModel == old(customModel) && selectedType == old(selectedType)
    {
      var skin := NewSkin(id, pixels, width, height, modelType, |skins|,
                          ModelForNewSkin(selectedType, customModel));
      AppendFresh(skins, skin);
      skins := skins + [skin];
      selectedSkinId := Some(id);
    }

    /** `deleteSkin`: filter the id out; drop the selection only if it was that id. */
    method DeleteSkin(id: string)
      requires Valid()
      modifies this
      ensures Valid()
      ensures skins == RemoveId(old(skins), id)
      ensures selectedSkinId == if old(selectedSkinId) == Some(id) then None else old(selectedSkinId)
      ensures packName == old(packName) && packDescription == old(packDescription)
      ensures customModel == old(customModel) && selectedType == old(selectedType)
    {
      RemoveKeepsDistinct(skins, id);
      if selectedSkinId.Some? {
        RemoveHasId(skins, id, selectedSkinId.value);
      }
      skins := RemoveId(skins, id);
      if selectedSkinId == Some(id) {
        selectedSkinId := None;
      }
    }

    /** `renameSkin`: set the name of the first skin with that id, if any. */
    method RenameSkin(id: string, newName: string)
      requires Valid()
      modifies this
      ensures Valid()
      ensures skins == RenameFirst(old(skins), id, newName)
      ensures selectedSkinId == old(selectedSkinId)
      ensures packName == old(packName) && packDescription == old(packDescription)
      ensures customModel == old(customModel) && selectedType == old(selectedType)
    {
      SameIds(skins, RenameFirst(skins, id, newName));
      var found := FindIndex(skins, id);
      if found.Some? {
        var i := found.value;
        skins := skins[i := skins[i].(name := newName)];
      }
    }

    /** `setModelType`: a `map` that retypes the skins with that id. */
    method SetModelType(id: string, modelType: ModelType)
      requires Valid()
      modifies this
      ensures Valid()
      ensures skins == SetModelTypeWhere(old(skins), id, modelType)
      ensures selectedSkinId == old(selectedSkinId)
      ensures packName == old(packName) && packDescription == old(packDescription)
      ensures customModel == old(customModel) && selectedType == old(selectedType)
    {
      SameIds(skins, SetModelTypeWhere(skins, id, modelType));
      skins := SetModelTypeWhere(skins, id, modelType);
    }

    /** `setCustomModel`: the pack model, and every listed skin's model. */
    method SetCustomModel(model: CustomModel)
      requires Valid()
      modifies this
      ensures Valid()
      ensures customModel == Some(model)
      ensures skins == AttachModel(old(skins), model)
      ensures selectedSkinId == old(selectedSkinId)
      ensures packName == old(packName) && packDescription == old(packDescription)
      ensures selectedType == old(selectedType)
    {
      SameIds(skins, AttachModel(skins, model));
      customModel := Some(model);
      skins := AttachModel(skins, model);
    }

    /** `reset`: every field back to its initial value. */
    method Reset()
      modifies this
      ensures Valid()
      ensures skins == [] && selectedSkinId == None
      ensures packName == DefaultPackName && packDescription == DefaultPackDescription
      ensures customModel == None && selectedType == None
    {
      skins := [];
      selectedSkinId := None;
      packName := DefaultPackName;
      packDescription := DefaultPackDescription;
      customModel := None;
      selectedType := None;
    }

    /** `getSkinPack`: the name, the description and the skins, as they are now. */
    function GetSkinPack(): (p: SkinPack)
      reads this
      ensures p.name == packName && p.description == packDescription && p.skins == skins
    {
      SkinPack(packName, packDescription, skins)
    }
  }

  /** Three uploads into a fresh custom-type store give skins named `皮肤 1`,
      `皮肤 2` and `皮肤 3` in upload order, all carrying the pack model, with
      the last one selected. */
  method ThreeUploads(model: CustomModel, pixels: PixelGrid) returns (store: SkinStore)
    ensures fresh(store) && store.Valid()
    ensures |store.skins| == 3 && store.selectedSkinId == Some("c")
    ensures store.skins[0].name == "皮肤 1" && store.skins[1].name == "皮肤 2" && store.skins[2].name == "皮肤 3"
    ensures forall i :: 0 <= i < 3 ==> store.skins[i].customModel == Some(model)
  {
    store := new SkinStore();
    store.selectedType := Some(Custom);
    store.SetCustomModel(model);
    store.AddSkin("a", pixels, 64, 64, Classic);
    assert !HasId(store.skins, "b");
    store.AddSkin("b", pixels, 64, 64, Slim);
    assert !HasId(store.skins, "c");
    store.AddSkin("c", pixels, 64, 32, Classic);
    assert NatToString(1) == "1" && NatToString(2) == "2" && NatToString(3) == "3";
  }
}
