/**
 * The skin list of `src/components/SkinList.tsx`: the rename form of
 * `EditableName`, which saves the trimmed text only when something is left,
 * and the list's `editingId`, the one skin whose name is being edited. The
 * list's `onRename` is the editor's `handleSkinRename`.
 */
module SkinList {
  import opened Wrappers
  import opened JsStrings
  import opened SkinTypes
  import opened SkinOps
  import opened Editor

  /** `handleSubmit`: the name to save, if any. */
  function SubmitName(text: string): (r: Option<string>)
    ensures r.Some? <==> !AllWhitespace(text)
    ensures r.Some? ==> r.value == Trim(text) && r.value != [] && IsTrimmed(r.value)
  {
    var trimmed := Trim(text);
    if trimmed != [] then Some(trimmed) else None
  }

  /** A saved name is a stretch of the submitted text with only whitespace
      cut away at either end. */
  lemma SavedNameIsInfix(text: string)
    requires SubmitName(text).Some?
    ensures exists i, j :: i < j && TrimmedAt(text, SubmitName(text).value, i, j)
  {
    TrimIsInfix(text);
    var i, j :| TrimmedAt(text, Trim(text), i, j);
    assert |Trim(text)| == j - i;
  }

  /** Submitting a name that is already trimmed saves it as it is. */
  lemma ResubmitTrimmed(name: string)
    requires name != [] && IsTrimmed(name)
    ensures SubmitName(name) == Some(name)
  {
    TrimmedIsFixpoint(name);
  }

  /** Submitting again what was just saved saves the same name. */
  lemma SubmitIdempotent(text: string)
    requires SubmitName(text).Some?
    ensures SubmitName(SubmitName(text).value) == SubmitName(text)
  {
    TrimIdempotent(text);
  }

  /** Which row shows the rename form. */
  predicate IsEditing(editingId: Option<string>, skin: Skin) {
    editingId == Some(skin.id)
  }

  /** With distinct ids, at most one row shows the rename form. */
  lemma AtMostOneEditing(skins: seq<Skin>, editingId: Option<string>, i: nat, j: nat)
    requires DistinctIds(skins) && i < |skins| && j < |skins|
    ensures IsEditing(editingId, skins[i]) && IsEditing(editingId, skins[j]) ==> i == j
  {
  }

  class SkinListState {
    var editingId: Option<string>

    constructor ()
      ensures editingId == None
    {
      editingId := None;
    }

    /** The pencil button of the row of `id`. */
    method StartEdit(id: string)
      modifies this
      ensures editingId == Some(id)
    {
      editingId := Some(id);
    }

    /** The cancel button. It does not stop the click, which reaches the row
        and selects its skin; then the form closes and nothing is renamed. */
    method Cancel(editor: SkinEditor, skinId: string)
      requires editor.Valid() && HasId(editor.skins, skinId)
      modifies this, editor
      ensures editor.Valid()
      ensures editingId == None
      ensures editor.selectedSkinId == Some(skinId)
      ensures editor.skins == old(editor.skins) && editor.error == old(editor.error)
      ensures editor.packType == old(editor.packType) && editor.customModel == old(editor.customModel)
      ensures editor.packName == old(editor.packName) && editor.packDescription == old(editor.packDescription)
    {
      editor.SelectSkin(skinId);
      editingId := None;
    }

    /** Submitting the form of the row of `skinId` with text `text`, by the
        submit button or by Enter (which clicks that button). The click is not
        stopped, so it first reaches the row and selects its skin. Then a name
        that survives trimming is passed to `onRename` and closes the form; a
        blank one renames nothing and leaves the form open. */
    method Submit(editor: SkinEditor, skinId: string, text: string)
      requires editor.Valid() && HasId(editor.skins, skinId) && editingId == Some(skinId)
      modifies this, editor
      ensures editor.Valid()
      ensures editor.selectedSkinId == Some(skinId)
      ensures SubmitName(text).Some? ==>
        && editor.skins == RenameAll(old(editor.skins), skinId, SubmitName(text).value)
        && editingId == None
      ensures SubmitName(text).None? ==> editor.skins == old(editor.skins) && editingId == old(editingId)
      ensures editor.error == old(editor.error)
      ensures editor.packType == old(editor.packType) && editor.customModel == old(editor.customModel)
      ensures editor.packName == old(editor.packName) && editor.packDescription == old(editor.packDescription)
    {
      editor.SelectSkin(skinId);
      var name := SubmitName(text);
      if name.Some? {
        editor.HandleSkinRename(skinId, name.value);
        editingId := None;
      }
    }
  }

  /** A blank submission keeps the name shown; a saved one renames exactly the
      row's skin to the trimmed text and leaves every other skin as it was. */
  lemma SubmitEffect(skins: seq<Skin>, i: nat, text: string)
    requires DistinctIds(skins) && i < |skins|
    ensures var r := if SubmitName(text).Some? then RenameAll(skins, skins[i].id, SubmitName(text).value) else skins;
      && |r| == |skins|
      && (AllWhitespace(text) ==> r == skins)
      && (!AllWhitespace(text) ==> r[i] == skins[i].(name := Trim(text)))
      && forall j :: 0 <= j < |skins| && j != i ==> r[j] == skins[j]
  {
    forall j | 0 <= j < |skins| && j != i ensures skins[j].id != skins[i].id {
      if j < i {
        assert skins[j].id != skins[i].id;
      } else {
        assert skins[i].id != skins[j].id;
      }
    }
  }
}
