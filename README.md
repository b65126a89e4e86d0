# Minecraft skin-pack builder, modelled in Dafny

This project models the part of the skin-pack web application that turns
uploaded skins and an optional custom 4D/5D geometry model into a Minecraft
Bedrock `.mcpack` archive, together with the state the editor keeps while the
pack is put together. It covers:

- `validateSkinDimensions`. Only 64x32, 64x64 and 128x128 skins are accepted.
- `processImageData`. It turns the RGBA bytes of a decoded image into a
  row-major pixel grid.
- `validateModel` and `loadModelFromFile`. They accept a parsed JSON object
  only when it has at least one `geometry.*` key and every such geometry has a
  texture size and well-formed bones. JavaScript's truthiness and the
  exception that a read on `null` raises are modelled explicitly.
- The skin store of `src/stores/skin.ts`, as a class whose fields every action
  reassigns.
- `generateSkinPack`. It writes `manifest.json`, `skins.json`, the merged
  `geometry.json` and one `skin_<i>.png` per skin into a map from file name to
  contents.
- The editor component `SkinEditor`, as a class over its React state. This
  includes the download guards and the download file name
  (`<name lower-cased, whitespace runs replaced by _>.mcpack`).
- The rename form of `SkinList`. It saves the trimmed name only when something
  is left after trimming. The list's `editingId` is in the model too.

External effects become parameters:
- the identifiers that `crypto.randomUUID` would produce;
- whether a canvas 2D context is available;
- the PNG encoder of `canvas.toBlob`, a function that may fail;
- the answer to the `confirm` dialog;
- the result of `JSON.parse`, where `None` means the text did not parse.

Strings follow ECMAScript where the source relies on it:
- `trim` and `\s` use the WhiteSpace and LineTerminator set;
- a template literal prints a number through `NatToString`;
- `Object.assign` works over objects modelled as ordered key/value lists.

Three behaviours of the code worth noting:
- A new skin is named `皮肤 <n>`, where `<n>` is the new length of the list.
- The store's `renameSkin` accepts any name, blank names included. The
  blank-name check lives only in the `SkinList` rename form.
- `generateSkinPack` itself does not refuse an empty pack. It produces an
  archive holding only the two documents. Only the editor's guard refuses
  an empty pack.

## Model

| member | source | states |
|---|---|---|
| SkinDimensions.FindDimensions | src/utils/skinDimensions.ts:13 | `find` returns a table entry exactly when the pair equals one, and that entry is the pair |
| SkinDimensions.ValidateSkinDimensions | src/utils/skinDimensions.ts:6-14 | a result exists iff (width, height) is 64x32, 64x64 or 128x128; the result carries the given width and height and is one of the table's entries |
| SkinDimensions.NearMissesRejected | src/utils/skinDimensions.ts:6-14 | transposed, off-by-one, square-but-small and arbitrary sizes are rejected |
| SkinDimensions.AcceptedArePositive | src/utils/skinDimensions.ts:6-14 | every accepted size has positive width and height |
| ImageProcessor.ProcessImageData | src/utils/imageProcessor.ts:19-58 | rejected dimensions give the invalid-dimensions error; a missing canvas context gives the context error; otherwise the nested y/x loop builds, row by row, the grid whose pixel (x, y) is the four bytes at offset (y*width+x)*4, with the validated width and height |
| ImageProcessor.GridMatchesReference | src/utils/imageProcessor.ts:39-52 | the grid the loop builds equals the independent definition: group the bytes into RGBA pixels, then cut the pixels into rows of `width` |
| ImageProcessor.GridRoundTrip | src/utils/imageProcessor.ts:39-52 | flattening the grid and spreading each pixel back into four bytes gives the image data back |
| ImageProcessor.PixelReadsDisjoint | src/utils/imageProcessor.ts:44-48 | two different pixels read non-overlapping four-byte windows |
| ImageProcessor.EveryByteRead | src/utils/imageProcessor.ts:41-48 | every byte index of the image data lies in the window of exactly the pixel (p % width, p / width), with p = index / 4 |
| ImageProcessor.IndexInBounds | src/utils/imageProcessor.ts:44-48 | the alpha byte index of any in-range pixel is inside the image data |
| ModelLoader.EveryBone | src/utils/modelLoader.ts:8-13 | `bones.every(...)` returns true iff every bone has a truthy name, a three-element pivot array and cubes that are falsy (missing, null, false, 0 or "") or an array; it throws only if some bone is null |
| ModelLoader.ValidateGeometryMeaning | src/utils/modelLoader.ts:3-14 | `validateGeometry` returns true iff the geometry is an object with truthy texture width and height, an array of bones, and every bone valid; a missing header field never validates |
| ModelLoader.GeometryEntries | src/utils/modelLoader.ts:19 | the filter keeps exactly the entries whose key starts with `geometry.` |
| ModelLoader.EveryGeometry | src/utils/modelLoader.ts:25-28 | the `every` over geometry keys returns true iff every geometry entry is valid |
| ModelLoader.ValidateModel | src/utils/modelLoader.ts:16-34 | a model is returned iff the JSON is an object with at least one `geometry.*` key and every such geometry is valid; the model is the object itself; a thrown read becomes `null` |
| ModelLoader.OtherKeysIrrelevant | src/utils/modelLoader.ts:19-28 | inserting a non-geometry key anywhere in the object never changes whether it validates |
| ModelLoader.NullGeometryCaught | src/utils/modelLoader.ts:16-34 | a `null` geometry makes `validateGeometry` throw, and `validateModel` then returns `null` |
| ModelLoader.NullBoneCaught | src/utils/modelLoader.ts:8-13 | a `null` bone is never valid, and the `every` throws on it when all earlier bones were valid |
| ModelLoader.AcceptedModelHasFirstKey | src/utils/modelLoader.ts:16-34 | an accepted model has at least one key, so `Object.keys(model)[0]` exists |
| ModelLoader.EmptyObjectRefused | src/utils/modelLoader.ts:20-22 | `{}` is refused |
| ModelLoader.ExampleAccepted | src/utils/modelLoader.ts:16-34 | a one-geometry model with a 64x64 texture and one valid bone is accepted as it is |
| ModelLoader.ExampleBonesNotArray | src/utils/modelLoader.ts:4-6 | a geometry whose `bones` is not an array is refused |
| ModelLoader.LoadModel | src/utils/modelLoader.ts:36-59 | unparsable text gives the parse error; parsed JSON that fails validation gives the invalid-model error; otherwise the result is the validated model |
| Json.PutGet | src/utils/skinPackGenerator.ts:51 | after writing key k, reading k gives the new value and every other key reads as before |
| Json.PutKeys | src/utils/skinPackGenerator.ts:51 | writing an existing key keeps the key order; writing a new key appends it; unique keys stay unique |
| Json.AssignGet | src/utils/skinPackGenerator.ts:51 | after `Object.assign`, a key reads as the source's value when the source has it, else as the target's |
| Json.AssignKeepsPrefix | src/utils/skinPackGenerator.ts:51 | `Object.assign` keeps the target's keys first and in their order |
| Json.AssignKeepsUnique | src/utils/skinPackGenerator.ts:51 | `Object.assign` keeps the keys of a target unique |
| Json.AssignHasKey | src/utils/skinPackGenerator.ts:51 | the merged object has exactly the keys of the target and the source |
| Json.AssignFresh | src/utils/skinPackGenerator.ts:51 | assigning a source whose keys are all new appends its entries in order |
| Json.AssignSame | src/utils/skinPackGenerator.ts:51 | assigning entries the target already holds changes nothing |
| JsStrings.Trim | src/components/SkinList.tsx:32 | `trim` gives a string without leading or trailing whitespace, and is empty iff the input is all whitespace |
| JsStrings.TrimIsInfix | src/components/SkinList.tsx:32 | the trimmed string is a slice of the input with only whitespace before and after it |
| JsStrings.TrimIdempotent | src/components/SkinList.tsx:32 | trimming twice is trimming once |
| JsStrings.ReplaceWhitespaceRuns | src/components/SkinEditor.tsx:117 | `replace(/\s+/g, '_')` leaves no whitespace |
| JsStrings.ReplaceIdentityWithoutWhitespace | src/components/SkinEditor.tsx:117 | a string without whitespace is left unchanged by the replacement |
| JsStrings.ReplaceRun | src/components/SkinEditor.tsx:117 | a whole whitespace run at the front becomes one underscore |
| JsStrings.NatToString | src/stores/skin.ts:30 | the decimal rendering is non-empty, all digits, a single digit exactly for numbers below 10, and starts with `0` only for zero |
| JsStrings.DecimalRoundTrip | src/stores/skin.ts:30 | reading the decimal rendering back gives the number |
| JsStrings.NatToStringInjective | src/stores/skin.ts:30 | different numbers render differently |
| SkinOps.DefaultNamesDistinct | src/stores/skin.ts:30 | default names `皮肤 <n>` for different n differ |
| SkinOps.Find | src/stores/skin.ts:14-16 | `find` by id gives a listed skin with that id iff one is listed, and it is the first skin with that id |
| SkinOps.FindUnique | src/stores/skin.ts:14-16 | with distinct ids, `find` of a listed skin's id gives that skin |
| SkinOps.RemoveHasId | src/stores/skin.ts:38 | after filtering out an id, exactly the other listed ids remain |
| SkinOps.RemoveListed | src/stores/skin.ts:38 | with distinct ids, filtering out the id of skin i removes exactly skin i and keeps the order |
| SkinOps.RemoveAbsent | src/stores/skin.ts:38 | filtering out an id that is not listed changes nothing |
| SkinOps.RemoveIdConcat | src/stores/skin.ts:38 | filtering distributes over concatenation |
| SkinOps.RemoveKeepsDistinct | src/stores/skin.ts:38 | filtering keeps ids distinct |
| SkinOps.RenameFirstEffect | src/stores/skin.ts:44-49 | `renameSkin` renames only the first skin with the id and leaves the others and every other field as they were; no match changes nothing |
| SkinOps.RenamesAgree | src/components/SkinEditor.tsx:59-63 | with distinct ids, the editor's rename-all `map` and the store's rename-first agree |
| SkinOps.SetModelTypeWhere | src/stores/skin.ts:51-55 | retyping by `map` keeps the ids in order |
| SkinOps.AttachModelEffect | src/stores/skin.ts:57-63 | every skin afterwards carries the model and is otherwise unchanged |
| SkinOps.SameIds | src/stores/skin.ts:51-63 | two lists with the same ids in order agree on distinctness and on which ids are listed |
| Store.ModelForNewSkin | src/stores/skin.ts:31 | a new skin carries a model iff the pack type is custom and the pack model is set, and then it carries the pack model |
| Store.AppendFresh | src/stores/skin.ts:33 | pushing a skin with a fresh id keeps ids distinct, lists the new id and keeps the old ones |
| Store.SkinStore.constructor | src/stores/skin.ts:7-12 | the initial state: no skins, no selection, the default name and description, no model and no pack type |
| Store.SkinStore.SelectedSkin | src/stores/skin.ts:14-16 | a skin is selected iff the selection is a non-empty id of a listed skin; then it is that skin; in a valid store a non-empty selection always finds its skin |
| Store.SkinStore.AddSkin | src/stores/skin.ts:18-35 | the new skin, named after the new length and carrying the model the pack type calls for, is appended and selected; nothing else changes; ids stay distinct |
| Store.SkinStore.DeleteSkin | src/stores/skin.ts:37-42 | the id is filtered out; the selection is cleared only if it was that id; nothing else changes |
| Store.SkinStore.RenameSkin | src/stores/skin.ts:44-49 | the first skin with the id is renamed; nothing else changes |
| Store.SkinStore.SetModelType | src/stores/skin.ts:51-55 | every skin with the id gets the new model type; nothing else changes |
| Store.SkinStore.SetCustomModel | src/stores/skin.ts:57-63 | the pack model and every listed skin's model become the new model; nothing else changes |
| Store.SkinStore.Reset | src/stores/skin.ts:65-72 | every field returns to its initial value |
| Store.SkinStore.GetSkinPack | src/stores/skin.ts:74-78 | the pack holds the current name, description and skins |
| Store.ThreeUploads | src/stores/skin.ts:18-35 | three uploads into a custom-type store with a model give `皮肤 1`, `皮肤 2`, `皮肤 3`, all carrying the model, with the last selected |
| SkinPackGenerator.BuildManifest | src/utils/skinPackGenerator.ts:9-23 | format version 1, the pack name, version 1.0.0, one `skin_pack` module at version 1.0.0, and the two UUIDs |
| SkinPackGenerator.TextureNamesDistinct | src/utils/skinPackGenerator.ts:34 | `skin_<i>.png` differs for different indices |
| SkinPackGenerator.PathInjective | src/utils/skinPackGenerator.ts:42-83 | no two archive files share a path (documents and textures never collide) |
| SkinPackGenerator.BuildSkinsIndex | src/utils/skinPackGenerator.ts:26-39 | one entry per skin, in order, and both pack-level names are the pack name |
| SkinPackGenerator.SkinsIndexEntry | src/utils/skinPackGenerator.ts:27-36 | entry i has the skin's name, the first key of its model when it has one (else the slim or classic humanoid geometry), `skin_<i>.png` and type `free` |
| SkinPackGenerator.CustomModels | src/utils/skinPackGenerator.ts:46-48 | the list of models is empty iff no skin carries one |
| SkinPackGenerator.CustomModelsMembers | src/utils/skinPackGenerator.ts:46-48 | every collected model is the model of some skin, and every skin's model is collected |
| SkinPackGenerator.LastValueOfSkins | src/utils/skinPackGenerator.ts:46-51 | over the collected models, the last value of a key is the one from the last skin in pack order whose model defines it, and there is none iff no skin's model defines it |
| SkinPackGenerator.GeometryValue | src/utils/skinPackGenerator.ts:46-53 | in `geometry.json` each key holds the value from the last skin in pack order whose model defines it, and a key no skin's model defines is absent |
| SkinPackGenerator.MergeGet | src/utils/skinPackGenerator.ts:51 | each key of the merged geometry reads as in the last model that has it |
| SkinPackGenerator.MergeKeepsFirstKey | src/utils/skinPackGenerator.ts:51 | the merged geometry starts with the first model's first key |
| SkinPackGenerator.MergeCopies | src/utils/skinPackGenerator.ts:51 | merging copies of one model gives that model |
| SkinPackGenerator.GeometryDocument | src/utils/skinPackGenerator.ts:46-53 | `geometry.json` is written iff some skin carries a model |
| SkinPackGenerator.GenerateSkinPack | src/utils/skinPackGenerator.ts:4-89 | the loop over the skins builds what `Generate` defines: the documents plus one PNG per skin, or the prefixed error of the first failure |
| SkinPackGenerator.PngFilesKeys | src/utils/skinPackGenerator.ts:56-84 | the first k PNGs are exactly the files `skin_0.png` to `skin_<k-1>.png`, each holding the encoder's output for its skin |
| SkinPackGenerator.ArchiveContents | src/utils/skinPackGenerator.ts:9-84 | a generated archive holds the manifest and skins index as built, `geometry.json` exactly when some skin has a model, and for each skin i the encoded PNG at the texture path its index entry names |
| SkinPackGenerator.ArchiveSize | src/utils/skinPackGenerator.ts:42-84 | the archive has one file per skin plus two documents, or three when a geometry is written |
| SkinPackGenerator.EmptyPackArchive | src/utils/skinPackGenerator.ts:4-89 | an empty pack is not refused: it gives the manifest and the skins index only |
| SkinPackGenerator.FailuresArePrefixed | src/utils/skinPackGenerator.ts:56-89 | every failure message starts with `Failed to generate skin pack: ` and arises only when the context is missing or some PNG did not encode |
| SkinPackGenerator.SharedModelPack | src/utils/skinPackGenerator.ts:29-53 | when every skin carries the same model, `geometry.json` is that model and every entry names its first key |
| SkinPackGenerator.AllCopies | src/utils/skinPackGenerator.ts:46-48 | when every skin carries the same model, the collected list is one copy per skin |
| Editor.DownloadGuard | src/components/SkinEditor.tsx:91-104 | download passes iff there are skins, the name is not blank and a custom pack has a model; otherwise the first failing check's message, in that order |
| Editor.DisabledMeansRefused | src/components/SkinEditor.tsx:91-104 | a disabled button corresponds to a refused download; with the button enabled, only a blank name is refused |
| Editor.DownloadFileName | src/components/SkinEditor.tsx:117 | the file name ends in `.mcpack` and contains no whitespace |
| Editor.PlainNameKept | src/components/SkinEditor.tsx:117 | a lower-case name without whitespace is kept as it is before the suffix |
| Editor.TwoWordFileName | src/components/SkinEditor.tsx:117 | two words separated by any whitespace run become `first_second.mcpack`, lower-cased |
| Editor.SkinEditor.constructor | src/components/SkinEditor.tsx:14-20 | the initial state: no pack type, no skins, no selection, default name and description, no error, no model |
| Editor.SkinEditor.SelectedSkin | src/components/SkinEditor.tsx:88 | a skin is selected iff the selection is a non-empty id of a listed skin; then it is that skin |
| Editor.SkinEditor.HandleSkinUpload | src/components/SkinEditor.tsx:22-40 | the new skin, named after the new length and carrying the model iff the pack is custom, is appended and selected, and the error is cleared |
| Editor.SkinEditor.HandleModelUpload | src/components/SkinEditor.tsx:42-50 | the model becomes the pack model and every skin's model, and the error is cleared |
| Editor.SkinEditor.HandleSkinDelete | src/components/SkinEditor.tsx:52-57 | the id is filtered out and the selection cleared only if it was that id |
| Editor.SkinEditor.HandleSkinRename | src/components/SkinEditor.tsx:59-63 | every skin with the id gets the new name; nothing else changes |
| Editor.SkinEditor.HandleModelTypeChange | src/components/SkinEditor.tsx:65-71 | with a non-empty selection, the selected skin's model type changes; without one, nothing changes |
| Editor.SkinEditor.HandleReset | src/components/SkinEditor.tsx:73-86 | with skins and a declined confirmation nothing changes; otherwise every field returns to its initial value |
| Editor.SkinEditor.SelectPackType | src/components/SkinEditor.tsx:132 | the pack type is set; nothing else changes |
| Editor.SkinEditor.SelectSkin | src/components/SkinEditor.tsx:204 | selecting a listed skin makes it the selection; nothing else changes |
| Editor.SkinEditor.SetPackDetails | src/components/SkinEditor.tsx:177-190 | the name and description inputs set those two fields only |
| Editor.SkinEditor.HandleDownload | src/components/SkinEditor.tsx:90-126 | the archive and the new error banner are the download outcome for the state before the click; the pack itself is unchanged |
| Editor.Download | src/components/SkinEditor.tsx:90-126 | the body of the download handler computes exactly the download outcome: guard, generate, name the file |
| Editor.DownloadOutcome | src/components/SkinEditor.tsx:91-125 | a refused guard shows its message and produces nothing; past the guards, a generated archive is saved under the file name and the error is cleared; a failure becomes the error |
| Editor.DownloadedArchive | src/components/SkinEditor.tsx:91-113 | a download that goes through holds `skin_0.png` and at least three files, and the canvas context was available |
| SkinList.SubmitName | src/components/SkinList.tsx:30-36 | a name is saved iff the text is not all whitespace; the saved name is the trimmed text, non-empty and trimmed |
| SkinList.SavedNameIsInfix | src/components/SkinList.tsx:32-34 | the saved name is a non-empty slice of the text with only whitespace cut at either end |
| SkinList.ResubmitTrimmed | src/components/SkinList.tsx:32-34 | a non-empty trimmed name is saved unchanged |
| SkinList.SubmitIdempotent | src/components/SkinList.tsx:32-34 | submitting the saved name again saves the same name |
| SkinList.AtMostOneEditing | src/components/SkinList.tsx:85-131 | with distinct ids, at most one row shows the rename form |
| SkinList.SkinListState.constructor | src/components/SkinList.tsx:85 | no row is being edited at first |
| SkinList.SkinListState.StartEdit | src/components/SkinList.tsx:137-140 | the row's skin becomes the one being edited |
| SkinList.SkinListState.Cancel | src/components/SkinList.tsx:106-136 | the unstopped click on the cancel button selects the row's skin in the editor; no row is being edited afterwards and nothing is renamed |
| SkinList.SkinListState.Submit | src/components/SkinList.tsx:106-135 | the unstopped click on the submit button selects the row's skin in the editor; then a non-blank text renames that skin to the trimmed text and closes the form, and a blank text renames nothing and keeps the form open; the pack type, model, name, description and error are unchanged |
| SkinList.SubmitEffect | src/components/SkinList.tsx:30-36 | a save renames exactly the row's skin to the trimmed text and leaves every other skin as it was; a blank text leaves the list as it was |

## Left out

- File reading, image decoding and drawing (`FileReader`, `Image`, `drawImage`, `getImageData`) are not modelled. The image bytes are an input.
- The failures of `FileReader` and `Image` are left out: the image file's `Failed to read file` and `Failed to load image`, and the model file's `读取文件失败`. Neither `ProcessImageData` nor `LoadModel` has such an error case.
- The alpha channel is kept as a byte. The `rgba(r,g,b,a/255)` colour string and its floating-point alpha are not modelled.
- Number values inside the model JSON are reals. `JSON.parse` is an input (`None` when the text does not parse), and `JSON.stringify` is not modelled: documents are values.
- Object key order puts integer-like keys first in JavaScript. The model keeps insertion order throughout. Lemmas that need unique keys, as `JSON.parse` produces them, require them.
- The JSZip archive is a map from file name to contents. `generateAsync` is assumed to succeed: a failure while zipping is not modelled.
- The PNG loop runs the skins one after another. It stops at the first failure, which is the failure `Promise.all` reports when only one PNG fails. The order in which concurrent `toBlob` calls settle is not modelled.
- `canvas.getContext('2d')` is one boolean input for the whole generation. The pixels a PNG encodes are left to the injected encoder.
- The fallback messages `Unknown error` and `生成皮肤包失败` belong to non-`Error` throws, and the model has none of those. The `console.error` log is not modelled.
- `URL.createObjectURL`, the link click and `revokeObjectURL` are not modelled. The download result is the file name and the archive.
- React and Vue reactivity, rendering, the preview components, the thumbnail canvas in the list and CSS are not modelled.
- `crypto.randomUUID` becomes an injected id. A precondition requires the id to be fresh, as a random UUID is in practice.
- `confirm()` becomes a boolean argument of `HandleReset`.
- Editor.SkinEditor.SelectSkin: requires the id to be listed. The list only offers the ids of the skins it shows, while `setSelectedSkinId` itself would accept any string.
- Store.SkinStore: `packName`, `packDescription`, `selectedType` and `selectedSkinId` are assigned directly by callers in the source. The class exposes them as fields and has no setter methods for them. `Valid()` assumes the selection is a listed id, so a direct write of an unlisted id has no counterpart in the model. `getSkinPack` hands out the live skins array, so later changes would show through the returned pack; the model returns a value.
- Store.SkinStore.RenameSkin: the source mutates the skin object in place, which any other holder of that object would see. Skins here are values, so that aliasing is not modelled.
- JsStrings.ToLowerCase: lower-cases ASCII letters only. Full Unicode case mapping is not modelled.
- SkinList.SkinListState.Cancel: requires the row's skin to be listed, since selecting it needs that. The cancel button exists only in that skin's row.
- SkinList.SkinListState.Submit: requires the form to belong to the skin being edited, and that skin to be listed. The form is shown only in that skin's row.
