/** The entities of `src/types/skin.ts` and `src/types/model.ts`. */
module SkinTypes {
  import opened Wrappers
  import opened Json

  newtype byte = x: int | 0 <= x < 256

  /** One decoded pixel: red, green, blue and alpha, each a byte. */
  datatype Color = Color(r: byte, g: byte, b: byte, a: byte)

  type PixelGrid = seq<seq<Color>>

  datatype ModelType = Classic | Slim

  /** The two kinds of pack the editor offers. */
  datatype PackType = Normal | Custom

  /** A geometry document: geometry name to definition, in key order. It is the
      very object the validator accepted. */
  datatype CustomModel = CustomModel(entries: Fields)

  datatype Skin = Skin(
    id: string,
    pixels: PixelGrid,
    width: int,
    height: int,
    modelType: ModelType,
    name: string,
    customModel: Option<CustomModel>)

  datatype SkinPack = SkinPack(name: string, description: string, skins: seq<Skin>)
}
