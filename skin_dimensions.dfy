/** `src/utils/skinDimensions.ts`: the accepted texture sizes. */
module SkinDimensions {
  import opened Wrappers

  datatype Dimensions = Dimensions(width: int, height: int)

  /** Legacy, modern and HD skins. */
  const ValidDimensions: seq<Dimensions> :=
    [Dimensions(64, 32), Dimensions(64, 64), Dimensions(128, 128)]

  /** `find` over a table: the first entry equal to `(width, height)`. */
  function FindDimensions(table: seq<Dimensions>, width: int, height: int): (r: Option<Dimensions>)
    ensures r.Some? <==> Dimensions(width, height) in table
    ensures r.Some? ==> r.value in table && r.value == Dimensions(width, height)
    decreases |table|
  {
    if table == [] then None
    else if table[0].width == width && table[0].height == height then Some(table[0])
    else FindDimensions(table[1..], width, height)
  }

  /** `validateSkinDimensions`. */
  function ValidateSkinDimensions(width: int, height: int): (r: Option<Dimensions>)
    ensures r.Some? <==>
      (width, height) == (64, 32) || (width, height) == (64, 64) || (width, height) == (128, 128)
    ensures r.Some? ==> r.value.width == width && r.value.height == height
    ensures r.Some? ==> r.value in ValidDimensions
  {
    FindDimensions(ValidDimensions, width, height)
  }

  /** Transposed and near-miss sizes are refused. */
  lemma NearMissesRejected()
    ensures ValidateSkinDimensions(32, 64).None?
    ensures ValidateSkinDimensions(64, 65).None?
    ensures ValidateSkinDimensions(50, 50).None?
    ensures ValidateSkinDimensions(32, 32).None?
  {
  }

  /** Every accepted size is positive. */
  lemma AcceptedArePositive(width: int, height: int)
    requires ValidateSkinDimensions(width, height).Some?
    ensures width > 0 && height > 0
  {
  }
}
