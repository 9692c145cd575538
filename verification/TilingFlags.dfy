/** The tiling words of `amdgpu_drm.h`: `AMDGPU_TILING_SET` masks its value, so words ORed from
    distinct fields read back for any values at all. */
module TilingFlags {
  import opened Bits
  import opened BitFields

  const LEGACY := [
    Field(0, 4),   // ARRAY_MODE
    Field(4, 5),   // PIPE_CONFIG
    Field(9, 3),   // TILE_SPLIT
    Field(12, 3),  // MICRO_TILE_MODE
    Field(15, 2),  // BANK_WIDTH
    Field(17, 2),  // BANK_HEIGHT
    Field(19, 2),  // MACRO_TILE_ASPECT
    Field(21, 2)   // NUM_BANKS
  ]
  const GFX9 := [
    Field(0, 5),   // SWIZZLE_MODE
    Field(5, 24),  // DCC_OFFSET_256B
    Field(29, 14), // DCC_PITCH_MAX
    Field(43, 1),  // DCC_INDEPENDENT_64B
    Field(44, 1),  // DCC_INDEPENDENT_128B
    Field(63, 1)   // SCANOUT
  ]

  /** `us` lists SET(field, value) terms, at most one for each field, in any order. */
  lemma TilingReadBack(table: seq<Field>, us: seq<Update>, j: nat)
    requires table == LEGACY || table == GFX9
    requires Distinct(us) && (forall u :: u in us ==> u.field < |table|) && j < |us|
    ensures OrAll(table, us) < Pow2(64)
    ensures Get(table[us[j].field], OrAll(table, us)) == us[j].value % Pow2(table[us[j].field].width)
    ensures forall k: nat :: k < |table| && (forall u :: u in us ==> u.field != k) ==> Get(table[k], OrAll(table, us)) == 0
  {
    OredFieldsReadBack(64, table, us);
    LatestOfDistinct(us, j, 0);
    assert us[j] in us;
    MaskIsModulo(us[j].value, table[us[j].field].width);
    forall k: nat | k < |table| && (forall u :: u in us ==> u.field != k) ensures Get(table[k], OrAll(table, us)) == 0 {
      NotNamed(us, k);
    }
  }

  const LEGACY_MASKS := [0xf, 0x1f, 0x7, 0x7, 0x3, 0x3, 0x3, 0x3]
  const GFX9_MASKS := [0x1f, 0xffffff, 0x3fff, 0x1, 0x1, 0x1]

  /** Both tables have the masks of the header and are without gaps, except that SCANOUT is bit 63. */
  lemma Layouts(k: nat)
    ensures |LEGACY| == 8 && |GFX9| == 6
    ensures k < 8 ==> Mask(LEGACY[k].width) == LEGACY_MASKS[k]
    ensures k < 8 ==> LEGACY[k].shift == if k == 0 then 0 else LEGACY[k - 1].shift + LEGACY[k - 1].width
    ensures k < 6 ==> Mask(GFX9[k].width) == GFX9_MASKS[k]
    ensures k < 5 ==> GFX9[k].shift == if k == 0 then 0 else GFX9[k - 1].shift + GFX9[k - 1].width
    ensures GFX9[5].shift == 63
  {
    Powers();
  }
}
