/** The two rename callbacks of the build script. Both single out the panel-flags enum of
    the SDK header and leave every other item to bindgen's own naming (`None`). */
module Hooks {
  import opened Wrappers

  const PanelFlags: string := "PANEL_FLAGS"
  const PanelType: string := "PanelType"

  /** `enum_variant_name`: the variants of `PANEL_FLAGS` lose their first six characters
      (the `PANEL_` of their C names). Slicing a shorter name panics in the build script, so
      such a name is excluded here. */
  function EnumVariantName(enumName: Option<string>, originalVariantName: string): (r: Option<string>)
    requires enumName == Some(PanelFlags) ==> |originalVariantName| >= 6
    ensures r.Some? <==> enumName == Some(PanelFlags)
    ensures r.Some? ==> |r.value| == |originalVariantName| - 6
    ensures r.Some? ==> originalVariantName == originalVariantName[..6] + r.value
  {
    match enumName
    case Some(n) =>
      if n == PanelFlags then Some(originalVariantName[6..]) else None
    case None => None
  }

  /** `item_name`: `PANEL_FLAGS` is published as `PanelType`; every other item keeps its name. */
  function ItemName(originalItemName: string): (r: Option<string>)
    ensures r.Some? <==> originalItemName == PanelFlags
    ensures r.Some? ==> r.value == PanelType
  {
    if originalItemName == PanelFlags then Some(PanelType) else None
  }

  /** The variant hook is keyed by the original enum name, not the published one: once the
      enum is renamed, asking again under `PanelType` strips nothing a second time. */
  lemma RenamedEnumNotStrippedAgain(originalVariantName: string)
    ensures ItemName(PanelFlags) == Some(PanelType)
    ensures EnumVariantName(Some(PanelType), originalVariantName) == None
  {
  }
}
