/**
 * A catalog item as the page reads it from the JSON manifest. The page does
 * not check the shape of the items; the model assumes every field is missing
 * (`null` or `undefined`, which the page treats alike) or a string, as the
 * manifest builder writes them. A field of another type (a number, say) would
 * make the page's `toLowerCase` calls throw, and is not modelled.
 */
module PageItem {

  /** A field that is missing (`null`/`undefined`) or holds a string. */
  datatype Field = Absent | Str(value: string)

  /** JavaScript truthiness of a field: a non-empty string. */
  predicate Truthy(f: Field) {
    f.Str? && f.value != ""
  }

  /** `a ?? b`: `a` unless it is missing; an empty string is kept. */
  function Coalesce(a: Field, b: Field): (r: Field)
    ensures a.Str? ==> r == a
    ensures a.Absent? ==> r == b
  {
    if a.Str? then a else b
  }

  datatype Item = Item(
    id: Field,
    displayName: Field,
    fileName: Field,
    modelPath: Field,
    androidModelPath: Field,
    thumbnailPath: Field)

  /**
   * `item.displayName || item.id` as written into the card's name element:
   * the display name when it is non-empty, else the id, else the empty text.
   */
  function DisplayLabel(item: Item): (name: string)
    ensures Truthy(item.displayName) ==> name == item.displayName.value
    ensures !Truthy(item.displayName) && item.id.Str? ==> name == item.id.value
    ensures !Truthy(item.displayName) && item.id.Absent? ==> name == ""
    ensures name == "" <==> !Truthy(item.displayName) && !Truthy(item.id)
  {
    if Truthy(item.displayName) then item.displayName.value
    else if item.id.Str? then item.id.value
    else ""
  }
}
