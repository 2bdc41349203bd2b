/**
 * The two records the checker works with: a text node found in the design
 * tree, and an entry of the specification. Fields the source copies
 * through unchanged keep their raw JSON value, since `dict.get` returns
 * whatever the document holds.
 */
module Elements {
  import opened JsonValue

  /**
   * One TEXT node of the design tree. `textContent` is the stripped
   * `characters` string; `path` locates the node for diagnostics.
   */
  datatype DesignElement = DesignElement(
    id: Json,
    name: Json,
    kind: Json,
    textContent: string,
    description: Json,
    path: string)

  /** One entry of the `specifications` array. */
  datatype SpecificationElement = SpecificationElement(
    id: Json,
    name: Json,
    textContent: Json,
    description: Json,
    category: Json,
    priority: Json,
    designTexts: seq<string>)
}
