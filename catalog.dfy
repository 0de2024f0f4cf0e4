/**
 * The catalog records the components display. They come from a data module
 * that is not part of this model; only their shape matters here.
 */
module Catalog {

  datatype BaseColor = BaseColor(name: string, hex: string)

  datatype Pattern = Pattern(name: string, description: string)

  /**
   * One product configuration. The metrics are bounded integers in the data:
   * `refractionRate`, `artClarity` and `cleanVsBusy` in 0..100, `complexity`
   * in 0..1000.
   */
  datatype Variant = Variant(
    name: string,
    category: string,
    baseColor: BaseColor,
    pattern: Pattern,
    refractionType: string,
    refractionRate: int,
    artClarity: int,
    complexity: int,
    cleanVsBusy: int)

  /** A named group of variants, in the order the data lists them. */
  datatype Category = Category(name: string, displayName: string, variants: seq<Variant>)

}
