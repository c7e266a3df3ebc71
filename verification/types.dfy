/** The records of the feed-ration calculator (src/lib/storage-utils.ts:3-28).

    Source names: Nutriente = Nutrient, Ingrediente = Ingredient,
    ComponenteFormula = Component, Formula = Formula. Numbers are exact reals;
    ids and names are strings. The optional cached fields of a formula
    (nutrientesCalculados, precoFinal) are Options.
 */
module Types {

  datatype Option<+T> = None | Some(value: T)

  /** A validation outcome: either the new value or the reason it was refused. */
  datatype Result<+T, +E> = Success(value: T) | Failure(error: E)

  /** A named, unit-tagged quantity of one ingredient (nome, valor, unidade). */
  datatype Nutrient = Nutrient(id: string, name: string, value: real, unit: string)

  /** A priced raw material (preco per kg) with its nutrient profile. */
  datatype Ingredient = Ingredient(id: string, name: string, price: real, nutrients: seq<Nutrient>)

  /** One ingredient's inclusion percentage within a formula. */
  datatype Component = Component(ingredientId: string, percentage: real)

  /** An aggregated nutrient amount with the unit it is expressed in. */
  datatype Total = Total(value: real, unit: string)

  /** The aggregator's result: nutrient name to total, in insertion order,
      standing for the JavaScript Map the source builds. */
  type NutrientTable = seq<(string, Total)>

  /** A formula with its cached nutrient and price snapshot. */
  datatype Formula = Formula(
    id: string,
    name: string,
    components: seq<Component>,
    computedNutrients: Option<NutrientTable>,
    finalPrice: Option<real>)

  function IngredientId(i: Ingredient): string { i.id }

  function FormulaId(f: Formula): string { f.id }

  function NutrientId(n: Nutrient): string { n.id }

  function ComponentIngredient(c: Component): string { c.ingredientId }
}
