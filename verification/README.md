# Feed-ration formulation core in Dafny

This project models the formulation logic of a feed-ration calculator written in TypeScript and React. A user keeps a catalogue of ingredients. Each ingredient has a price per kg and a list of nutrients, each with a name, a value and a unit. The user blends ingredients into formulas by percentage. The program computes a formula's nutrient table and its price per kg.

The model has three parts, one Dafny module each, plus two shared modules.

- `Types` (`types.dfy`) holds the records of `src/lib/storage-utils.ts`. Nutriente becomes `Nutrient`, Ingrediente becomes `Ingredient`, ComponenteFormula becomes `Component` and Formula stays `Formula`. The optional cached fields become `Option`s.
- `Collections` (`collections.dfy`) holds the array operations the source relies on:
  - `findIndex` by id;
  - the replace-or-append upsert;
  - `filter`, with an order-preservation predicate `Subseq`;
  - `Dedup`, the first-encounter key order of an insertion-ordered `Map`.
- `Aggregator` (`aggregator.dfy`) models `calcularNutrientes` and `calcularPrecoFinal`.
  - The nutrient table (the JavaScript `Map`) is a sequence of `(name, Total(value, unit))` pairs in insertion order.
  - The two nested `forEach` loops (lines 97-122 of `src/lib/storage-utils.ts`) are modelled as written, by `Aggregator.RecordComponents` (outer loop) and `Aggregator.RecordNutrients` (inner loop).
  - The price loop (lines 134-142) is `Aggregator.PriceOf`, a running total of `Aggregator.Cost`, the cost of one component.
  - The lemmas prove the loops equal a single fold over the flat list of scaled contributions. They then characterise that fold independently:
    - its keys are the distinct nutrient names in first-encounter order;
    - each value is the sum of the contributions that carry the first-seen unit for that name ("first-seen unit wins").
  - The price is the exact sum of `preco * porcentagem / 100` over the resolved components.
- `Catalogue` (`catalogue.dfy`) models `saveIngrediente`, `saveFormula`, `deleteFormula` and the cascading `deleteIngrediente`. The two stored collections are parameters and results.
- `FormulaEditor` (`formula_editor.dfy`) models the formula page (`src/pages/Formular.tsx`) as a state machine. It covers:
  - the add and remove handlers;
  - the running percentage total, `getTotalPorcentagem` (lines 182-184), as `FormulaEditor.TotalPercentage`;
  - the recompute effect;
  - the save guards.
  It proves that every session, saves included, keeps two invariants: ingredient ids are unique, and the total is at most 100.
- `IngredientEditor` (`ingredient_editor.dfy`) models the ingredient page (`src/pages/Ingredientes.tsx`):
  - the dialog defaults;
  - the nutrient add and remove handlers;
  - the save guard;
  - a page-level invariant that every session keeps.

Prices, percentages and nutrient values are exact `real`s. Ids and names are strings. Fresh ids (`generateId`) are parameters. A rejected action is a toast in the source; here it is a `Failure` carrying the reason, and the state is left as it was.

## Model

| member | source | states |
|---|---|---|
| Collections.FindIndex | src/lib/storage-utils.ts:38 | the result is -1 exactly when no element has the id; otherwise it is the first index whose element has the id |
| Collections.Upsert | src/lib/storage-utils.ts:38-44 | if some element has the item's id, the first such element is replaced, the length is unchanged and every other element is unchanged; otherwise the item is appended at the end |
| Collections.Filter | src/lib/storage-utils.ts:51 | keeps exactly the accepted elements: membership, multiplicities and their original order (`Subseq`) |
| Collections.FilterAppend | src/lib/storage-utils.ts:51 | filtering a concatenation is the concatenation of the filtered parts |
| Collections.FilterIdempotent | src/lib/storage-utils.ts:51 | filtering again with the same test changes nothing |
| Collections.Dedup | src/lib/storage-utils.ts:94 | the key order of an insertion-ordered Map: no duplicates, the same members, ordered by first occurrence |
| Aggregator.Resolve | src/lib/storage-utils.ts:98-99 | absent exactly when no catalogue ingredient has the id; otherwise the first catalogue ingredient with that id, as `Array.find` returns |
| Aggregator.Lookup | src/lib/storage-utils.ts:107-108 | absent exactly when the table has no entry of that name; otherwise the total of the entry stored under that name |
| Aggregator.Record | src/lib/storage-utils.ts:107-120 | new name: the entry is the contribution, appended to the key order; same unit: the value grows by exactly the contribution and the unit is unchanged; different unit: the entry is unchanged and the contribution is dropped; every other name is unchanged |
| Aggregator.RecordPresent | src/lib/storage-utils.ts:107-114 | for a name already in the table, the value grows by the contribution when the units agree and stays as it was otherwise, keeping its unit |
| Aggregator.ScaleAllPointwise | src/lib/storage-utils.ts:100-104 | the i-th scaled contribution is the i-th nutrient of the ingredient, its value times percentage / 100, under the same name and unit |
| Aggregator.RecordNutrientsIsAccumulate | src/lib/storage-utils.ts:104-121 | the inner loop equals the fold over the ingredient's nutrients, each scaled by percentage / 100 |
| Aggregator.RecordComponentsIsAccumulate | src/lib/storage-utils.ts:97-122 | the nested loops, which skip unknown ingredients, equal one fold over all contributions in visiting order |
| Aggregator.CalculateNutrients | src/lib/storage-utils.ts:89-130 | the result's names are unique and are exactly the distinct nutrient names of the resolved ingredients in first-encounter order; no components gives the empty table |
| Aggregator.AccumulateKeys | src/lib/storage-utils.ts:115-120 | the fold's key order is the first-encounter de-duplication of the contribution names |
| Aggregator.RecordMatchesExpected | src/lib/storage-utils.ts:107-120 | one recording step keeps a table in agreement with the independent description (`Expected`): sum in the first-seen unit |
| Aggregator.AccumulateValue | src/lib/storage-utils.ts:107-120 | each name's value in the fold is the sum of its contributions in the first-seen unit, and is absent for a name no contribution carries |
| Aggregator.NutrientValue | src/lib/storage-utils.ts:89-130 | calcularNutrientes name by name: present exactly when a resolved ingredient has that nutrient; then the sum of `valor * porcentagem / 100` over the contributions whose unit is the first-seen one |
| Aggregator.SingleSource | src/lib/storage-utils.ts:101-105 | a nutrient that only one contribution carries gets exactly that nutrient's value times percentage / 100, in its unit |
| Aggregator.ProteinExample | src/lib/storage-utils.ts:89-130 | 50% of Protein 20 g/kg plus 50% of Protein 10 g/kg gives the single entry Protein 15 g/kg |
| Aggregator.PriceExample | src/lib/storage-utils.ts:132-145 | the same blend at prices 1 and 2 costs 1.5 |
| Aggregator.CalculatePrice | src/lib/storage-utils.ts:132-145 | a formula with no components costs 0 |
| Aggregator.PriceAppend | src/lib/storage-utils.ts:134-142 | the price of a concatenation of components is the sum of the prices of the parts |
| Aggregator.UnresolvedContributesNothing | src/lib/storage-utils.ts:98-99 | a component whose ingredient is not in the catalogue, inserted anywhere, changes neither the nutrient table nor the price (the same skip at lines 137-138) |
| Aggregator.CostResolves | src/lib/storage-utils.ts:137-141 | a component costs the price of the first catalogue ingredient with its id times percentage / 100, and 0 when no ingredient has the id |
| Aggregator.CostUnresolved | src/lib/storage-utils.ts:137-138 | a component whose id no catalogue ingredient has costs nothing |
| Aggregator.PriceIsSum | src/lib/storage-utils.ts:134-142 | the running total equals the plain sum of the per-component costs |
| Aggregator.CostsAreLinear | src/lib/storage-utils.ts:140-141 | scaling every percentage by k scales the sum of the costs by k |
| Aggregator.CostIsLinear | src/lib/storage-utils.ts:140-141 | one component's cost is linear in its percentage |
| Aggregator.PriceIsLinear | src/lib/storage-utils.ts:134-142 | multiplying every percentage by k multiplies the price by k |
| Catalogue.SaveIngredient | src/lib/storage-utils.ts:36-47 | upsert by id: the first ingredient with the id is replaced and the others are unchanged, otherwise the ingredient is appended |
| Catalogue.SaveFormula | src/lib/storage-utils.ts:69-80 | the same upsert on formulas |
| Catalogue.DeleteFormula | src/lib/storage-utils.ts:82-86 | no formula with the id remains; every other formula is kept, with its multiplicity, in order |
| Catalogue.DeleteIngredient | src/lib/storage-utils.ts:49-62 | no ingredient with the id remains and the others are kept in order; the formula count is unchanged; each formula keeps exactly its components for other ingredients, in order; id, name and the cached nutrient table and price are unchanged |
| Catalogue.SaveThenResolve | src/lib/storage-utils.ts:36-47 | after saving, looking up the ingredient's id finds exactly the saved ingredient |
| Catalogue.SaveKeepsOtherIngredients | src/lib/storage-utils.ts:38-44 | saving leaves the lookup of every other id as it was |
| Catalogue.SaveIngredientIdempotent | src/lib/storage-utils.ts:36-47 | saving the same ingredient twice equals saving it once |
| Catalogue.SaveKeepsUniqueIds | src/lib/storage-utils.ts:38-44 | saving keeps ingredient ids unique |
| Catalogue.SaveFormulaFresh | src/lib/storage-utils.ts:71-77 | a formula under an id no stored formula has is appended |
| Catalogue.DeleteAbsentFormula | src/lib/storage-utils.ts:82-86 | deleting an id no formula has leaves the list unchanged |
| Catalogue.DeleteKeepsOtherIngredients | src/lib/storage-utils.ts:50-51 | deleting one id leaves the lookup of every other id as it was |
| Catalogue.StripIsInvisible | src/lib/storage-utils.ts:56-59 | against a catalogue without the deleted id, stripping its components changes neither the contributions nor the price |
| Catalogue.CascadeRecompute | src/lib/storage-utils.ts:49-62 | after the cascade, recomputing a stored formula gives the same table and price as the unstripped formula would; the kept snapshot can therefore be stale |
| FormulaEditor.AddComponent | src/pages/Formular.tsx:87-127 | rejected exactly when the selection is empty or the percentage is not positive, or the ingredient is already a component, or the total would exceed 100; accepted exactly when all three guards pass; on success exactly one component `{selection, percentage}` is appended at the end and the selection and percentage reset |
| FormulaEditor.RemoveComponent | src/pages/Formular.tsx:129-131 | no component for the id remains; every other component is kept with its number of copies and in order; the other fields are unchanged |
| FormulaEditor.Display | src/pages/Formular.tsx:59-85 | with no components the shown table is empty and the price is 0 |
| FormulaEditor.DisplayAgreesWithAggregator | src/pages/Formular.tsx:59-71 | the shown table and price are the aggregator's for any formula with these components, whatever its id and name |
| FormulaEditor.SaveFormula | src/pages/Formular.tsx:142-180 | refused exactly when the name is empty, or when there are no components, and accepted in every other case; then the formula with the shown snapshot is upserted and the name and components are cleared |
| FormulaEditor.TotalAppend | src/pages/Formular.tsx:182-184 | the total of a concatenation is the sum of the totals |
| FormulaEditor.TotalFilterAtMost | src/pages/Formular.tsx:182-184 | with positive percentages, removing components does not raise the total |
| FormulaEditor.AddKeepsValid | src/pages/Formular.tsx:87-127 | adding keeps ids unique, percentages positive and the total at most 100 |
| FormulaEditor.RemoveKeepsValid | src/pages/Formular.tsx:129-131 | removing keeps the same invariant |
| FormulaEditor.ApplyKeepsValid | src/pages/Formular.tsx:87-180 | every single editing action, a save included, keeps the invariant |
| FormulaEditor.RunKeepsValid | src/pages/Formular.tsx:87-180 | any sequence of editing actions and saves keeps the invariant |
| FormulaEditor.SessionsStayValid | src/pages/Formular.tsx:45-180 | from the empty editor, every session keeps ids unique and the total at most 100 |
| FormulaEditor.CostAtMost | src/lib/storage-utils.ts:140-141 | with prices between 0 and a maximum, one component costs between 0 and the maximum times its share |
| FormulaEditor.PriceAtMost | src/lib/storage-utils.ts:134-142 | with prices between 0 and a maximum, the price is between 0 and the maximum times total / 100 |
| FormulaEditor.ValidPriceAtMost | src/pages/Formular.tsx:108-117 | because the total stays at most 100, a formula never costs more per kg than the dearest ingredient |
| FormulaEditor.CascadeKeepsValid | src/lib/storage-utils.ts:56-59 | the cascade of deleteIngrediente keeps every stored formula's invariant |
| IngredientEditor.Open | src/pages/Ingredientes.tsx:60-72 | an existing ingredient is edited as it is; a new one gets the fresh id, an empty name, price 0 and no nutrients; the nutrient input is kept |
| IngredientEditor.AddNutrient | src/pages/Ingredientes.tsx:74-102 | rejected exactly when the name is empty or the value is zero (a negative value is accepted); otherwise exactly one nutrient with the fresh id is appended, its unit defaults to g/kg when empty, the other fields are unchanged and the input resets |
| IngredientEditor.RemoveNutrient | src/pages/Ingredientes.tsx:104-109 | no nutrient with the id remains; every other nutrient is kept with its number of copies and in order; the ingredient's other fields and the input are unchanged |
| IngredientEditor.Save | src/pages/Ingredientes.tsx:111-129 | refused exactly when the name is empty or the price is not positive; otherwise the upsert of saveIngrediente |
| IngredientEditor.OpenNewNotSavable | src/pages/Ingredientes.tsx:63-69 | a freshly opened blank ingredient is refused by the save guard |
| IngredientEditor.SaveThenResolve | src/pages/Ingredientes.tsx:111-122 | after an accepted save the catalogue resolves the draft's id to the draft and every other id as before |
| IngredientEditor.AddKeepsWellFormed | src/pages/Ingredientes.tsx:74-102 | adding keeps every nutrient named, non-zero and with a unit |
| IngredientEditor.AddKeepsUniqueIds | src/pages/Ingredientes.tsx:84-94 | with an unused fresh id, adding keeps nutrient ids unique |
| IngredientEditor.RemoveKeepsInvariant | src/pages/Ingredientes.tsx:104-109 | removing keeps nutrients well formed and their ids unique |
| IngredientEditor.RemoveAbsentOrTwice | src/pages/Ingredientes.tsx:104-109 | removing an absent id changes nothing; removing twice equals removing once |
| IngredientEditor.RemoveUndoesAdd | src/pages/Ingredientes.tsx:84-109 | adding under a fresh id and then removing that id restores the ingredient |
| IngredientEditor.SaveKeepsRegistered | src/pages/Ingredientes.tsx:111-122 | an accepted save keeps every stored ingredient named, positively priced and with well-formed nutrients |
| IngredientEditor.DeleteKeepsRegistered | src/pages/Ingredientes.tsx:131-143 | the cascading delete keeps the same property |
| IngredientEditor.ApplyKeepsInvariant | src/pages/Ingredientes.tsx:60-143 | every single page action keeps the page invariant |
| IngredientEditor.RunKeepsInvariant | src/pages/Ingredientes.tsx:60-143 | any sequence of page actions keeps the page invariant |
| IngredientEditor.SessionsStayRegistered | src/pages/Ingredientes.tsx:43-143 | from the first render with no stored ingredients, every session keeps the page invariant |

## Left out

- Browser storage and JSON (`getIngredientes`, `getFormulas` and the `localStorage.setItem` calls in `src/lib/storage-utils.ts`) are not modelled. The two collections are parameters, and each operation returns the collection it would write back.
- `generateId` depends on the clock and on randomness. Every fresh id is a parameter instead.
- Aggregator.CalculatePrice is the exact real sum; the `parseFloat(precoTotal.toFixed(2))` rounding of line 144 is not modelled, so its contract is weaker than the source's rounded result. Floating-point arithmetic in general is replaced by exact reals.
- FormulaEditor.SaveFormula stores the shown snapshot computed from the current components. The source stores the React state set by the last effect run. These agree once the effect has run, but effect timing is not modelled.
- FormulaEditor.Display uses a fixed id for the temporary formula instead of a generated one. The proof `DisplayAgreesWithAggregator` shows the id does not influence the result.
- IngredientEditor.AddNutrient models the falsy test on the value as "value is zero". A NaN or absent value (also falsy in JavaScript) does not exist among reals.
- Input coercion (`parseFloat(...) || 0`, `Number(...)`) and text fields are not modelled. Actions carry already-parsed values.
- Copying the `Map` into a plain object (lines 125-127 of `src/lib/storage-utils.ts`) can reorder integer-like keys in JavaScript. The model keeps insertion order.
- The same copy loses a nutrient named `__proto__`: assigning that key sets the object's prototype instead of adding an own entry, so it is missing from the returned object. The model keeps such a nutrient like any other name.
- `handleSalvarFormula` (lines 133-140 of `src/pages/Formular.tsx`) opens the name dialog when the name is empty and otherwise calls `salvarFormulaFinal`. Only the latter, which carries the guards, is modelled.
- Not modelled: rendering, toasts, dialog open/close flags, the Recharts data and its top-10 slice (line 77), and `getIngredienteNome`.
- `src/pages/ListarFormulas.tsx`, `src/pages/Index.tsx` and `src/components/Layout.tsx` are display-only and are not part of this model. `deleteFormula` itself is modelled in `Catalogue`.
- The ingredient and formula pages are modelled separately. Their shared storage is the `Catalogue.Store` value, and the only cross-page effect proved is `FormulaEditor.CascadeKeepsValid`.
