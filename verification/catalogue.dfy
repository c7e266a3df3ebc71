/** Catalogue maintenance of src/lib/storage-utils.ts: saveIngrediente,
    deleteIngrediente, saveFormula and deleteFormula. The two stored
    collections are parameters and results instead of browser storage; every
    operation returns the whole collection it would write back.
 */
module Catalogue {
  import opened Types
  import opened Collections
  import opened Aggregator

  /** Both stored collections ('ingredientes' and 'formulas'). */
  datatype Store = Store(ingredients: seq<Ingredient>, formulas: seq<Formula>)

  /** The filter test of deleteIngrediente and of the formula editor's
      remove button: keep components that do not use ingredient `id`. */
  function OtherIngredient(id: string): Component -> bool {
    (c: Component) => c.ingredientId != id
  }

  function OtherIngredientId(id: string): Ingredient -> bool {
    (i: Ingredient) => i.id != id
  }

  function OtherFormulaId(id: string): Formula -> bool {
    (f: Formula) => f.id != id
  }

  /** saveIngrediente (lines 36-47): replace the first ingredient with the
      same id, or append when there is none. */
  function SaveIngredient(catalogue: seq<Ingredient>, ing: Ingredient): (r: seq<Ingredient>)
    ensures HasKey(catalogue, IngredientId, ing.id) ==>
      && |r| == |catalogue|
      && r[FindIndex(catalogue, IngredientId, ing.id)] == ing
      && forall j :: 0 <= j < |catalogue| && j != FindIndex(catalogue, IngredientId, ing.id) ==> r[j] == catalogue[j]
    ensures !HasKey(catalogue, IngredientId, ing.id) ==> r == catalogue + [ing]
  {
    Upsert(catalogue, IngredientId, ing)
  }

  /** saveFormula (lines 69-80), the same upsert on formulas. */
  function SaveFormula(formulas: seq<Formula>, f: Formula): (r: seq<Formula>)
    ensures HasKey(formulas, FormulaId, f.id) ==>
      && |r| == |formulas|
      && r[FindIndex(formulas, FormulaId, f.id)] == f
      && forall j :: 0 <= j < |formulas| && j != FindIndex(formulas, FormulaId, f.id) ==> r[j] == formulas[j]
    ensures !HasKey(formulas, FormulaId, f.id) ==> r == formulas + [f]
  {
    Upsert(formulas, FormulaId, f)
  }

  /** deleteFormula (lines 82-86): drop every formula with that id. */
  function DeleteFormula(formulas: seq<Formula>, id: string): (r: seq<Formula>)
    ensures !HasKey(r, FormulaId, id)
    ensures forall f :: f in r <==> f in formulas && f.id != id
    ensures forall f: Formula :: f.id != id ==> multiset(r)[f] == multiset(formulas)[f]
    ensures Subseq(r, formulas)
  {
    var r := Filter(formulas, OtherFormulaId(id));
    assert !HasKey(r, FormulaId, id) by {
      forall j | 0 <= j < |r| ensures FormulaId(r[j]) != id {
        assert r[j] in r;
      }
    }
    r
  }

  /** One formula after the cascade: only its components change. */
  function StripIngredient(f: Formula, id: string): Formula {
    f.(components := Filter(f.components, OtherIngredient(id)))
  }

  /** deleteIngrediente (lines 49-62): drop every ingredient with that id and
      strip its components from every formula. The cached nutrient table and
      price of each formula are kept as they were. */
  function DeleteIngredient(s: Store, id: string): (r: Store)
    ensures !HasKey(r.ingredients, IngredientId, id)
    ensures forall i :: i in r.ingredients <==> i in s.ingredients && i.id != id
    ensures forall i: Ingredient :: i.id != id ==> multiset(r.ingredients)[i] == multiset(s.ingredients)[i]
    ensures Subseq(r.ingredients, s.ingredients)
    ensures |r.formulas| == |s.formulas|
    ensures forall k :: 0 <= k < |s.formulas| ==>
      && r.formulas[k].id == s.formulas[k].id
      && r.formulas[k].name == s.formulas[k].name
      && r.formulas[k].computedNutrients == s.formulas[k].computedNutrients
      && r.formulas[k].finalPrice == s.formulas[k].finalPrice
    ensures forall k :: 0 <= k < |s.formulas| ==>
      && (forall c :: c in r.formulas[k].components <==> c in s.formulas[k].components && c.ingredientId != id)
      && (forall c: Component :: c.ingredientId != id ==>
            multiset(r.formulas[k].components)[c] == multiset(s.formulas[k].components)[c])
      && Subseq(r.formulas[k].components, s.formulas[k].components)
  {
    var ingredients := Filter(s.ingredients, OtherIngredientId(id));
    assert !HasKey(ingredients, IngredientId, id) by {
      forall j | 0 <= j < |ingredients| ensures IngredientId(ingredients[j]) != id {
        assert ingredients[j] in ingredients;
      }
    }
    var formulas := seq(|s.formulas|, k requires 0 <= k < |s.formulas| => StripIngredient(s.formulas[k], id));
    Store(ingredients, formulas)
  }

  // ---------------------------------------------------------------------
  // Lemmas
  // ---------------------------------------------------------------------

  /** After saving an ingredient, looking its id up finds exactly it. */
  lemma SaveThenResolve(catalogue: seq<Ingredient>, ing: Ingredient)
    ensures Resolve(SaveIngredient(catalogue, ing), ing.id) == Some(ing)
  {
    var r := SaveIngredient(catalogue, ing);
    if HasKey(catalogue, IngredientId, ing.id) {
      var k := FindIndex(catalogue, IngredientId, ing.id);
      assert forall j :: 0 <= j < k ==> r[j] == catalogue[j];
      FindIndexIsFirst(r, IngredientId, ing.id, k);
    } else {
      assert forall j :: 0 <= j < |catalogue| ==> r[j] == catalogue[j];
      FindIndexIsFirst(r, IngredientId, ing.id, |catalogue|);
    }
  }

  /** Saving an ingredient leaves the lookup of every other id as it was. */
  lemma SaveKeepsOtherIngredients(catalogue: seq<Ingredient>, ing: Ingredient, id: string)
    requires id != ing.id
    ensures Resolve(SaveIngredient(catalogue, ing), id) == Resolve(catalogue, id)
  {
    var r := SaveIngredient(catalogue, ing);
    if HasKey(catalogue, IngredientId, ing.id) {
      FindIndexSameKeys(r, catalogue, IngredientId, id);
    } else {
      FindIndexSnoc(catalogue, ing, IngredientId, id);
    }
  }

  /** Saving the same ingredient twice is the same as saving it once. */
  lemma SaveIngredientIdempotent(catalogue: seq<Ingredient>, ing: Ingredient)
    ensures SaveIngredient(SaveIngredient(catalogue, ing), ing) == SaveIngredient(catalogue, ing)
  {
    var r := SaveIngredient(catalogue, ing);
    SaveThenResolve(catalogue, ing);
    assert HasKey(r, IngredientId, ing.id);
    var k := FindIndex(r, IngredientId, ing.id);
    assert r[k] == ing;
    assert r[k := ing] == r;
  }

  /** Saving keeps ingredient ids unique. */
  lemma SaveKeepsUniqueIds(catalogue: seq<Ingredient>, ing: Ingredient)
    requires UniqueKeys(catalogue, IngredientId)
    ensures UniqueKeys(SaveIngredient(catalogue, ing), IngredientId)
  {
    var r := SaveIngredient(catalogue, ing);
    if HasKey(catalogue, IngredientId, ing.id) {
      var k := FindIndex(catalogue, IngredientId, ing.id);
      assert forall j :: 0 <= j < |r| ==> IngredientId(r[j]) == IngredientId(catalogue[j]) by {
        forall j | 0 <= j < |r| ensures IngredientId(r[j]) == IngredientId(catalogue[j]) {
          if j == k { assert r[j] == ing; }
        }
      }
    } else {
      assert r == catalogue + [ing];
      forall i, j | 0 <= i < j < |r| ensures IngredientId(r[i]) != IngredientId(r[j]) {
        if j == |catalogue| {
          assert r[i] == catalogue[i];
        } else {
          assert r[i] == catalogue[i] && r[j] == catalogue[j];
        }
      }
    }
  }

  /** Saving a formula under an id no stored formula has appends it. */
  lemma SaveFormulaFresh(formulas: seq<Formula>, f: Formula)
    requires forall j :: 0 <= j < |formulas| ==> formulas[j].id != f.id
    ensures SaveFormula(formulas, f) == formulas + [f]
  {
    assert !HasKey(formulas, FormulaId, f.id);
  }

  /** Deleting an id that no formula has keeps the list as it is. */
  lemma DeleteAbsentFormula(formulas: seq<Formula>, id: string)
    requires !HasKey(formulas, FormulaId, id)
    ensures DeleteFormula(formulas, id) == formulas
  {
    assert forall j :: 0 <= j < |formulas| ==> OtherFormulaId(id)(formulas[j]) by {
      forall j | 0 <= j < |formulas| ensures OtherFormulaId(id)(formulas[j]) {
        assert FormulaId(formulas[j]) != id;
      }
    }
    FilterKeepsAll(formulas, OtherFormulaId(id));
  }

  /** Removing the ingredients with one id leaves the lookup of every other
      id as it was. */
  lemma {:induction false} DeleteKeepsOtherIngredients(catalogue: seq<Ingredient>, id: string, other: string)
    requires other != id
    ensures Resolve(Filter(catalogue, OtherIngredientId(id)), other) == Resolve(catalogue, other)
    decreases |catalogue|
  {
    if |catalogue| > 0 {
      var x, rest := catalogue[0], catalogue[1..];
      assert catalogue == [x] + rest;
      DeleteKeepsOtherIngredients(rest, id, other);
      var fr := Filter(rest, OtherIngredientId(id));
      if x.id == id {
        assert Filter(catalogue, OtherIngredientId(id)) == fr;
        ResolveCons(x, rest, other);
      } else if x.id == other {
        assert Filter(catalogue, OtherIngredientId(id)) == [x] + fr;
        FindIndexIsFirst([x] + fr, IngredientId, other, 0);
        FindIndexIsFirst(catalogue, IngredientId, other, 0);
      } else {
        assert Filter(catalogue, OtherIngredientId(id)) == [x] + fr;
        ResolveCons(x, fr, other);
        ResolveCons(x, rest, other);
      }
    }
  }

  /** Against a catalogue without ingredient `id`, dropping the components
      that use `id` changes no contribution. */
  lemma {:induction false} StripIsInvisible(comps: seq<Component>, id: string, catalogue: seq<Ingredient>)
    requires !HasKey(catalogue, IngredientId, id)
    ensures Contributions(Filter(comps, OtherIngredient(id)), catalogue) == Contributions(comps, catalogue)
    ensures PriceOf(Filter(comps, OtherIngredient(id)), catalogue) == PriceOf(comps, catalogue)
    decreases |comps|
  {
    if |comps| > 0 {
      var c, rest := comps[0], comps[1..];
      assert comps == [c] + rest;
      StripIsInvisible(rest, id, catalogue);
      var fr := Filter(rest, OtherIngredient(id));
      PriceAppend([c], rest, catalogue);
      if c.ingredientId == id {
        assert Filter(comps, OtherIngredient(id)) == fr;
        assert Contributions(comps, catalogue) == ComponentContributions(c, catalogue) + Contributions(rest, catalogue);
        assert ComponentContributions(c, catalogue) == [];
        assert PriceOf([c], catalogue) == PriceOf([], catalogue) + Cost(c, catalogue);
        CostUnresolved(c, catalogue);
      } else {
        assert Filter(comps, OtherIngredient(id)) == [c] + fr;
        assert ([c] + fr)[1..] == fr;
        PriceAppend([c], fr, catalogue);
      }
    }
  }

  /** After deleteIngrediente, recomputing a stored formula against the new
      catalogue gives what the formula, stripped or not, would give; so the
      cascade itself never changes a recomputed result, while the cached
      snapshot (kept as it was) can now disagree with it. */
  lemma CascadeRecompute(s: Store, id: string, k: nat)
    requires k < |s.formulas|
    ensures var r := DeleteIngredient(s, id);
      && CalculateNutrients(r.formulas[k], r.ingredients) == CalculateNutrients(s.formulas[k], r.ingredients)
      && CalculatePrice(r.formulas[k], r.ingredients) == CalculatePrice(s.formulas[k], r.ingredients)
  {
    var r := DeleteIngredient(s, id);
    var f, g := s.formulas[k], r.formulas[k];
    assert g == StripIngredient(f, id);
    StripIsInvisible(f.components, id, r.ingredients);
    RecordComponentsIsAccumulate([], g.components, r.ingredients);
    RecordComponentsIsAccumulate([], f.components, r.ingredients);
  }
}
