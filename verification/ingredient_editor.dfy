/** The ingredient page of src/pages/Ingredientes.tsx as a state machine: the
    dialog that opens on a new or an existing ingredient, the nutrient
    sub-form with its add and remove handlers, and the guarded save. A
    rejected action (a toast in the source) returns the reason and leaves
    the state as it was. Fresh ids are parameters.
 */
module IngredientEditor {
  import opened Types
  import opened Collections
  import Aggregator
  import Catalogue

  /** The unit a nutrient gets when the unit field is left empty. */
  const DefaultUnit: string := "g/kg"

  /** novoNutriente: the nutrient being typed in. */
  datatype NutrientInput = NutrientInput(name: string, value: real, unit: string)

  /** formData (the ingredient in the dialog) and novoNutriente. */
  datatype Form = Form(draft: Ingredient, input: NutrientInput)

  /** Why an action was refused. */
  datatype Rejection =
    | NutrientIncomplete    // nutrient name empty or value zero
    | IngredientIncomplete  // ingredient name empty or price <= 0

  /** The cleared nutrient input (lines 50-54 and 96-100). */
  function EmptyInput(): NutrientInput {
    NutrientInput("", 0.0, DefaultUnit)
  }

  /** The state after mounting (lines 43-54). */
  function Initial(): Form {
    Form(Ingredient("", "", 0.0, []), EmptyInput())
  }

  /** A nutrient the add handler can produce: named, non-zero, with a unit. */
  predicate WellFormed(n: Nutrient) {
    n.name != "" && n.value != 0.0 && n.unit != ""
  }

  predicate AllWellFormed(ns: seq<Nutrient>) {
    forall i :: 0 <= i < |ns| ==> WellFormed(ns[i])
  }

  /** An ingredient the save guard lets through. */
  predicate Registrable(ing: Ingredient) {
    ing.name != "" && ing.price > 0.0
  }

  /** What every stored ingredient satisfies when the page is the only writer. */
  predicate Registered(catalogue: seq<Ingredient>) {
    forall i :: 0 <= i < |catalogue| ==> Registrable(catalogue[i]) && AllWellFormed(catalogue[i].nutrients)
  }

  /** handleOpenModal (lines 60-72): edit a copy of an existing ingredient,
      or start a blank one under a fresh id. The nutrient input is not
      cleared. */
  function Open(f: Form, existing: Option<Ingredient>, freshId: string): (r: Form)
    ensures r.input == f.input
    ensures existing.Some? ==> r.draft == existing.value
    ensures existing.None? ==>
      && r.draft.id == freshId
      && r.draft.name == "" && r.draft.price == 0.0
      && !Registrable(r.draft)
      && |r.draft.nutrients| == 0
  {
    match existing
    case Some(ing) => f.(draft := ing)
    case None => f.(draft := Ingredient(freshId, "", 0.0, []))
  }

  /** handleAddNutriente (lines 74-102): refuse an empty name or a zero value
      (the falsy test of line 75); otherwise append the nutrient under a
      fresh id, with the default unit when none was given, and clear the
      input. */
  function AddNutrient(f: Form, freshId: string): (r: Result<Form, Rejection>)
    ensures r.Failure? <==> f.input.name == "" || f.input.value == 0.0
    ensures r.Failure? ==> r.error == NutrientIncomplete
    ensures r.Success? ==>
      && |r.value.draft.nutrients| == |f.draft.nutrients| + 1
      && r.value.draft.nutrients[..|f.draft.nutrients|] == f.draft.nutrients
      && var n := r.value.draft.nutrients[|f.draft.nutrients|];
      && n.id == freshId && n.name == f.input.name && n.value == f.input.value
      && WellFormed(n)
      && (f.input.unit != "" ==> n.unit == f.input.unit)
      && (f.input.unit == "" ==> n.unit == DefaultUnit)
    ensures r.Success? ==>
      && r.value.draft.(nutrients := f.draft.nutrients) == f.draft
      && r.value.input == EmptyInput()
  {
    if f.input.name == "" || f.input.value == 0.0 then Failure(NutrientIncomplete)
    else
      var unit := if f.input.unit != "" then f.input.unit else DefaultUnit;
      var ns := f.draft.nutrients + [Nutrient(freshId, f.input.name, f.input.value, unit)];
      assert ns[..|f.draft.nutrients|] == f.draft.nutrients;
      Success(Form(f.draft.(nutrients := ns), EmptyInput()))
  }

  function OtherNutrient(id: string): Nutrient -> bool {
    (n: Nutrient) => n.id != id
  }

  /** handleRemoveNutriente (lines 104-109): drop every nutrient with that id. */
  function RemoveNutrient(f: Form, id: string): (r: Form)
    ensures !HasKey(r.draft.nutrients, NutrientId, id)
    ensures forall n :: n in r.draft.nutrients <==> n in f.draft.nutrients && n.id != id
    ensures forall n: Nutrient :: n.id != id ==>
      multiset(r.draft.nutrients)[n] == multiset(f.draft.nutrients)[n]
    ensures Subseq(r.draft.nutrients, f.draft.nutrients)
    ensures r.draft.(nutrients := f.draft.nutrients) == f.draft && r.input == f.input
  {
    var ns := Filter(f.draft.nutrients, OtherNutrient(id));
    assert !HasKey(ns, NutrientId, id) by {
      forall j | 0 <= j < |ns| ensures NutrientId(ns[j]) != id {
        assert ns[j] in ns;
      }
    }
    f.(draft := f.draft.(nutrients := ns))
  }

  /** handleSaveIngrediente (lines 111-129): refuse a missing name or a price
      that is not positive; otherwise upsert the draft into the catalogue. */
  function Save(f: Form, catalogue: seq<Ingredient>): (r: Result<seq<Ingredient>, Rejection>)
    ensures r.Failure? <==> !Registrable(f.draft)
    ensures r.Failure? ==> r.error == IngredientIncomplete
    ensures r.Success? ==> r.value == Catalogue.SaveIngredient(catalogue, f.draft)
  {
    if f.draft.name == "" || f.draft.price <= 0.0 then Failure(IngredientIncomplete)
    else Success(Catalogue.SaveIngredient(catalogue, f.draft))
  }

  /** The whole page: both stored collections and the dialog. */
  datatype Page = Page(store: Catalogue.Store, form: Form)

  /** The user actions of the page. Open takes the edited ingredient by its
      position in the list the page shows. */
  datatype Action =
    | OpenNew(freshId: string)
    | OpenExisting(index: nat)
    | SetName(name: string)
    | SetPrice(price: real)
    | SetInput(input: NutrientInput)
    | AddNutrientAction(freshId: string)
    | RemoveNutrientAction(id: string)
    | SaveAction
    | DeleteAction(id: string)

  /** One action; a refused one (or a position past the list) leaves the
      page as it was. Delete is handleDeleteIngrediente (lines 131-143),
      which does nothing without a confirmed id and otherwise runs the
      cascading delete. */
  function Apply(p: Page, a: Action): Page {
    match a
    case OpenNew(freshId) => p.(form := Open(p.form, None, freshId))
    case OpenExisting(k) =>
      if k < |p.store.ingredients| then p.(form := Open(p.form, Some(p.store.ingredients[k]), ""))
      else p
    case SetName(name) => p.(form := p.form.(draft := p.form.draft.(name := name)))
    case SetPrice(price) => p.(form := p.form.(draft := p.form.draft.(price := price)))
    case SetInput(input) => p.(form := p.form.(input := input))
    case AddNutrientAction(freshId) =>
      (match AddNutrient(p.form, freshId)
       case Success(f) => p.(form := f)
       case Failure(_) => p)
    case RemoveNutrientAction(id) => p.(form := RemoveNutrient(p.form, id))
    case SaveAction =>
      (match Save(p.form, p.store.ingredients)
       case Success(catalogue) => p.(store := p.store.(ingredients := catalogue))
       case Failure(_) => p)
    case DeleteAction(id) =>
      if id == "" then p else p.(store := Catalogue.DeleteIngredient(p.store, id))
  }

  function Run(p: Page, actions: seq<Action>): Page
    decreases |actions|
  {
    if |actions| == 0 then p else Run(Apply(p, actions[0]), actions[1..])
  }

  /** The page invariant: every stored ingredient passed the save guard and
      every nutrient, stored or in the dialog, passed the add guard. */
  predicate PageInvariant(p: Page) {
    Registered(p.store.ingredients) && AllWellFormed(p.form.draft.nutrients)
  }

  // ---------------------------------------------------------------------
  // Lemmas
  // ---------------------------------------------------------------------

  /** A blank dialog cannot be saved until it is named and priced. */
  lemma OpenNewNotSavable(f: Form, freshId: string, catalogue: seq<Ingredient>)
    ensures Save(Open(f, None, freshId), catalogue) == Failure(IngredientIncomplete)
  {}

  /** After a successful save the catalogue resolves the draft's id to the
      draft, and every other id as before. */
  lemma SaveThenResolve(f: Form, catalogue: seq<Ingredient>, id: string)
    requires Save(f, catalogue).Success?
    ensures Aggregator.Resolve(Save(f, catalogue).value, f.draft.id) == Some(f.draft)
    ensures id != f.draft.id ==>
      Aggregator.Resolve(Save(f, catalogue).value, id) == Aggregator.Resolve(catalogue, id)
  {
    Catalogue.SaveThenResolve(catalogue, f.draft);
    if id != f.draft.id {
      Catalogue.SaveKeepsOtherIngredients(catalogue, f.draft, id);
    }
  }

  /** Adding a nutrient keeps the draft's nutrients well formed. */
  lemma AddKeepsWellFormed(f: Form, freshId: string)
    requires AllWellFormed(f.draft.nutrients)
    ensures match AddNutrient(f, freshId)
      case Success(g) => AllWellFormed(g.draft.nutrients)
      case Failure(_) => true
  {
    if AddNutrient(f, freshId).Success? {
      var ns := AddNutrient(f, freshId).value.draft.nutrients;
      forall i | 0 <= i < |ns| ensures WellFormed(ns[i]) {
        if i < |f.draft.nutrients| {
          assert ns[i] == ns[..|f.draft.nutrients|][i];
        }
      }
    }
  }

  /** With an id not yet used in the draft, adding keeps nutrient ids unique. */
  lemma AddKeepsUniqueIds(f: Form, freshId: string)
    requires UniqueKeys(f.draft.nutrients, NutrientId)
    requires !HasKey(f.draft.nutrients, NutrientId, freshId)
    ensures match AddNutrient(f, freshId)
      case Success(g) => UniqueKeys(g.draft.nutrients, NutrientId)
      case Failure(_) => true
  {
    if AddNutrient(f, freshId).Success? {
      var ns := AddNutrient(f, freshId).value.draft.nutrients;
      var m := |f.draft.nutrients|;
      forall i, j | 0 <= i < j < |ns| ensures NutrientId(ns[i]) != NutrientId(ns[j]) {
        assert ns[i] == ns[..m][i];
        if j < m {
          assert ns[j] == ns[..m][j];
        }
      }
    }
  }

  /** Removing keeps the draft's nutrients well formed and their ids unique. */
  lemma RemoveKeepsInvariant(f: Form, id: string)
    ensures AllWellFormed(f.draft.nutrients) ==> AllWellFormed(RemoveNutrient(f, id).draft.nutrients)
    ensures UniqueKeys(f.draft.nutrients, NutrientId) ==>
      UniqueKeys(RemoveNutrient(f, id).draft.nutrients, NutrientId)
  {
    var ns := RemoveNutrient(f, id).draft.nutrients;
    if AllWellFormed(f.draft.nutrients) {
      forall i | 0 <= i < |ns| ensures WellFormed(ns[i]) {
        assert ns[i] in f.draft.nutrients;
      }
    }
    if UniqueKeys(f.draft.nutrients, NutrientId) {
      FilterUniqueKeys(f.draft.nutrients, NutrientId, OtherNutrient(id));
    }
  }

  /** Removing a nutrient id the draft does not hold changes nothing, and
      removing twice is removing once. */
  lemma RemoveAbsentOrTwice(f: Form, id: string)
    ensures !HasKey(f.draft.nutrients, NutrientId, id) ==> RemoveNutrient(f, id) == f
    ensures RemoveNutrient(RemoveNutrient(f, id), id) == RemoveNutrient(f, id)
  {
    if !HasKey(f.draft.nutrients, NutrientId, id) {
      FilterKeepsAll(f.draft.nutrients, OtherNutrient(id));
    }
    FilterIdempotent(f.draft.nutrients, OtherNutrient(id));
  }

  /** Adding a nutrient under a fresh id and then removing that id restores
      the draft. */
  lemma RemoveUndoesAdd(f: Form, freshId: string)
    requires !HasKey(f.draft.nutrients, NutrientId, freshId)
    requires AddNutrient(f, freshId).Success?
    ensures RemoveNutrient(AddNutrient(f, freshId).value, freshId).draft == f.draft
  {
    var ns := f.draft.nutrients;
    var g := AddNutrient(f, freshId).value;
    var added := g.draft.nutrients[|ns|];
    assert g.draft.nutrients == ns + [added];
    FilterAppend(ns, [added], OtherNutrient(freshId));
    forall j | 0 <= j < |ns| ensures OtherNutrient(freshId)(ns[j]) {
      assert NutrientId(ns[j]) != freshId;
    }
    FilterKeepsAll(ns, OtherNutrient(freshId));
    assert Filter([added], OtherNutrient(freshId)) == [] by {
      assert [added][1..] == [];
    }
  }

  /** A save keeps the catalogue registered. */
  lemma SaveKeepsRegistered(f: Form, catalogue: seq<Ingredient>)
    requires Registered(catalogue) && AllWellFormed(f.draft.nutrients)
    ensures match Save(f, catalogue)
      case Success(c) => Registered(c)
      case Failure(_) => true
  {
    if Save(f, catalogue).Success? {
      var r := Save(f, catalogue).value;
      if !HasKey(catalogue, IngredientId, f.draft.id) {
        assert r == catalogue + [f.draft];
        forall i | 0 <= i < |r|
          ensures Registrable(r[i]) && AllWellFormed(r[i].nutrients)
        {
          if i < |catalogue| { assert r[i] == catalogue[i]; }
        }
      }
    }
  }

  /** Deleting (with its cascade) keeps the catalogue registered. */
  lemma DeleteKeepsRegistered(s: Catalogue.Store, id: string)
    requires Registered(s.ingredients)
    ensures Registered(Catalogue.DeleteIngredient(s, id).ingredients)
  {
    var r := Catalogue.DeleteIngredient(s, id).ingredients;
    forall i | 0 <= i < |r|
      ensures Registrable(r[i]) && AllWellFormed(r[i].nutrients)
    {
      assert r[i] in s.ingredients;
      var k :| 0 <= k < |s.ingredients| && s.ingredients[k] == r[i];
    }
  }

  lemma ApplyKeepsInvariant(p: Page, a: Action)
    requires PageInvariant(p)
    ensures PageInvariant(Apply(p, a))
  {
    match a
    case OpenNew(_) =>
    case OpenExisting(k) =>
    case SetName(_) =>
    case SetPrice(_) =>
    case SetInput(_) =>
    case AddNutrientAction(freshId) => AddKeepsWellFormed(p.form, freshId);
    case RemoveNutrientAction(id) => RemoveKeepsInvariant(p.form, id);
    case SaveAction => SaveKeepsRegistered(p.form, p.store.ingredients);
    case DeleteAction(id) => DeleteKeepsRegistered(p.store, id);
  }

  /** Every session of the page keeps the invariant: whatever the user types,
      the catalogue only ever holds named, positively priced ingredients
      whose nutrients are named, non-zero and have a unit. */
  lemma {:induction false} RunKeepsInvariant(p: Page, actions: seq<Action>)
    requires PageInvariant(p)
    ensures PageInvariant(Run(p, actions))
    decreases |actions|
  {
    if |actions| > 0 {
      ApplyKeepsInvariant(p, actions[0]);
      RunKeepsInvariant(Apply(p, actions[0]), actions[1..]);
    }
  }

  /** From the first render with an empty store, the invariant always holds. */
  lemma SessionsStayRegistered(formulas: seq<Formula>, actions: seq<Action>)
    ensures PageInvariant(Run(Page(Catalogue.Store([], formulas), Initial()), actions))
  {
    RunKeepsInvariant(Page(Catalogue.Store([], formulas), Initial()), actions);
  }
}
