/** The formula editor of src/pages/Formular.tsx as a state machine: the
    add and remove handlers for components, the running percentage total,
    the recompute effect, and the guards of the save action. React state
    becomes an Editor value; a rejected action (a toast in the source)
    returns the reason and leaves the state as it was.
 */
module FormulaEditor {
  import opened Types
  import opened Collections
  import opened Aggregator
  import Catalogue

  /** formulaNome, componentes, ingredienteSelecionado and porcentagem. */
  datatype Editor = Editor(name: string, components: seq<Component>, selected: string, percentage: real)

  /** Why an action was refused. */
  datatype Rejection =
    | SelectionInvalid    // no ingredient selected, or a percentage <= 0
    | AlreadyInFormula    // the selected ingredient is already a component
    | TotalAbove100       // the new percentage would take the total above 100
    | NameMissing         // saving without a formula name
    | NoComponents        // saving an empty formula

  /** The state after mounting (lines 45-48). */
  function Initial(): Editor {
    Editor("", [], "", 0.0)
  }

  /** getTotalPorcentagem (lines 182-184) and the total of line 109: the sum
      of the percentages, reduced from the left. */
  function TotalPercentage(comps: seq<Component>): real
    decreases |comps|
  {
    if |comps| == 0 then 0.0
    else TotalPercentage(comps[..|comps| - 1]) + comps[|comps| - 1].percentage
  }

  /** The invariant the handlers keep: every ingredient at most once, every
      percentage positive, the total at most 100. */
  predicate Valid(comps: seq<Component>) {
    && UniqueKeys(comps, ComponentIngredient)
    && (forall i :: 0 <= i < |comps| ==> comps[i].percentage > 0.0)
    && TotalPercentage(comps) <= 100.0
  }

  /** handleAddComponente (lines 87-127). */
  function AddComponent(e: Editor): (r: Result<Editor, Rejection>)
    ensures r == Failure(SelectionInvalid) <==> e.selected == "" || e.percentage <= 0.0
    ensures r == Failure(AlreadyInFormula) <==>
      e.selected != "" && e.percentage > 0.0 && HasKey(e.components, ComponentIngredient, e.selected)
    ensures r == Failure(TotalAbove100) <==>
      && e.selected != "" && e.percentage > 0.0 && !HasKey(e.components, ComponentIngredient, e.selected)
      && TotalPercentage(e.components) + e.percentage > 100.0
    ensures r.Success? <==>
      && e.selected != "" && e.percentage > 0.0 && !HasKey(e.components, ComponentIngredient, e.selected)
      && TotalPercentage(e.components) + e.percentage <= 100.0
    ensures r.Success? ==>
      && |r.value.components| == |e.components| + 1
      && r.value.components[..|e.components|] == e.components
      && r.value.components[|e.components|] == Component(e.selected, e.percentage)
      && r.value.name == e.name
      && r.value.selected == ""
      && r.value.percentage == 0.0
  {
    if e.selected == "" || e.percentage <= 0.0 then Failure(SelectionInvalid)
    else if FindIndex(e.components, ComponentIngredient, e.selected) >= 0 then Failure(AlreadyInFormula)
    else if TotalPercentage(e.components) + e.percentage > 100.0 then Failure(TotalAbove100)
    else
      var comps := e.components + [Component(e.selected, e.percentage)];
      assert comps[..|e.components|] == e.components;
      Success(Editor(e.name, comps, "", 0.0))
  }

  /** handleRemoveComponente (lines 129-131). */
  function RemoveComponent(e: Editor, id: string): (r: Editor)
    ensures !HasKey(r.components, ComponentIngredient, id)
    ensures forall c :: c in r.components <==> c in e.components && c.ingredientId != id
    ensures forall c: Component :: c.ingredientId != id ==>
      multiset(r.components)[c] == multiset(e.components)[c]
    ensures Subseq(r.components, e.components)
    ensures r.name == e.name && r.selected == e.selected && r.percentage == e.percentage
  {
    var comps := Filter(e.components, Catalogue.OtherIngredient(id));
    assert !HasKey(comps, ComponentIngredient, id) by {
      forall j | 0 <= j < |comps| ensures ComponentIngredient(comps[j]) != id {
        assert comps[j] in comps;
      }
    }
    e.(components := comps)
  }

  /** The recompute effect (lines 59-85): the nutrient table and price the
      page shows. The temporary formula's id and name do not influence the
      result, so a fixed id stands for the generated one. */
  function Display(comps: seq<Component>, catalogue: seq<Ingredient>): (r: (NutrientTable, real))
    ensures |comps| == 0 ==> r == ([], 0.0)
  {
    if |comps| > 0 then
      var f := Formula("", "Temporária", comps, None, None);
      (CalculateNutrients(f, catalogue), CalculatePrice(f, catalogue))
    else ([], 0.0)
  }

  /** salvarFormulaFinal (lines 142-180): refuse a missing name or an empty
      formula; otherwise store a new formula under `freshId` with the shown
      nutrient table and price, and clear the name and the components. */
  function SaveFormula(e: Editor, freshId: string, catalogue: seq<Ingredient>, formulas: seq<Formula>)
    : (r: Result<(Editor, seq<Formula>), Rejection>)
    ensures r == Failure(NameMissing) <==> e.name == ""
    ensures r == Failure(NoComponents) <==> e.name != "" && |e.components| == 0
    ensures r.Success? <==> e.name != "" && |e.components| > 0
    ensures r.Success? ==>
      && r.value.0 == e.(name := "", components := [])
      && r.value.1 == Catalogue.SaveFormula(formulas,
           Formula(freshId, e.name, e.components,
             Some(Display(e.components, catalogue).0), Some(Display(e.components, catalogue).1)))
  {
    if e.name == "" then Failure(NameMissing)
    else if |e.components| == 0 then Failure(NoComponents)
    else
      var shown := Display(e.components, catalogue);
      var f := Formula(freshId, e.name, e.components, Some(shown.0), Some(shown.1));
      Success((e.(name := "", components := []), Catalogue.SaveFormula(formulas, f)))
  }

  /** The user actions of the page that touch the formula. */
  datatype Action =
    | Select(id: string)
    | SetPercentage(p: real)
    | SetName(n: string)
    | Add
    | Remove(id: string)
    | Save(freshId: string, catalogue: seq<Ingredient>, formulas: seq<Formula>)

  /** One action; a refused Add or Save leaves the editor as it was. The
      formula list a Save produces is not part of the editor. */
  function Apply(e: Editor, a: Action): Editor {
    match a
    case Select(id) => e.(selected := id)
    case SetPercentage(p) => e.(percentage := p)
    case SetName(n) => e.(name := n)
    case Add =>
      (match AddComponent(e)
       case Success(e') => e'
       case Failure(_) => e)
    case Remove(id) => RemoveComponent(e, id)
    case Save(freshId, catalogue, formulas) =>
      (match SaveFormula(e, freshId, catalogue, formulas)
       case Success(saved) => saved.0
       case Failure(_) => e)
  }

  function Run(e: Editor, actions: seq<Action>): Editor
    decreases |actions|
  {
    if |actions| == 0 then e else Run(Apply(e, actions[0]), actions[1..])
  }

  // ---------------------------------------------------------------------
  // Lemmas
  // ---------------------------------------------------------------------

  lemma {:induction false} TotalAppend(a: seq<Component>, b: seq<Component>)
    ensures TotalPercentage(a + b) == TotalPercentage(a) + TotalPercentage(b)
    decreases |b|
  {
    if |b| == 0 {
      assert a + b == a;
    } else {
      var b' := b[..|b| - 1];
      assert (a + b)[..|a + b| - 1] == a + b';
      assert (a + b)[|a + b| - 1] == b[|b| - 1];
      TotalAppend(a, b');
    }
  }

  /** Dropping components with positive percentages never raises the total. */
  lemma {:induction false} TotalFilterAtMost(comps: seq<Component>, keep: Component -> bool)
    requires forall i :: 0 <= i < |comps| ==> comps[i].percentage > 0.0
    ensures TotalPercentage(Filter(comps, keep)) <= TotalPercentage(comps)
    decreases |comps|
  {
    if |comps| > 0 {
      var c, rest := comps[0], comps[1..];
      assert comps == [c] + rest;
      TotalFilterAtMost(rest, keep);
      TotalAppend([c], rest);
      var head: seq<Component> := if keep(c) then [c] else [];
      TotalAppend(head, Filter(rest, keep));
      assert TotalPercentage([c]) == TotalPercentage([]) + c.percentage;
    }
  }

  /** A successful add keeps the invariant. */
  lemma AddKeepsValid(e: Editor)
    requires Valid(e.components)
    requires AddComponent(e).Success?
    ensures Valid(AddComponent(e).value.components)
  {
    var comps := AddComponent(e).value.components;
    var n := Component(e.selected, e.percentage);
    assert comps == e.components + [n];
    assert !HasKey(e.components, ComponentIngredient, e.selected);
    forall i, j | 0 <= i < j < |comps|
      ensures ComponentIngredient(comps[i]) != ComponentIngredient(comps[j])
    {
      assert comps[i] == e.components[i];
      if j < |e.components| { assert comps[j] == e.components[j]; }
    }
    TotalAppend(e.components, [n]);
    assert TotalPercentage([n]) == TotalPercentage([]) + n.percentage;
  }

  /** A remove keeps the invariant. */
  lemma RemoveKeepsValid(e: Editor, id: string)
    requires Valid(e.components)
    ensures Valid(RemoveComponent(e, id).components)
  {
    var keep := Catalogue.OtherIngredient(id);
    var comps := RemoveComponent(e, id).components;
    assert comps == Filter(e.components, keep);
    assert UniqueKeys(comps, ComponentIngredient) by {
      FilterUniqueKeys(e.components, ComponentIngredient, keep);
    }
    assert TotalPercentage(comps) <= 100.0 by {
      TotalFilterAtMost(e.components, keep);
    }
    forall i | 0 <= i < |comps| ensures comps[i].percentage > 0.0 {
      assert comps[i] in e.components;
    }
  }

  /** Every single action keeps the invariant. */
  lemma ApplyKeepsValid(e: Editor, a: Action)
    requires Valid(e.components)
    ensures Valid(Apply(e, a).components)
  {
    if a.Add? && AddComponent(e).Success? {
      AddKeepsValid(e);
    } else if a.Remove? {
      RemoveKeepsValid(e, a.id);
    }
  }

  /** From any valid editor, every sequence of actions keeps the invariant:
      no ingredient twice and a total of at most 100. */
  lemma {:induction false} RunKeepsValid(e: Editor, actions: seq<Action>)
    requires Valid(e.components)
    ensures Valid(Run(e, actions).components)
    decreases |actions|
  {
    if |actions| > 0 {
      ApplyKeepsValid(e, actions[0]);
      RunKeepsValid(Apply(e, actions[0]), actions[1..]);
    }
  }

  /** In particular every session that starts on a fresh page. */
  lemma SessionsStayValid(actions: seq<Action>)
    ensures UniqueKeys(Run(Initial(), actions).components, ComponentIngredient)
    ensures TotalPercentage(Run(Initial(), actions).components) <= 100.0
  {
    RunKeepsValid(Initial(), actions);
  }

  /** The empty-formula branch of the effect shows what the aggregator would
      compute anyway: the two branches agree for every component list. */
  lemma DisplayAgreesWithAggregator(comps: seq<Component>, catalogue: seq<Ingredient>, f: Formula)
    requires f.components == comps
    ensures Display(comps, catalogue) == (CalculateNutrients(f, catalogue), CalculatePrice(f, catalogue))
  {
    var g := Formula("", "Temporária", comps, None, None);
    assert CalculateNutrients(f, catalogue) == CalculateNutrients(g, catalogue);
    assert CalculatePrice(f, catalogue) == CalculatePrice(g, catalogue);
  }

  lemma {:induction false} CostAtMost(c: Component, catalogue: seq<Ingredient>, maxPrice: real)
    requires c.percentage >= 0.0 && 0.0 <= maxPrice
    requires forall i :: 0 <= i < |catalogue| ==> 0.0 <= catalogue[i].price <= maxPrice
    ensures 0.0 <= Cost(c, catalogue) <= maxPrice * (c.percentage / 100.0)
    decreases |catalogue|
  {
    if |catalogue| == 0 {
      MulMonotone(0.0, maxPrice, c.percentage / 100.0);
    } else if catalogue[0].id == c.ingredientId {
      MulMonotone(catalogue[0].price, maxPrice, c.percentage / 100.0);
    } else {
      CostAtMost(c, catalogue[1..], maxPrice);
    }
  }

  lemma MulMonotone(x: real, y: real, z: real)
    requires 0.0 <= x <= y && 0.0 <= z
    ensures 0.0 <= x * z <= y * z
  {}

  lemma BoundStep(total: real, a: real, b: real, m: real, t: real, tp: real, cp: real)
    requires total == a + b && t == tp + cp
    requires 0.0 <= a <= m * (tp / 100.0)
    requires 0.0 <= b <= m * (cp / 100.0)
    ensures 0.0 <= total <= m * (t / 100.0)
  {}

  /** The induction step of PriceAtMost: one more component. */
  lemma PriceAtMostStep(comps: seq<Component>, catalogue: seq<Ingredient>, maxPrice: real)
    requires |comps| > 0
    requires var c := comps[|comps| - 1];
      0.0 <= Cost(c, catalogue) <= maxPrice * (c.percentage / 100.0)
    requires var p := comps[..|comps| - 1];
      0.0 <= PriceOf(p, catalogue) <= maxPrice * (TotalPercentage(p) / 100.0)
    ensures 0.0 <= PriceOf(comps, catalogue) <= maxPrice * (TotalPercentage(comps) / 100.0)
  {
    var p, c := comps[..|comps| - 1], comps[|comps| - 1];
    PriceStep(comps, catalogue);
    BoundStep(PriceOf(comps, catalogue), PriceOf(p, catalogue), Cost(c, catalogue),
      maxPrice, TotalPercentage(comps), TotalPercentage(p), c.percentage);
  }

  /** With prices between 0 and maxPrice, the price of a formula lies between
      0 and maxPrice times its total percentage / 100. */
  lemma {:induction false} PriceAtMost(comps: seq<Component>, catalogue: seq<Ingredient>, maxPrice: real)
    requires 0.0 <= maxPrice
    requires forall i :: 0 <= i < |comps| ==> comps[i].percentage >= 0.0
    requires forall i :: 0 <= i < |catalogue| ==> 0.0 <= catalogue[i].price <= maxPrice
    ensures 0.0 <= PriceOf(comps, catalogue) <= maxPrice * (TotalPercentage(comps) / 100.0)
    decreases |comps|
  {
    if |comps| > 0 {
      var p, c := comps[..|comps| - 1], comps[|comps| - 1];
      assert 0.0 <= PriceOf(p, catalogue) <= maxPrice * (TotalPercentage(p) / 100.0) by {
        PriceAtMost(p, catalogue, maxPrice);
      }
      assert 0.0 <= Cost(c, catalogue) <= maxPrice * (c.percentage / 100.0) by {
        CostAtMost(c, catalogue, maxPrice);
      }
      PriceAtMostStep(comps, catalogue, maxPrice);
    } else {
      assert maxPrice * (0.0 / 100.0) == 0.0;
    }
  }

  /** So a formula that keeps the editor's invariant never costs more per kg
      than its most expensive catalogue ingredient. */
  lemma ValidPriceAtMost(comps: seq<Component>, catalogue: seq<Ingredient>, maxPrice: real)
    requires Valid(comps)
    requires 0.0 <= maxPrice
    requires forall i :: 0 <= i < |catalogue| ==> 0.0 <= catalogue[i].price <= maxPrice
    ensures 0.0 <= PriceOf(comps, catalogue) <= maxPrice
  {
    assert forall i :: 0 <= i < |comps| ==> comps[i].percentage >= 0.0;
    PriceAtMost(comps, catalogue, maxPrice);
    MulMonotone(TotalPercentage(comps) / 100.0, 1.0, maxPrice);
    assert maxPrice * (TotalPercentage(comps) / 100.0) <= maxPrice;
  }

  /** The cascade of deleteIngrediente keeps the invariant of every stored
      formula. */
  lemma CascadeKeepsValid(s: Catalogue.Store, id: string, k: nat)
    requires k < |s.formulas|
    requires Valid(s.formulas[k].components)
    ensures Valid(Catalogue.DeleteIngredient(s, id).formulas[k].components)
  {
    var e := Editor(s.formulas[k].name, s.formulas[k].components, "", 0.0);
    RemoveKeepsValid(e, id);
    assert Catalogue.DeleteIngredient(s, id).formulas[k].components == RemoveComponent(e, id).components;
  }
}
