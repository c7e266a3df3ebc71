/** The formula aggregator of src/lib/storage-utils.ts: calcularNutrientes
    (lines 89-130) and calcularPrecoFinal (lines 132-145), with the
    ingredient catalogue passed in instead of read from browser storage.

    The nutrient computation is modelled as the two nested loops the source
    runs (RecordComponents over components, RecordNutrients over the
    nutrients of each resolved ingredient). The lemmas then show it equals one
    left fold (Accumulate) over the flat sequence of scaled contributions and
    characterise that fold independently: its keys are the distinct nutrient
    names in first-encounter order, and each value is the sum of the
    contributions that carry the first-seen unit of that name.
 */
module Aggregator {
  import opened Types
  import opened Collections

  // ---------------------------------------------------------------------
  // The nutrient table (the Map of line 94)
  // ---------------------------------------------------------------------

  function EntryName(e: (string, Total)): string { e.0 }

  /** The table's nutrient names, in insertion order. */
  function Keys(t: NutrientTable): (r: seq<string>)
    ensures |r| == |t|
    ensures forall i :: 0 <= i < |t| ==> r[i] == t[i].0
  {
    seq(|t|, i requires 0 <= i < |t| => t[i].0)
  }

  lemma KeysHasKey(t: NutrientTable, n: string)
    ensures n in Keys(t) <==> HasKey(t, EntryName, n)
  {
    if n in Keys(t) {
      var i :| 0 <= i < |Keys(t)| && Keys(t)[i] == n;
      assert EntryName(t[i]) == n;
    }
    if HasKey(t, EntryName, n) {
      var i :| 0 <= i < |t| && EntryName(t[i]) == n;
      assert Keys(t)[i] == n;
    }
  }

  /** Map.get: the total stored under `name`, if any. */
  function Lookup(t: NutrientTable, name: string): (r: Option<Total>)
    ensures r.None? <==> !HasKey(t, EntryName, name)
    ensures r.Some? ==> exists k :: 0 <= k < |t| && t[k] == (name, r.value) &&
                                    (forall j :: 0 <= j < k ==> t[j].0 != name)
  {
    var k := FindIndex(t, EntryName, name);
    if k < 0 then None else Some(t[k].1)
  }

  // ---------------------------------------------------------------------
  // Resolving a component (the find of lines 98 and 137)
  // ---------------------------------------------------------------------

  /** The first catalogue entry with the given id, or None. */
  function Resolve(catalogue: seq<Ingredient>, id: string): (r: Option<Ingredient>)
    ensures r.None? <==> !HasKey(catalogue, IngredientId, id)
    ensures r.Some? ==> r.value.id == id && r.value in catalogue
    ensures r.Some? ==> exists k :: 0 <= k < |catalogue| && catalogue[k] == r.value &&
                                    (forall j :: 0 <= j < k ==> catalogue[j].id != id)
  {
    var k := FindIndex(catalogue, IngredientId, id);
    if k < 0 then None else Some(catalogue[k])
  }

  // ---------------------------------------------------------------------
  // calcularNutrientes
  // ---------------------------------------------------------------------

  /** One nutrient of one resolved ingredient, already scaled. */
  datatype Contribution = Contribution(name: string, amount: real, unit: string)

  function ContributionName(c: Contribution): string { c.name }

  /** Lines 101 and 105: the nutrient value times porcentagem / 100. */
  function Scale(n: Nutrient, percentage: real): Contribution {
    Contribution(n.name, n.value * (percentage / 100.0), n.unit)
  }

  /** Lines 107-120: record one contribution. A new name is appended with the
      contribution; a known name with the same unit grows by it; a known name
      with another unit keeps its entry and the contribution is dropped. */
  function Record(t: NutrientTable, c: Contribution): (r: NutrientTable)
    ensures Lookup(t, c.name).None? ==> Lookup(r, c.name) == Some(Total(c.amount, c.unit))
    ensures Lookup(t, c.name).Some? && Lookup(t, c.name).value.unit == c.unit ==>
      Lookup(r, c.name) == Some(Total(Lookup(t, c.name).value.value + c.amount, c.unit))
    ensures Lookup(t, c.name).Some? && Lookup(t, c.name).value.unit != c.unit ==>
      Lookup(r, c.name) == Lookup(t, c.name)
    ensures forall n :: n != c.name ==> Lookup(r, n) == Lookup(t, n)
    ensures Keys(r) == if HasKey(t, EntryName, c.name) then Keys(t) else Keys(t) + [c.name]
  {
    var k := FindIndex(t, EntryName, c.name);
    assert k < 0 ==> Lookup(t, c.name) == None;
    assert k >= 0 ==> Lookup(t, c.name) == Some(t[k].1);
    if k < 0 then
      var r := t + [(c.name, Total(c.amount, c.unit))];
      AppendedEntry(t, (c.name, Total(c.amount, c.unit)));
      r
    else if t[k].1.unit == c.unit then
      var r := t[k := (c.name, Total(t[k].1.value + c.amount, c.unit))];
      ReplacedEntry(t, k, (c.name, Total(t[k].1.value + c.amount, c.unit)));
      r
    else
      t
  }

  /** Appending an entry under a new name leaves every other lookup alone. */
  lemma AppendedEntry(t: NutrientTable, e: (string, Total))
    requires !HasKey(t, EntryName, e.0)
    ensures Lookup(t + [e], e.0) == Some(e.1)
    ensures forall n :: n != e.0 ==> Lookup(t + [e], n) == Lookup(t, n)
    ensures Keys(t + [e]) == Keys(t) + [e.0]
  {
    forall n {
      FindIndexSnoc(t, e, EntryName, n);
    }
    assert Keys(t + [e]) == Keys(t) + [e.0];
  }

  /** Replacing an entry by one with the same name leaves the other lookups
      and the keys alone. */
  lemma ReplacedEntry(t: NutrientTable, k: nat, e: (string, Total))
    requires k < |t| && FindIndex(t, EntryName, e.0) == k
    ensures Lookup(t[k := e], e.0) == Some(e.1)
    ensures forall n :: n != e.0 ==> Lookup(t[k := e], n) == Lookup(t, n)
    ensures Keys(t[k := e]) == Keys(t)
  {
    var r := t[k := e];
    forall n {
      FindIndexSameKeys(r, t, EntryName, n);
    }
    assert Keys(r) == Keys(t);
  }

  /** The inner loop of lines 104-121, over one ingredient's nutrients. */
  function RecordNutrients(t: NutrientTable, ns: seq<Nutrient>, percentage: real): NutrientTable
    decreases |ns|
  {
    if |ns| == 0 then t
    else RecordNutrients(Record(t, Scale(ns[0], percentage)), ns[1..], percentage)
  }

  /** The outer loop of lines 97-122: components whose ingredient is not in
      the catalogue are skipped. */
  function RecordComponents(t: NutrientTable, comps: seq<Component>, catalogue: seq<Ingredient>): NutrientTable
    decreases |comps|
  {
    if |comps| == 0 then t
    else
      var c := comps[0];
      var t' := match Resolve(catalogue, c.ingredientId)
        case None => t
        case Some(ing) => RecordNutrients(t, ing.nutrients, c.percentage);
      RecordComponents(t', comps[1..], catalogue)
  }

  /** calcularNutrientes: the aggregated table starts empty. */
  function CalculateNutrients(f: Formula, catalogue: seq<Ingredient>): (r: NutrientTable)
    ensures NoDup(Keys(r))
    ensures Keys(r) == Dedup(Names(Contributions(f.components, catalogue)))
    ensures |f.components| == 0 ==> r == []
  {
    RecordComponentsIsAccumulate([], f.components, catalogue);
    AccumulateKeys(Contributions(f.components, catalogue));
    RecordComponents([], f.components, catalogue)
  }

  // ---------------------------------------------------------------------
  // The flat view of the same computation
  // ---------------------------------------------------------------------

  /** Every nutrient of `ns`, scaled, in order. */
  function ScaleAll(ns: seq<Nutrient>, percentage: real): (r: seq<Contribution>)
    ensures |r| == |ns|
    decreases |ns|
  {
    if |ns| == 0 then [] else [Scale(ns[0], percentage)] + ScaleAll(ns[1..], percentage)
  }

  /** ScaleAll scales each nutrient in place: the i-th contribution is the
      i-th nutrient times percentage / 100. */
  lemma {:induction false} ScaleAllPointwise(ns: seq<Nutrient>, percentage: real)
    ensures forall i :: 0 <= i < |ns| ==> ScaleAll(ns, percentage)[i] == Scale(ns[i], percentage)
    ensures forall i :: 0 <= i < |ns| ==>
      && ScaleAll(ns, percentage)[i].name == ns[i].name
      && ScaleAll(ns, percentage)[i].amount == ns[i].value * (percentage / 100.0)
      && ScaleAll(ns, percentage)[i].unit == ns[i].unit
    decreases |ns|
  {
    if |ns| > 0 {
      ScaleAllPointwise(ns[1..], percentage);
      var r := ScaleAll(ns, percentage);
      assert r == [Scale(ns[0], percentage)] + ScaleAll(ns[1..], percentage);
      forall i | 1 <= i < |ns| ensures r[i] == Scale(ns[i], percentage) {
        assert r[i] == ScaleAll(ns[1..], percentage)[i - 1];
        assert ns[1..][i - 1] == ns[i];
      }
    }
  }

  /** What one component contributes: nothing when its ingredient is unknown. */
  function ComponentContributions(c: Component, catalogue: seq<Ingredient>): seq<Contribution> {
    match Resolve(catalogue, c.ingredientId)
    case None => []
    case Some(ing) => ScaleAll(ing.nutrients, c.percentage)
  }

  /** All contributions of a formula, in the order the loops visit them. */
  function Contributions(comps: seq<Component>, catalogue: seq<Ingredient>): seq<Contribution>
    decreases |comps|
  {
    if |comps| == 0 then []
    else ComponentContributions(comps[0], catalogue) + Contributions(comps[1..], catalogue)
  }

  /** A single left fold of Record over contributions. */
  function Accumulate(t: NutrientTable, cs: seq<Contribution>): NutrientTable
    decreases |cs|
  {
    if |cs| == 0 then t else Accumulate(Record(t, cs[0]), cs[1..])
  }

  function Names(cs: seq<Contribution>): (r: seq<string>)
    ensures |r| == |cs|
    ensures forall i :: 0 <= i < |cs| ==> r[i] == cs[i].name
  {
    seq(|cs|, i requires 0 <= i < |cs| => cs[i].name)
  }

  /** The unit of the first contribution named `n`. */
  function FirstUnit(cs: seq<Contribution>, n: string): string
    requires HasKey(cs, ContributionName, n)
  {
    cs[FindIndex(cs, ContributionName, n)].unit
  }

  /** The sum of the amounts of the contributions named `n` with unit `u`. */
  function SumFor(cs: seq<Contribution>, n: string, u: string): real
    decreases |cs|
  {
    if |cs| == 0 then 0.0
    else
      var c := cs[|cs| - 1];
      SumFor(cs[..|cs| - 1], n, u) + (if c.name == n && c.unit == u then c.amount else 0.0)
  }

  lemma {:induction false} SumForAbsent(cs: seq<Contribution>, n: string, u: string)
    requires !HasKey(cs, ContributionName, n)
    ensures SumFor(cs, n, u) == 0.0
    decreases |cs|
  {
    if |cs| > 0 {
      var p := cs[..|cs| - 1];
      assert !HasKey(p, ContributionName, n) by {
        forall j | 0 <= j < |p| ensures ContributionName(p[j]) != n {
          assert p[j] == cs[j];
        }
      }
      SumForAbsent(p, n, u);
      assert ContributionName(cs[|cs| - 1]) != n;
    }
  }

  lemma {:induction false} AccumulateAppend(t: NutrientTable, a: seq<Contribution>, b: seq<Contribution>)
    ensures Accumulate(t, a + b) == Accumulate(Accumulate(t, a), b)
    decreases |a|
  {
    if |a| == 0 {
      assert a + b == b;
    } else {
      assert (a + b)[0] == a[0];
      assert (a + b)[1..] == a[1..] + b;
      AccumulateAppend(Record(t, a[0]), a[1..], b);
    }
  }

  lemma AccumulateSnoc(t: NutrientTable, cs: seq<Contribution>, c: Contribution)
    ensures Accumulate(t, cs + [c]) == Record(Accumulate(t, cs), c)
  {
    AccumulateAppend(t, cs, [c]);
  }

  /** The inner loop is the fold over the ingredient's scaled nutrients. */
  lemma {:induction false} RecordNutrientsIsAccumulate(t: NutrientTable, ns: seq<Nutrient>, percentage: real)
    ensures RecordNutrients(t, ns, percentage) == Accumulate(t, ScaleAll(ns, percentage))
    decreases |ns|
  {
    if |ns| > 0 {
      var rest := ScaleAll(ns[1..], percentage);
      assert ScaleAll(ns, percentage) == [Scale(ns[0], percentage)] + rest;
      assert ([Scale(ns[0], percentage)] + rest)[1..] == rest;
      RecordNutrientsIsAccumulate(Record(t, Scale(ns[0], percentage)), ns[1..], percentage);
    }
  }

  /** The nested loops compute the single fold over all contributions. */
  lemma {:induction false} RecordComponentsIsAccumulate(t: NutrientTable, comps: seq<Component>, catalogue: seq<Ingredient>)
    ensures RecordComponents(t, comps, catalogue) == Accumulate(t, Contributions(comps, catalogue))
    decreases |comps|
  {
    if |comps| > 0 {
      var c := comps[0];
      var rest := Contributions(comps[1..], catalogue);
      assert Contributions(comps, catalogue) == ComponentContributions(c, catalogue) + rest;
      match Resolve(catalogue, c.ingredientId)
      case None =>
        assert ComponentContributions(c, catalogue) + rest == rest;
        RecordComponentsIsAccumulate(t, comps[1..], catalogue);
      case Some(ing) =>
        RecordNutrientsIsAccumulate(t, ing.nutrients, c.percentage);
        AccumulateAppend(t, ScaleAll(ing.nutrients, c.percentage), rest);
        RecordComponentsIsAccumulate(RecordNutrients(t, ing.nutrients, c.percentage), comps[1..], catalogue);
    }
  }

  /** The keys of the fold are the distinct contribution names, in
      first-encounter order. */
  lemma {:induction false} AccumulateKeys(cs: seq<Contribution>)
    ensures Keys(Accumulate([], cs)) == Dedup(Names(cs))
    decreases |cs|
  {
    if |cs| > 0 {
      var p := cs[..|cs| - 1];
      var c := cs[|cs| - 1];
      assert cs == p + [c];
      AccumulateKeys(p);
      AccumulateSnoc([], p, c);
      var t := Accumulate([], p);
      assert Names(cs)[..|cs| - 1] == Names(p);
      KeysHasKey(t, c.name);
    }
  }

  lemma FirstUnitSnoc(p: seq<Contribution>, c: Contribution, n: string)
    ensures HasKey(p + [c], ContributionName, n) <==> HasKey(p, ContributionName, n) || c.name == n
    ensures HasKey(p, ContributionName, n) ==> FirstUnit(p + [c], n) == FirstUnit(p, n)
    ensures !HasKey(p, ContributionName, n) && c.name == n ==> FirstUnit(p + [c], n) == c.unit
  {
    FindIndexSnoc(p, c, ContributionName, n);
    var s := p + [c];
    if HasKey(p, ContributionName, n) {
      var k := FindIndex(p, ContributionName, n);
      assert s[k] == p[k];
    } else if c.name == n {
      assert ContributionName(s[|p|]) == n;
    } else {
      assert !HasKey(s, ContributionName, n) by {
        forall j | 0 <= j < |s| ensures ContributionName(s[j]) != n {
          if j < |p| { assert s[j] == p[j]; }
        }
      }
    }
  }

  lemma SumForSnoc(p: seq<Contribution>, c: Contribution, n: string, u: string)
    ensures SumFor(p + [c], n, u) == SumFor(p, n, u) + (if c.name == n && c.unit == u then c.amount else 0.0)
  {
    assert (p + [c])[..|p|] == p;
  }

  /** The independent description of a table entry: absent for a name no
      contribution carries, otherwise the sum of the amounts of the
      contributions with that name and its first-seen unit, in that unit. */
  function Expected(cs: seq<Contribution>, n: string): Option<Total> {
    if HasKey(cs, ContributionName, n)
    then Some(Total(SumFor(cs, n, FirstUnit(cs, n)), FirstUnit(cs, n)))
    else None
  }

  /** One Record step keeps a table in agreement with Expected. */
  lemma RecordMatchesExpected(t: NutrientTable, p: seq<Contribution>, c: Contribution, n: string)
    requires Lookup(t, n) == Expected(p, n)
    ensures Lookup(Record(t, c), n) == Expected(p + [c], n)
  {
    if HasKey(p, ContributionName, n) {
      RecordSeenName(t, p, c, n);
    } else if c.name == n {
      RecordNewName(t, p, c);
    } else {
      FirstUnitSnoc(p, c, n);
      assert Expected(p + [c], n) == None;
    }
  }

  /** The Record step for a name some earlier contribution already carried. */
  lemma RecordSeenName(t: NutrientTable, p: seq<Contribution>, c: Contribution, n: string)
    requires Lookup(t, n) == Expected(p, n)
    requires HasKey(p, ContributionName, n)
    ensures Lookup(Record(t, c), n) == Expected(p + [c], n)
  {
    var u := FirstUnit(p, n);
    var x := SumFor(p, n, u);
    ExpectedSeenSnoc(p, c, n, u, x);
    RecordPresent(t, c, n, x, u);
  }

  /** Record on a name already in the table adds the amount when the units
      agree, and changes nothing otherwise. */
  lemma RecordPresent(t: NutrientTable, c: Contribution, n: string, x: real, u: string)
    requires Lookup(t, n) == Some(Total(x, u))
    ensures Lookup(Record(t, c), n) == Some(Total(x + (if c.name == n && c.unit == u then c.amount else 0.0), u))
  {
    var v := Total(x, u);
    if c.name != n {
      RecordOtherName(t, c, n, v);
    } else if c.unit == v.unit {
      RecordSameUnit(t, c, v);
    } else {
      RecordOtherUnit(t, c, v);
    }
  }

  /** Adding a contribution to a name already seen adds its amount when the
      units agree, and nothing otherwise. */
  lemma ExpectedSeenSnoc(p: seq<Contribution>, c: Contribution, n: string, u: string, x: real)
    requires HasKey(p, ContributionName, n)
    requires u == FirstUnit(p, n) && x == SumFor(p, n, u)
    ensures Expected(p + [c], n) == Some(Total(x + (if c.name == n && c.unit == u then c.amount else 0.0), u))
  {
    FirstUnitSnoc(p, c, n);
    SumForSnoc(p, c, n, u);
  }

  lemma RecordOtherName(t: NutrientTable, c: Contribution, n: string, v: Total)
    requires Lookup(t, n) == Some(v) && c.name != n
    ensures Lookup(Record(t, c), n) == Some(v)
  {
  }

  lemma RecordSameUnit(t: NutrientTable, c: Contribution, v: Total)
    requires Lookup(t, c.name) == Some(v) && c.unit == v.unit
    ensures Lookup(Record(t, c), c.name) == Some(Total(v.value + c.amount, v.unit))
  {
    var r := Record(t, c);
    assert Lookup(t, c.name).value == v;
  }

  lemma RecordOtherUnit(t: NutrientTable, c: Contribution, v: Total)
    requires Lookup(t, c.name) == Some(v) && c.unit != v.unit
    ensures Lookup(Record(t, c), c.name) == Some(v)
  {
  }

  /** The Record step for the first contribution under its name. */
  lemma RecordNewName(t: NutrientTable, p: seq<Contribution>, c: Contribution)
    requires Lookup(t, c.name) == Expected(p, c.name)
    requires !HasKey(p, ContributionName, c.name)
    ensures Lookup(Record(t, c), c.name) == Expected(p + [c], c.name)
  {
    FirstUnitSnoc(p, c, c.name);
    SumForAbsent(p, c.name, c.unit);
    SumForSnoc(p, c, c.name, c.unit);
    assert Expected(p + [c], c.name) == Some(Total(c.amount, c.unit));
  }

  /** The value under each name of the fold is the Expected one. */
  lemma {:induction false} AccumulateValue(cs: seq<Contribution>, n: string)
    ensures Lookup(Accumulate([], cs), n) == Expected(cs, n)
    decreases |cs|
  {
    if |cs| > 0 {
      var p := cs[..|cs| - 1];
      var c := cs[|cs| - 1];
      assert cs == p + [c];
      AccumulateValue(p, n);
      AccumulateSnoc([], p, c);
      RecordMatchesExpected(Accumulate([], p), p, c, n);
    }
  }

  lemma {:induction false} ContributionsAppend(a: seq<Component>, b: seq<Component>, catalogue: seq<Ingredient>)
    ensures Contributions(a + b, catalogue) == Contributions(a, catalogue) + Contributions(b, catalogue)
    decreases |a|
  {
    if |a| == 0 {
      assert a + b == b;
    } else {
      var head := ComponentContributions(a[0], catalogue);
      var ra, rb := Contributions(a[1..], catalogue), Contributions(b, catalogue);
      assert Contributions(a + b, catalogue) == head + Contributions(a[1..] + b, catalogue) by {
        AppendSplitsHead(a, b);
      }
      assert Contributions(a[1..] + b, catalogue) == ra + rb by {
        ContributionsAppend(a[1..], b, catalogue);
      }
      AppendAssociates(head, ra, rb);
    }
  }

  /** calcularNutrientes, value by value: a name is present exactly when some
      resolved ingredient has a nutrient of that name, and then holds the
      scaled sum of the contributions in the first-seen unit. */
  lemma NutrientValue(f: Formula, catalogue: seq<Ingredient>, n: string)
    ensures Lookup(CalculateNutrients(f, catalogue), n) == Expected(Contributions(f.components, catalogue), n)
  {
    RecordComponentsIsAccumulate([], f.components, catalogue);
    AccumulateValue(Contributions(f.components, catalogue), n);
  }

  /** A name that only one contribution carries gets exactly that
      contribution's scaled amount and unit. */
  lemma {:induction false} SingleSource(cs: seq<Contribution>, n: string, i: nat)
    requires i < |cs| && cs[i].name == n
    requires forall j :: 0 <= j < |cs| && j != i ==> cs[j].name != n
    ensures Expected(cs, n) == Some(Total(cs[i].amount, cs[i].unit))
    decreases |cs|
  {
    assert HasKey(cs, ContributionName, n);
    FindIndexIsFirst(cs, ContributionName, n, i);
    var p := cs[..|cs| - 1];
    if i == |cs| - 1 {
      assert !HasKey(p, ContributionName, n) by {
        forall j | 0 <= j < |p| ensures ContributionName(p[j]) != n {
          assert p[j] == cs[j];
        }
      }
      SumForAbsent(p, n, cs[i].unit);
    } else {
      assert forall j :: 0 <= j < |p| && j != i ==> p[j].name != n;
      SingleSource(p, n, i);
      FindIndexIsFirst(p, ContributionName, n, i);
      assert cs[|cs| - 1].name != n;
    }
  }

  /** A worked example: 50% of an ingredient with Protein
      20 g/kg and 50% of one with Protein 10 g/kg give Protein 15 g/kg. */
  lemma ProteinExample()
    ensures CalculateNutrients(ExampleFormula(), ExampleCatalogue()) == [("Protein", Total(15.0, "g/kg"))]
  {
    var comps, cat := ExampleFormula().components, ExampleCatalogue();
    var t1 := [("Protein", Total(10.0, "g/kg"))];
    assert RecordComponents([], comps, cat) == RecordComponents(t1, comps[1..], cat) by {
      ExampleFirstComponent();
    }
    assert RecordComponents(t1, comps[1..], cat) == [("Protein", Total(15.0, "g/kg"))] by {
      ExampleSecondComponent();
      assert comps[1..][1..] == [];
    }
  }

  function ExampleCatalogue(): seq<Ingredient> {
    [Ingredient("A", "Milho", 1.0, [Nutrient("n1", "Protein", 20.0, "g/kg")]),
     Ingredient("B", "Farelo", 2.0, [Nutrient("n2", "Protein", 10.0, "g/kg")])]
  }

  function ExampleFormula(): Formula {
    Formula("F", "Ração", [Component("A", 50.0), Component("B", 50.0)], None, None)
  }

  lemma ExampleFirstComponent()
    ensures Resolve(ExampleCatalogue(), "A") == Some(ExampleCatalogue()[0])
    ensures RecordNutrients([], ExampleCatalogue()[0].nutrients, 50.0) == [("Protein", Total(10.0, "g/kg"))]
  {
    var a := ExampleCatalogue()[0];
    FindIndexIsFirst(ExampleCatalogue(), IngredientId, "A", 0);
    assert Scale(a.nutrients[0], 50.0) == Contribution("Protein", 10.0, "g/kg");
    assert Record([], Contribution("Protein", 10.0, "g/kg")) == [("Protein", Total(10.0, "g/kg"))];
    assert a.nutrients[1..] == [];
  }

  lemma ExampleSecondComponent()
    ensures Resolve(ExampleCatalogue(), "B") == Some(ExampleCatalogue()[1])
    ensures RecordNutrients([("Protein", Total(10.0, "g/kg"))], ExampleCatalogue()[1].nutrients, 50.0)
      == [("Protein", Total(15.0, "g/kg"))]
  {
    var b := ExampleCatalogue()[1];
    var t1 := [("Protein", Total(10.0, "g/kg"))];
    FindIndexIsFirst(ExampleCatalogue(), IngredientId, "B", 1);
    assert Scale(b.nutrients[0], 50.0) == Contribution("Protein", 5.0, "g/kg");
    assert FindIndex(t1, EntryName, "Protein") == 0;
    assert Record(t1, Contribution("Protein", 5.0, "g/kg")) == [("Protein", Total(15.0, "g/kg"))];
    assert b.nutrients[1..] == [];
  }

  // ---------------------------------------------------------------------
  // calcularPrecoFinal
  // ---------------------------------------------------------------------

  /** Line 141 with the find of line 137: the first catalogue ingredient
      with the component's id prices it, at porcentagem / 100 of a kg; the
      component costs 0 when there is none. */
  function Cost(c: Component, catalogue: seq<Ingredient>): real
    decreases |catalogue|
  {
    if |catalogue| == 0 then 0.0
    else if catalogue[0].id == c.ingredientId then catalogue[0].price * (c.percentage / 100.0)
    else Cost(c, catalogue[1..])
  }

  /** Looking up an id past a first entry with another id. */
  lemma ResolveCons(x: Ingredient, rest: seq<Ingredient>, id: string)
    requires x.id != id
    ensures Resolve([x] + rest, id) == Resolve(rest, id)
  {
    var s := [x] + rest;
    assert s[1..] == rest;
  }

  /** The cost is that of the ingredient Resolve finds, or 0. */
  lemma {:induction false} CostResolves(c: Component, catalogue: seq<Ingredient>)
    ensures Cost(c, catalogue) ==
      match Resolve(catalogue, c.ingredientId)
      case None => 0.0
      case Some(ing) => ing.price * (c.percentage / 100.0)
  {
    if !HasKey(catalogue, IngredientId, c.ingredientId) {
      CostUnresolved(c, catalogue);
    } else {
      var ing := Resolve(catalogue, c.ingredientId).value;
      CostResolved(c, catalogue, ing);
    }
  }

  /** The cost of a component whose ingredient is found. */
  lemma {:induction false} CostResolved(c: Component, catalogue: seq<Ingredient>, ing: Ingredient)
    requires Resolve(catalogue, c.ingredientId) == Some(ing)
    ensures Cost(c, catalogue) == ing.price * (c.percentage / 100.0)
    decreases |catalogue|
  {
    var x, rest := catalogue[0], catalogue[1..];
    if x.id == c.ingredientId {
      FindIndexIsFirst(catalogue, IngredientId, c.ingredientId, 0);
    } else {
      assert Resolve(rest, c.ingredientId) == Some(ing) by {
        assert catalogue == [x] + rest;
        ResolveCons(x, rest, c.ingredientId);
      }
      CostResolved(c, rest, ing);
    }
  }

  /** The running total of lines 134-142, before rounding. */
  function PriceOf(comps: seq<Component>, catalogue: seq<Ingredient>): real
    decreases |comps|
  {
    if |comps| == 0 then 0.0
    else PriceOf(comps[..|comps| - 1], catalogue) + Cost(comps[|comps| - 1], catalogue)
  }

  /** calcularPrecoFinal (unrounded). */
  function CalculatePrice(f: Formula, catalogue: seq<Ingredient>): (r: real)
    ensures |f.components| == 0 ==> r == 0.0
  {
    PriceOf(f.components, catalogue)
  }

  /** The same example priced: half of an ingredient at 1 and half of one at
      2 cost 1.5 per kg. */
  lemma PriceExample()
    ensures CalculatePrice(ExampleFormula(), ExampleCatalogue()) == 1.5
  {
    var catalogue, comps := ExampleCatalogue(), ExampleFormula().components;
    assert Cost(comps[0], catalogue) == 0.5;
    assert Cost(comps[1], catalogue) == 1.0 by {
      assert catalogue[0].id != comps[1].ingredientId;
      assert catalogue[1..][0] == catalogue[1];
    }
    assert PriceOf(comps[..1], catalogue) == 0.5 by {
      assert comps[..1][..0] == [];
    }
    assert comps[..|comps| - 1] == comps[..1];
  }

  /** The price of a concatenation is the sum of the prices. */
  lemma {:induction false} PriceAppend(a: seq<Component>, b: seq<Component>, catalogue: seq<Ingredient>)
    ensures PriceOf(a + b, catalogue) == PriceOf(a, catalogue) + PriceOf(b, catalogue)
    decreases |b|
  {
    if |b| == 0 {
      assert a + b == a;
    } else {
      var b' := b[..|b| - 1];
      assert (a + b)[..|a + b| - 1] == a + b';
      assert (a + b)[|a + b| - 1] == b[|b| - 1];
      PriceAppend(a, b', catalogue);
    }
  }

  /** A component whose ingredient is not in the catalogue, inserted anywhere,
      changes neither the nutrient table nor the price. */
  lemma UnresolvedContributesNothing(f: Formula, i: nat, c: Component, catalogue: seq<Ingredient>)
    requires i <= |f.components|
    requires !HasKey(catalogue, IngredientId, c.ingredientId)
    ensures var g := f.(components := f.components[..i] + [c] + f.components[i..]);
      && CalculateNutrients(g, catalogue) == CalculateNutrients(f, catalogue)
      && CalculatePrice(g, catalogue) == CalculatePrice(f, catalogue)
  {
    var a, b := f.components[..i], f.components[i..];
    assert f.components == a + b;
    var g := f.(components := a + [c] + b);
    assert Contributions(g.components, catalogue) == Contributions(f.components, catalogue) by {
      ContributionsAppend(a + [c], b, catalogue);
      ContributionsAppend(a, [c], catalogue);
      ContributionsAppend(a, b, catalogue);
      assert Contributions([c], catalogue) == [];
      AppendEmptyMiddle(Contributions(a, catalogue), Contributions(b, catalogue));
    }
    assert CalculateNutrients(g, catalogue) == CalculateNutrients(f, catalogue) by {
      RecordComponentsIsAccumulate([], g.components, catalogue);
      RecordComponentsIsAccumulate([], f.components, catalogue);
    }
    assert Cost(c, catalogue) == 0.0 by {
      CostUnresolved(c, catalogue);
    }
    assert CalculatePrice(g, catalogue) == CalculatePrice(f, catalogue) by {
      PriceAppend(a + [c], b, catalogue);
      PriceAppend(a, [c], catalogue);
      PriceAppend(a, b, catalogue);
    }
  }

  /** A component with its percentage multiplied by `k`. */
  function ScaleComponent(c: Component, k: real): Component {
    c.(percentage := k * c.percentage)
  }

  /** Every percentage of a formula multiplied by `k`. */
  function ScalePercentages(comps: seq<Component>, k: real): (r: seq<Component>)
    ensures |r| == |comps|
    ensures forall i :: 0 <= i < |comps| ==> r[i] == ScaleComponent(comps[i], k)
    decreases |comps|
  {
    if |comps| == 0 then []
    else ScalePercentages(comps[..|comps| - 1], k) + [ScaleComponent(comps[|comps| - 1], k)]
  }

  lemma PriceStep(comps: seq<Component>, catalogue: seq<Ingredient>)
    requires |comps| > 0
    ensures PriceOf(comps, catalogue) ==
      PriceOf(comps[..|comps| - 1], catalogue) + Cost(comps[|comps| - 1], catalogue)
  {}

  lemma LinearStep(k: real, total: real, a: real, b: real, scaled: real, ka: real, kb: real)
    requires total == a + b && scaled == ka + kb && ka == k * a && kb == k * b
    ensures scaled == k * total
  {}

  /** Line 141 is linear in the percentage. */
  lemma {:induction false} CostIsLinear(c: Component, k: real, catalogue: seq<Ingredient>)
    ensures Cost(ScaleComponent(c, k), catalogue) == k * Cost(c, catalogue)
    decreases |catalogue|
  {
    if |catalogue| == 0 {
    } else if catalogue[0].id == c.ingredientId {
      ScaledShare(catalogue[0].price, c.percentage, k);
    } else {
      CostIsLinear(c, k, catalogue[1..]);
    }
  }

  lemma ScaledShare(price: real, percentage: real, k: real)
    ensures price * ((k * percentage) / 100.0) == k * (price * (percentage / 100.0))
  {
    assert (k * percentage) / 100.0 == k * (percentage / 100.0);
  }

  /** A component whose ingredient is missing costs nothing. */
  lemma {:induction false} CostUnresolved(c: Component, catalogue: seq<Ingredient>)
    requires !HasKey(catalogue, IngredientId, c.ingredientId)
    ensures Cost(c, catalogue) == 0.0
    decreases |catalogue|
  {
    if |catalogue| > 0 {
      assert IngredientId(catalogue[0]) != c.ingredientId;
      CostUnresolved(c, catalogue[1..]);
    }
  }

  /** The sum of a sequence of reals, added from the left. */
  function Sum(xs: seq<real>): real
    decreases |xs|
  {
    if |xs| == 0 then 0.0 else Sum(xs[..|xs| - 1]) + xs[|xs| - 1]
  }

  /** The cost of each component, in order. */
  function Costs(comps: seq<Component>, catalogue: seq<Ingredient>): (r: seq<real>)
    ensures |r| == |comps|
    ensures forall i :: 0 <= i < |comps| ==> r[i] == Cost(comps[i], catalogue)
  {
    seq(|comps|, i requires 0 <= i < |comps| => Cost(comps[i], catalogue))
  }

  /** The running total is the sum of the component costs. */
  lemma {:induction false} PriceIsSum(comps: seq<Component>, catalogue: seq<Ingredient>)
    ensures PriceOf(comps, catalogue) == Sum(Costs(comps, catalogue))
    decreases |comps|
  {
    if |comps| > 0 {
      var p := comps[..|comps| - 1];
      PriceIsSum(p, catalogue);
      assert Costs(comps, catalogue)[..|comps| - 1] == Costs(p, catalogue);
    }
  }

  /** Multiplying every term by `k` multiplies the sum by `k`. */
  lemma {:induction false} SumScaled(xs: seq<real>, ys: seq<real>, k: real)
    requires |xs| == |ys|
    requires forall i :: 0 <= i < |xs| ==> ys[i] == k * xs[i]
    ensures Sum(ys) == k * Sum(xs)
    decreases |xs|
  {
    if |xs| > 0 {
      var n := |xs| - 1;
      SumScaled(xs[..n], ys[..n], k);
      LinearStep(k, Sum(xs), Sum(xs[..n]), xs[n], Sum(ys), Sum(ys[..n]), ys[n]);
    }
  }

  /** Scaling the percentages scales every component's cost. */
  lemma CostsAreLinear(comps: seq<Component>, k: real, catalogue: seq<Ingredient>)
    ensures Sum(Costs(ScalePercentages(comps, k), catalogue)) == k * Sum(Costs(comps, catalogue))
  {
    var xs, ys := Costs(comps, catalogue), Costs(ScalePercentages(comps, k), catalogue);
    forall i | 0 <= i < |xs| ensures ys[i] == k * xs[i] {
      CostIsLinear(comps[i], k, catalogue);
    }
    SumScaled(xs, ys, k);
  }

  /** The price is linear in the percentages. */
  lemma PriceIsLinear(comps: seq<Component>, k: real, catalogue: seq<Ingredient>)
    ensures PriceOf(ScalePercentages(comps, k), catalogue) == k * PriceOf(comps, catalogue)
  {
    CostsAreLinear(comps, k, catalogue);
    PriceIsSum(comps, catalogue);
    PriceIsSum(ScalePercentages(comps, k), catalogue);
  }
}
