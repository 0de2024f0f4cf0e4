/**
 * The catalog's category accordion (`VariantSelector`): one collapsible
 * section per category, at most one of them open, each showing the list its
 * own filter panel last reported, or the whole category before that.
 */
module VariantSelector {

  import opened Wrappers
  import opened Catalog
  import FilterSort

  /** The base-colour name that earns a variant the specialty marker. */
  const Specialty: string := "Specialty"

  /** No category is open. */
  const NoneOpen: string := ""

  // ---------------------------------------------------------------------------
  // The table of filter results
  // ---------------------------------------------------------------------------

  /** `{ ...prev, [categoryName]: filteredVariants }`. */
  function WithFilterResult(stored: map<string, seq<Variant>>, categoryName: string, filtered: seq<Variant>)
    : (r: map<string, seq<Variant>>)
    ensures r.Keys == stored.Keys + {categoryName}
    ensures r[categoryName] == filtered
    ensures forall name :: name in stored && name != categoryName ==> r[name] == stored[name]
  {
    stored[categoryName := filtered]
  }

  /**
   * `categoryFilteredVariants[category.name] || category.variants`. A stored
   * list is an array, and every array is truthy, so a stored empty list wins.
   */
  function ShownVariants(stored: map<string, seq<Variant>>, c: Category): (shown: seq<Variant>)
    ensures c.name !in stored ==> shown == c.variants
    ensures c.name in stored ==> shown == stored[c.name]
  {
    if c.name in stored then stored[c.name] else c.variants
  }

  /** Before any filter panel reports, every category shows all its variants. */
  lemma ShownInitially(c: Category)
    ensures ShownVariants(map[], c) == c.variants
  {
  }

  /** A report for one category changes what that category shows and nothing else. */
  lemma ShownAfterReport(stored: map<string, seq<Variant>>, categoryName: string, filtered: seq<Variant>, c: Category)
    ensures ShownVariants(WithFilterResult(stored, categoryName, filtered), c)
      == if c.name == categoryName then filtered else ShownVariants(stored, c)
  {
  }

  /** A report of no matches empties the section instead of falling back to the whole category. */
  lemma EmptyReportShowsNothing(stored: map<string, seq<Variant>>, c: Category)
    ensures ShownVariants(WithFilterResult(stored, c.name, []), c) == []
  {
  }

  /**
   * The panel of a category reports the outcome of filtering and sorting that
   * category's variants. Once it has, the section shows some of the category's
   * own variants, each at most as often as the category has it, so the
   * "n of m variants" header never has n greater than m.
   */
  lemma ShownAfterFilterPanel(stored: map<string, seq<Variant>>, c: Category, criteria: FilterSort.Criteria,
                              sortBy: Option<FilterSort.SortKey>, dir: FilterSort.SortDirection)
    ensures var shown := ShownVariants(WithFilterResult(stored, c.name, FilterSort.Outcome(c.variants, criteria, sortBy, dir)), c);
      |shown| <= |c.variants| && multiset(shown) <= multiset(c.variants)
  {
    var shown := FilterSort.Outcome(c.variants, criteria, sortBy, dir);
    forall v ensures multiset(shown)[v] <= multiset(c.variants)[v] {
      FilterSort.FilteredCounts(c.variants, criteria, v);
    }
  }

  // ---------------------------------------------------------------------------
  // The specialty marker
  // ---------------------------------------------------------------------------

  /** `variant.baseColor.name === "Specialty"`: exactly the variants a panel keeps when only that colour is selected. */
  predicate IsSpecialty(v: Variant): (b: bool)
    ensures b <==> FilterSort.Matches(v, FilterSort.Criteria(FilterSort.All, Specialty, FilterSort.All, true))
  {
    v.baseColor.name == Specialty
  }

  /** Choosing the "Specialty" base colour in a panel leaves only marked variants in that section. */
  lemma SpecialtyFilterMarksAll(vs: seq<Variant>, criteria: FilterSort.Criteria,
                                sortBy: Option<FilterSort.SortKey>, dir: FilterSort.SortDirection)
    requires criteria.baseColor == Specialty
    ensures forall v :: v in FilterSort.Outcome(vs, criteria, sortBy, dir) ==> IsSpecialty(v)
  {
    var r := FilterSort.Outcome(vs, criteria, sortBy, dir);
    forall v | v in r ensures IsSpecialty(v) {
      var k :| 0 <= k < |r| && r[k] == v;
      assert FilterSort.Matches(r[k], criteria);
      assert Specialty != FilterSort.All by {
        assert Specialty[0] != FilterSort.All[0];
      }
    }
  }

  // ---------------------------------------------------------------------------
  // The single-open accordion
  // ---------------------------------------------------------------------------

  /** `onOpenChange` of the section named `clicked`: `isOpen ? "" : category.name`. */
  function Toggled(open: string, clicked: string): (r: string)
    ensures r == NoneOpen <==> open == clicked || clicked == NoneOpen
    ensures r != NoneOpen ==> r == clicked
  {
    if open == clicked then NoneOpen else clicked
  }

  /** The positions of the sections drawn open: those whose name is `open`. */
  function OpenSections(categories: seq<Category>, open: string): (r: set<nat>)
    ensures forall i: nat :: i in r <==> i < |categories| && categories[i].name == open
  {
    set i: nat | i < |categories| && categories[i].name == open
  }

  ghost predicate DistinctNames(categories: seq<Category>) {
    forall i, j :: 0 <= i < j < |categories| ==> categories[i].name != categories[j].name
  }

  /** With distinct names, a name picks out at most one position. */
  lemma NamePicksOne(categories: seq<Category>, i: nat, j: nat)
    requires DistinctNames(categories)
    requires i < |categories| && j < |categories|
    requires categories[i].name == categories[j].name
    ensures i == j
  {
  }

  /** With distinct category names, whatever `openCategory` holds, at most one section is open. */
  lemma AtMostOneOpen(categories: seq<Category>, open: string)
    requires DistinctNames(categories)
    ensures |OpenSections(categories, open)| <= 1
  {
    var r := OpenSections(categories, open);
    if r != {} {
      var i :| i in r;
      forall j | j in r ensures j == i {
        NamePicksOne(categories, i, j);
      }
      assert r == {i};
    }
  }

  /**
   * Clicking the open section closes every section; clicking any other opens
   * exactly that one. No category is named "", the value that closes all.
   */
  lemma ToggleOpensAtMostClicked(categories: seq<Category>, open: string, i: nat)
    requires DistinctNames(categories)
    requires forall k :: 0 <= k < |categories| ==> categories[k].name != NoneOpen
    requires i < |categories|
    ensures OpenSections(categories, Toggled(open, categories[i].name))
      == if categories[i].name == open then {} else {i}
  {
    var r := OpenSections(categories, Toggled(open, categories[i].name));
    if categories[i].name != open {
      forall j | j in r ensures j == i {
        NamePicksOne(categories, i, j);
      }
      assert r == {i};
    } else {
      forall j: nat | j < |categories| ensures j !in r {
        assert categories[j].name != NoneOpen;
      }
      assert r == {};
    }
  }

  // ---------------------------------------------------------------------------
  // The component
  // ---------------------------------------------------------------------------

  /** The state of one `VariantSelector`; `categories` comes from the data module. */
  class Selector {
    const categories: seq<Category>
    var openCategory: string
    var categoryFilteredVariants: map<string, seq<Variant>>

    /** Initially the first category is open and no panel has reported yet. */
    constructor (categories: seq<Category>)
      requires |categories| > 0
      ensures this.categories == categories
      ensures openCategory == categories[0].name
      ensures categoryFilteredVariants == map[]
    {
      this.categories := categories;
      openCategory := categories[0].name;
      categoryFilteredVariants := map[];
    }

    /** `handleCategoryFilterChange`: stores a panel's report under its category. */
    method HandleCategoryFilterChange(categoryName: string, filteredVariants: seq<Variant>)
      modifies this`categoryFilteredVariants
      ensures categoryFilteredVariants == WithFilterResult(old(categoryFilteredVariants), categoryName, filteredVariants)
    {
      categoryFilteredVariants := WithFilterResult(categoryFilteredVariants, categoryName, filteredVariants);
    }

    /** `onOpenChange` of the section at position `i`. */
    method OnOpenChange(i: nat)
      requires i < |categories|
      modifies this`openCategory
      ensures openCategory == Toggled(old(openCategory), categories[i].name)
    {
      openCategory := Toggled(openCategory, categories[i].name);
    }

    /** What the section at position `i` shows: whether it is open, its list, and the category size. */
    method Section(i: nat) returns (isOpen: bool, filteredVariants: seq<Variant>, total: nat)
      requires i < |categories|
      ensures isOpen <==> i in OpenSections(categories, openCategory)
      ensures filteredVariants == ShownVariants(categoryFilteredVariants, categories[i])
      ensures total == |categories[i].variants|
    {
      var category := categories[i];
      isOpen := openCategory == category.name;
      filteredVariants := ShownVariants(categoryFilteredVariants, category);
      total := |category.variants|;
    }
  }

}
