/**
 * The catalog page: the department options of its filter and the positions
 * kept by the search term and the department, category and status filters.
 */
module PositionsPage {
  import opened PositionTypes
  import opened Sequences
  import opened Text

  /** The departments of the catalog, in catalog order, with repetitions. */
  function DepartmentsOf(catalog: seq<Position>): (r: seq<string>)
    ensures |r| == |catalog|
    ensures forall k :: 0 <= k < |catalog| ==> r[k] == catalog[k].department
  {
    seq(|catalog|, k requires 0 <= k < |catalog| => catalog[k].department)
  }

  /** `departments`: every department of the catalog once, sorted by character code. */
  function Departments(catalog: seq<Position>): (r: seq<string>)
    ensures SortedByCode(r)
    ensures NoDuplicates(r)
    ensures forall d :: d in r <==> exists p :: p in catalog && p.department == d
  {
    var all := DepartmentsOf(catalog);
    var unique := Distinct(all);
    var sorted := SortByCode(unique);
    NoDuplicatesPermutation(unique, sorted);
    forall d ensures d in sorted <==> d in unique {
      assert d in sorted <==> d in multiset(sorted);
    }
    forall d ensures d in all <==> exists p :: p in catalog && p.department == d {
      if d in all {
        var k :| 0 <= k < |all| && all[k] == d;
        assert catalog[k] in catalog;
      }
      if p :| p in catalog && p.department == d {
        var k :| 0 <= k < |catalog| && catalog[k] == p;
        assert all[k] == d;
      }
    }
    sorted
  }

  /** The values the category filter offers besides "all". */
  const CategoryOptions: seq<Category> := [Catedra, Corrector, Laboratorio]

  /** The four filters of the page; "all" switches a select filter off. */
  datatype Filters = Filters(searchTerm: string, department: string, category: string, status: string)

  /** The lower-cased term occurs in the lower-cased title or department. */
  predicate MatchesSearch(p: Position, term: string) {
    Includes(ToLower(p.title), ToLower(term)) || Includes(ToLower(p.department), ToLower(term))
  }

  predicate MatchesDepartment(p: Position, department: string) {
    department == "all" || p.department == department
  }

  /** `position.categories.includes(categoryFilter)`: a position without
      categories never matches a specific category. */
  predicate MatchesCategory(p: Position, category: string) {
    category == "all" || (p.categories.Some? && exists c :: c in p.categories.value && CategoryName(c) == category)
  }

  predicate MatchesStatus(p: Position, status: string) {
    status == "all" || StatusName(p.status) == status
  }

  predicate Matches(p: Position, f: Filters) {
    && MatchesSearch(p, f.searchTerm)
    && MatchesDepartment(p, f.department)
    && MatchesCategory(p, f.category)
    && MatchesStatus(p, f.status)
  }

  /** `filteredPositions`: the catalog positions that pass every filter, in
      catalog order. */
  function FilteredPositions(catalog: seq<Position>, f: Filters): (r: seq<Position>)
    ensures Subsequence(r, catalog)
    ensures forall p :: p in r <==> p in catalog && Matches(p, f)
    decreases |catalog|
  {
    if catalog == [] then []
    else
      var rest := FilteredPositions(catalog[1..], f);
      assert forall p :: p in catalog <==> p == catalog[0] || p in catalog[1..];
      if Matches(catalog[0], f) then [catalog[0]] + rest
      else rest
  }

  /** Every category is offered by the category filter, and choosing it keeps
      exactly the positions that list that category. */
  lemma CategoryOptionSelects(p: Position, c: Category)
    ensures c in CategoryOptions
    ensures MatchesCategory(p, CategoryName(c)) <==> p.categories.Some? && c in p.categories.value
  {
    if MatchesCategory(p, CategoryName(c)) {
      var c' :| c' in p.categories.value && CategoryName(c') == CategoryName(c);
      assert c' == c by {
        match c' case Catedra => {} case Corrector => {} case Laboratorio => {}
      }
    }
  }

  /** Lower-casing twice is lower-casing once. */
  lemma ToLowerIdempotent(s: string)
    ensures ToLower(ToLower(s)) == ToLower(s)
  {
  }

  /** The search does not depend on the case of the term. */
  lemma SearchIgnoresCase(p: Position, term: string)
    ensures MatchesSearch(p, term) <==> MatchesSearch(p, ToLower(term))
  {
    ToLowerIdempotent(term);
  }

  /** With an empty search term and every select on "all", the whole catalog
      is shown. */
  lemma {:induction false} NoFiltersKeepsAll(catalog: seq<Position>)
    ensures FilteredPositions(catalog, Filters("", "all", "all", "all")) == catalog
    decreases |catalog|
  {
    if catalog != [] {
      var p := catalog[0];
      assert ToLower("") == "";
      IncludesEmpty(ToLower(p.title));
      NoFiltersKeepsAll(catalog[1..]);
    }
  }

  /** A kept position carries the selected department, status and category
      whenever that filter is not "all"; with a specific category, positions
      without categories are never kept. */
  lemma KeptPositionsMatchSelections(catalog: seq<Position>, f: Filters, p: Position)
    requires p in FilteredPositions(catalog, f)
    ensures f.department != "all" ==> p.department == f.department
    ensures f.status != "all" ==> StatusName(p.status) == f.status
    ensures f.category != "all" ==>
      p.categories.Some? && exists c :: c in p.categories.value && CategoryName(c) == f.category
  {
  }

  /** Filtering the shown positions again with the same filters changes nothing. */
  lemma {:induction false} FilterIdempotent(catalog: seq<Position>, f: Filters)
    ensures FilteredPositions(FilteredPositions(catalog, f), f) == FilteredPositions(catalog, f)
    decreases |catalog|
  {
    if catalog != [] {
      FilterIdempotent(catalog[1..], f);
      var rest := FilteredPositions(catalog[1..], f);
      if Matches(catalog[0], f) {
        assert ([catalog[0]] + rest)[1..] == rest;
      }
    }
  }

  /** Picking any offered department, with the other filters off, shows at
      least one position, and only positions of that department. */
  lemma DepartmentOptionShowsPositions(catalog: seq<Position>, d: string)
    requires d in Departments(catalog) && d != "all"
    ensures FilteredPositions(catalog, Filters("", d, "all", "all")) != []
    ensures forall p :: p in FilteredPositions(catalog, Filters("", d, "all", "all")) ==> p.department == d
  {
    var p :| p in catalog && p.department == d;
    assert ToLower("") == "";
    IncludesEmpty(ToLower(p.title));
    assert Matches(p, Filters("", d, "all", "all"));
  }
}
