/** The Product 360 catalog page: the filter map, the search query, the sort
    configuration and the current page, the effect that recomputes the
    filtered and sorted product list, and the pagination arithmetic with its
    five-button page-number window. */
module CatalogPage {
  import opened Wrappers
  import opened Records
  import opened Json
  import Seqs
  import Attributes
  import Text

  const ItemsPerPage: nat := 25

  function Min(a: int, b: int): int {
    if a < b then a else b
  }

  function Max(a: int, b: int): int {
    if a < b then b else a
  }

  // ---------------------------------------------------------------------
  // Sorting

  datatype Direction = Asc | Desc

  datatype SortConfig = SortConfig(key: string, direction: Direction)

  /** The configuration the page starts with. */
  const InitialSort: SortConfig := SortConfig("Style Code", Asc)

  /** `handleSort`: a second click on the ascending key turns it descending;
      anything else sorts ascending on the clicked key. */
  function NextSort(config: SortConfig, key: string): (r: SortConfig)
    ensures r.key == key
    ensures r.direction == Desc <==> config.key == key && config.direction == Asc
  {
    SortConfig(key, if config.key == key && config.direction == Asc then Desc else Asc)
  }

  /** Clicking the same header again always flips the direction. */
  lemma ClicksAlternate(config: SortConfig, key: string)
    ensures NextSort(NextSort(config, key), key).direction != NextSort(config, key).direction
    ensures NextSort(NextSort(NextSort(config, key), key), key) == NextSort(config, key)
  {
  }

  /** `a[key] || ""`. */
  function SortValue(p: Obj, key: string): Json {
    var v := Get(p, key).GetOr(JNull);
    if Truthy(v) then v else JStr("")
  }

  /** The comparator passed to `result.sort`. */
  function Compare(a: Obj, b: Obj, config: SortConfig): int {
    var aVal := SortValue(a, config.key);
    var bVal := SortValue(b, config.key);
    if LessThan(aVal, bVal) then (if config.direction == Asc then -1 else 1)
    else if LessThan(bVal, aVal) then (if config.direction == Asc then 1 else -1)
    else 0
  }

  /** Descending is ascending with every comparison reversed. */
  lemma CompareFlip(a: Obj, b: Obj, key: string)
    ensures Compare(a, b, SortConfig(key, Desc)) == 0 - Compare(a, b, SortConfig(key, Asc))
  {
  }

  /** The comparator is antisymmetric on string sort values. */
  lemma CompareAntisymmetric(a: Obj, b: Obj, config: SortConfig)
    requires SortValue(a, config.key).JStr? && SortValue(b, config.key).JStr?
    ensures Compare(a, b, config) == 0 - Compare(b, a, config)
  {
    var x := SortValue(a, config.key).s;
    var y := SortValue(b, config.key).s;
    if Text.StrLess(x, y) {
      Text.StrLessAsymmetric(x, y);
    }
  }

  function ProductBefore(config: SortConfig): (Obj, Obj) -> bool {
    (a: Obj, b: Obj) => Compare(a, b, config) < 0
  }

  /** The sort step of the effect; an empty key leaves the list as it is. */
  function SortProducts(ps: seq<Obj>, config: SortConfig): seq<Obj> {
    if config.key != "" then Seqs.SortWith(ps, ProductBefore(config)) else ps
  }

  /** When every sort value is a string, the comparator orders by code units
      (reversed for descending). */
  lemma BeforeOnStrings(a: Obj, b: Obj, config: SortConfig)
    requires SortValue(a, config.key).JStr? && SortValue(b, config.key).JStr?
    ensures ProductBefore(config)(a, b)
            <==> if config.direction == Asc then Text.StrLess(SortValue(a, config.key).s, SortValue(b, config.key).s)
                 else Text.StrLess(SortValue(b, config.key).s, SortValue(a, config.key).s)
  {
    var x := SortValue(a, config.key).s;
    var y := SortValue(b, config.key).s;
    if Text.StrLess(x, y) {
      Text.StrLessAsymmetric(x, y);
    }
  }

  /** Sorting keeps the products, and when every sort value is a string no
      product ends up after one it should precede. */
  lemma SortProductsCorrect(ps: seq<Obj>, config: SortConfig)
    ensures multiset(SortProducts(ps, config)) == multiset(ps)
    ensures (config.key != "" && forall i :: 0 <= i < |ps| ==> SortValue(ps[i], config.key).JStr?)
              ==> Seqs.SortedWith(SortProducts(ps, config), ProductBefore(config))
  {
    if config.key != "" && forall i :: 0 <= i < |ps| ==> SortValue(ps[i], config.key).JStr? {
      var lt := ProductBefore(config);
      forall i | 0 <= i < |ps| ensures !lt(ps[i], ps[i]) {
        BeforeOnStrings(ps[i], ps[i], config);
        Text.StrLessIrreflexive(SortValue(ps[i], config.key).s);
      }
      forall i, j, k | 0 <= i < |ps| && 0 <= j < |ps| && 0 <= k < |ps| && lt(ps[i], ps[j]) && lt(ps[j], ps[k])
        ensures lt(ps[i], ps[k])
      {
        var x := SortValue(ps[i], config.key).s;
        var y := SortValue(ps[j], config.key).s;
        var z := SortValue(ps[k], config.key).s;
        BeforeOnStrings(ps[i], ps[j], config);
        BeforeOnStrings(ps[j], ps[k], config);
        BeforeOnStrings(ps[i], ps[k], config);
        if config.direction == Asc {
          Text.StrLessTransitive(x, y, z);
        } else {
          Text.StrLessTransitive(z, y, x);
        }
      }
      Seqs.SortWithSorted(ps, lt);
    }
  }

  /** The filtered and sorted list the effect stores. */
  function View(products: seq<Obj>, filters: Record<string>, searchQuery: string, config: SortConfig,
                defs: Attributes.Definitions): seq<Obj> {
    SortProducts(Seqs.Filter(products, Attributes.Accepting(filters, Some(searchQuery), defs)), config)
  }

  // ---------------------------------------------------------------------
  // Filter chips

  datatype FilterChip = FilterChip(key: string, labelText: string, value: string)

  function HasValue(e: Entry<string>): bool {
    e.value != ""
  }

  /** `attr?.label || key`, looking the id up among the filterable attributes. */
  function ChipLabel(key: string, defs: Attributes.Definitions): string {
    var filterable := Attributes.GetFilterableAttributes(defs);
    var i := Attributes.FindIndex(filterable, Attributes.HasId(key));
    if i.Some? && filterable[i.value].labelText != "" then filterable[i.value].labelText else key
  }

  /** `activeFilters`: one chip per entry with a non-empty value, in key order. */
  function ActiveFilters(filters: Record<string>, defs: Attributes.Definitions): (r: seq<FilterChip>)
    ensures |r| == |Seqs.Filter(filters, HasValue)|
  {
    var kept := Seqs.Filter(filters, HasValue);
    seq(|kept|, i requires 0 <= i < |kept| => FilterChip(kept[i].key, ChipLabel(kept[i].key, defs), kept[i].value))
  }

  /** There is a chip for a key and value exactly when the filter map holds
      that entry and the value is not empty. */
  lemma ActiveFiltersExact(filters: Record<string>, defs: Attributes.Definitions, k: string, v: string)
    ensures (exists i :: 0 <= i < |ActiveFilters(filters, defs)|
               && ActiveFilters(filters, defs)[i].key == k && ActiveFilters(filters, defs)[i].value == v)
            <==> Entry(k, v) in filters && v != ""
  {
    var kept := Seqs.Filter(filters, HasValue);
    var r := ActiveFilters(filters, defs);
    Seqs.FilterIn(filters, HasValue, Entry(k, v));
    assert forall i :: 0 <= i < |r| ==> r[i].key == kept[i].key && r[i].value == kept[i].value;
    ChipsOfEntries(kept, r, k, v);
  }

  /** Chips that copy the key and value of a list of entries show a key and
      value exactly when the list holds that entry. */
  lemma ChipsOfEntries(kept: seq<Entry<string>>, r: seq<FilterChip>, k: string, v: string)
    requires |r| == |kept|
    requires forall i :: 0 <= i < |r| ==> r[i].key == kept[i].key && r[i].value == kept[i].value
    ensures (exists i :: 0 <= i < |r| && r[i].key == k && r[i].value == v) <==> Entry(k, v) in kept
  {
    if Entry(k, v) in kept {
      var j :| 0 <= j < |kept| && kept[j] == Entry(k, v);
      assert r[j].key == k && r[j].value == v;
    }
    if exists i :: 0 <= i < |r| && r[i].key == k && r[i].value == v {
      var i :| 0 <= i < |r| && r[i].key == k && r[i].value == v;
      var e := kept[i];
      assert e == Entry(e.key, e.value);
    }
  }

  /** A chip is labelled by its filterable attribute, or by its key when
      there is none or its label is empty. */
  lemma ChipLabelFallback(key: string, defs: Attributes.Definitions)
    ensures (forall a :: a in Attributes.GetFilterableAttributes(defs) ==> a.id != key) ==> ChipLabel(key, defs) == key
    ensures ChipLabel(key, defs) == key
            || exists a :: a in defs.attributes && a.filterable && a.id == key && a.labelText == ChipLabel(key, defs)
  {
    var filterable := Attributes.GetFilterableAttributes(defs);
    var i := Attributes.FindIndex(filterable, Attributes.HasId(key));
    if i.Some? {
      assert filterable[i.value] in filterable;
    }
  }

  // ---------------------------------------------------------------------
  // Pagination

  /** `Math.ceil(n / ITEMS_PER_PAGE)`. */
  function TotalPages(n: nat): nat {
    (n + ItemsPerPage - 1) / ItemsPerPage
  }

  /** `TotalPages` is the ceiling: its pages hold every item, and one fewer would not. */
  lemma TotalPagesIsCeiling(n: nat)
    ensures TotalPages(n) * ItemsPerPage >= n
    ensures TotalPages(n) > 0 ==> (TotalPages(n) - 1) * ItemsPerPage < n
    ensures TotalPages(n) == 0 <==> n == 0
  {
  }

  /** `(currentPage - 1) * ITEMS_PER_PAGE`. */
  function StartIndex(page: int): int {
    (page - 1) * ItemsPerPage
  }

  /** `Math.min(startIndex + ITEMS_PER_PAGE, n)`. */
  function EndIndex(page: int, n: nat): int {
    Min(StartIndex(page) + ItemsPerPage, n)
  }

  /** `Array.prototype.slice`: negative bounds count from the end, bounds
      beyond the end are clamped. */
  function Slice<T>(s: seq<T>, start: int, end: int): seq<T> {
    var from := if start < 0 then Max(|s| + start, 0) else Min(start, |s|);
    var to := if end < 0 then Max(|s| + end, 0) else Min(end, |s|);
    if from < to then s[from..to] else []
  }

  /** `paginatedProducts`. */
  function PageItems<T>(items: seq<T>, page: int): seq<T> {
    Slice(items, StartIndex(page), EndIndex(page, |items|))
  }

  /** A page in range is the contiguous run of at most 25 items from its
      start index; every page before the last is full. */
  lemma PageBounds<T>(items: seq<T>, page: int)
    requires 1 <= page <= TotalPages(|items|)
    ensures 0 <= StartIndex(page) < EndIndex(page, |items|) <= |items|
    ensures PageItems(items, page) == items[StartIndex(page)..EndIndex(page, |items|)]
    ensures |PageItems(items, page)| <= ItemsPerPage
    ensures page < TotalPages(|items|) ==> |PageItems(items, page)| == ItemsPerPage
  {
    TotalPagesIsCeiling(|items|);
  }

  /** Every item is on exactly the page its index gives. */
  lemma ItemOnItsPage<T>(items: seq<T>, i: nat)
    requires i < |items|
    ensures var page := i / ItemsPerPage + 1;
            1 <= page <= TotalPages(|items|) && StartIndex(page) <= i < EndIndex(page, |items|)
  {
  }

  /** The number of the `i`th page button. */
  function WindowPage(i: int, currentPage: int, totalPages: nat): int {
    if totalPages <= 5 then i + 1
    else if currentPage <= 3 then i + 1
    else if currentPage >= totalPages - 2 then totalPages - 4 + i
    else currentPage - 2 + i
  }

  /** The page-number buttons. */
  function PageWindow(currentPage: int, totalPages: nat): seq<int> {
    seq(Min(5, totalPages), i requires 0 <= i < Min(5, totalPages) => WindowPage(i, currentPage, totalPages))
  }

  /** The window holds `min(5, totalPages)` consecutive page numbers, all in
      range, and shows the current page whenever that is in range. */
  lemma PageWindowShape(currentPage: int, totalPages: nat)
    ensures var w := PageWindow(currentPage, totalPages);
            && |w| == Min(5, totalPages)
            && (forall i :: 0 <= i < |w| ==> 1 <= w[i] <= totalPages)
            && (forall i :: 0 < i < |w| ==> w[i] == w[i - 1] + 1)
            && (1 <= currentPage <= totalPages ==> currentPage in w)
  {
    var w := PageWindow(currentPage, totalPages);
    if 1 <= currentPage <= totalPages {
      var i := if totalPages <= 5 || currentPage <= 3 then currentPage - 1
               else if currentPage >= totalPages - 2 then currentPage - totalPages + 4
               else 2;
      assert w[i] == currentPage;
    }
  }

  // ---------------------------------------------------------------------
  // Page state

  class Page {
    /** The loaded product list and the attribute definitions. */
    const products: seq<Obj>
    const defs: Attributes.Definitions
    var filteredProducts: seq<Obj>
    var searchQuery: string
    var filters: Record<string>
    var sortConfig: SortConfig
    var currentPage: int

    /** The stored list is what the effect computes from the inputs, and the
        current page is in range (page 1 when there are no pages). */
    predicate Valid()
      reads this
    {
      && filteredProducts == View(products, filters, searchQuery, sortConfig, defs)
      && 1 <= currentPage <= Max(1, TotalPages(|filteredProducts|))
    }

    /** The page once the products have loaded and the effect has run. */
    constructor(loaded: seq<Obj>, definitions: Attributes.Definitions)
      ensures products == loaded && defs == definitions
      ensures filters == [] && searchQuery == "" && sortConfig == InitialSort && currentPage == 1
      ensures Valid()
    {
      products := loaded;
      defs := definitions;
      filters := [];
      searchQuery := "";
      sortConfig := InitialSort;
      var result := Attributes.ApplyFilters(loaded, [], Some(""), definitions);
      filteredProducts := SortProducts(result, InitialSort);
      currentPage := 1;
    }

    /** The effect on products, query, filters and sort: filter, sort, and
        go back to page 1. */
    method RunEffect()
      modifies this
      ensures filteredProducts == View(products, filters, searchQuery, sortConfig, defs)
      ensures currentPage == 1
      ensures filters == old(filters) && searchQuery == old(searchQuery) && sortConfig == old(sortConfig)
      ensures Valid()
    {
      var result := Attributes.ApplyFilters(products, filters, Some(searchQuery), defs);
      if sortConfig.key != "" {
        result := Seqs.SortWith(result, ProductBefore(sortConfig));
      }
      filteredProducts := result;
      currentPage := 1;
    }

    /** `handleSort`. */
    method HandleSort(key: string)
      modifies this
      ensures sortConfig == NextSort(old(sortConfig), key)
      ensures filters == old(filters) && searchQuery == old(searchQuery)
      ensures currentPage == 1 && Valid()
    {
      sortConfig := NextSort(sortConfig, key);
      RunEffect();
    }

    /** `handleFilterChange`: one key gets the value, every other key reads as before. */
    method HandleFilterChange(filterKey: string, value: string)
      modifies this
      ensures filters == Set(old(filters), filterKey, value)
      ensures Get(filters, filterKey) == Some(value)
      ensures forall k :: k != filterKey ==> Get(filters, k) == Get(old(filters), k)
      ensures searchQuery == old(searchQuery) && sortConfig == old(sortConfig)
      ensures currentPage == 1 && Valid()
    {
      forall k ensures Get(Set(filters, filterKey, value), k) == if k == filterKey then Some(value) else Get(filters, k) {
        GetSet(filters, filterKey, value, k);
      }
      filters := Set(filters, filterKey, value);
      RunEffect();
    }

    /** `handleResetFilters`: no filters and no query. */
    method HandleResetFilters()
      modifies this
      ensures filters == [] && searchQuery == ""
      ensures sortConfig == old(sortConfig)
      ensures currentPage == 1 && Valid()
    {
      filters := [];
      searchQuery := "";
      RunEffect();
    }

    /** `handleRemoveFilter`: exactly that key is gone. */
    method HandleRemoveFilter(filterKey: string)
      modifies this
      ensures filters == Delete(old(filters), filterKey)
      ensures Get(filters, filterKey) == None
      ensures forall k :: k != filterKey ==> Get(filters, k) == Get(old(filters), k)
      ensures searchQuery == old(searchQuery) && sortConfig == old(sortConfig)
      ensures currentPage == 1 && Valid()
    {
      filters := Delete(filters, filterKey);
      RunEffect();
    }

    /** The search box: the effect runs only when the query really changes. */
    method SetSearchQuery(query: string)
      requires Valid()
      modifies this
      ensures searchQuery == query
      ensures filters == old(filters) && sortConfig == old(sortConfig)
      ensures query == old(searchQuery) ==> currentPage == old(currentPage)
      ensures query != old(searchQuery) ==> currentPage == 1
      ensures Valid()
    {
      if query != searchQuery {
        searchQuery := query;
        RunEffect();
      }
    }

    /** The Previous button. */
    method Previous()
      requires Valid()
      modifies this
      ensures currentPage == Max(1, old(currentPage) - 1)
      ensures filteredProducts == old(filteredProducts) && filters == old(filters)
      ensures searchQuery == old(searchQuery) && sortConfig == old(sortConfig)
      ensures Valid()
    {
      currentPage := Max(1, currentPage - 1);
    }

    /** The Next button, shown only while some product is listed. */
    method Next()
      requires Valid() && |filteredProducts| > 0
      modifies this
      ensures currentPage == Min(TotalPages(|filteredProducts|), old(currentPage) + 1)
      ensures filteredProducts == old(filteredProducts) && filters == old(filters)
      ensures searchQuery == old(searchQuery) && sortConfig == old(sortConfig)
      ensures Valid()
    {
      TotalPagesIsCeiling(|filteredProducts|);
      currentPage := Min(TotalPages(|filteredProducts|), currentPage + 1);
    }

    /** A page-number button. */
    method GoToPage(pageNum: int)
      requires Valid() && pageNum in PageWindow(currentPage, TotalPages(|filteredProducts|))
      modifies this
      ensures currentPage == pageNum
      ensures filteredProducts == old(filteredProducts) && filters == old(filters)
      ensures searchQuery == old(searchQuery) && sortConfig == old(sortConfig)
      ensures Valid()
    {
      PageWindowShape(currentPage, TotalPages(|filteredProducts|));
      currentPage := pageNum;
    }

    /** The products on the current page: at most 25 of the filtered list,
        contiguous from the page's start. */
    function PageProducts(): (r: seq<Obj>)
      requires Valid()
      reads this
      ensures |r| <= ItemsPerPage
      ensures |filteredProducts| > 0 ==> r == filteredProducts[StartIndex(currentPage)..EndIndex(currentPage, |filteredProducts|)]
    {
      if |filteredProducts| > 0 then PageBounds(filteredProducts, currentPage); PageItems(filteredProducts, currentPage)
      else PageItems(filteredProducts, currentPage)
    }
  }
}
