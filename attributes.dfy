/** The attribute engine of the billing app: lookups in the attribute
    definitions, the emptiness rule, per-data-type filter matching,
    case-insensitive search, conjunctive filtering, and the extraction and
    counting of distinct values.

    The definitions data file is the parameter `defs`: the sentinel values
    that count as empty, and the attribute definitions in file order. */
module Attributes {
  import opened Wrappers
  import opened Records
  import opened Json
  import Seqs
  import Text

  datatype AttributeDefinition = AttributeDefinition(
    id: string,
    key: string,
    labelText: string,
    dataType: string,
    filterable: bool,
    searchable: bool,
    sortable: bool,
    showInList: bool,
    showInDetail: bool,
    detailTab: string,
    order: int,
    separator: Option<string>)

  datatype Definitions = Definitions(emptyValues: seq<Json>, attributes: seq<AttributeDefinition>)

  // ---------------------------------------------------------------------
  // Selectors

  function Order(a: AttributeDefinition): int {
    a.order
  }

  /** The definitions `keep` accepts, stably sorted by `order`. */
  function SortedSelection(attrs: seq<AttributeDefinition>, keep: AttributeDefinition -> bool): (r: seq<AttributeDefinition>)
    ensures Seqs.SortedBy(r, Order)
    ensures forall a :: a in r <==> a in attrs && keep(a)
    ensures multiset(r) == multiset(Seqs.Filter(attrs, keep))
    ensures forall k :: Seqs.WithKey(r, Order, k) == Seqs.WithKey(Seqs.Filter(attrs, keep), Order, k)
  {
    var r := Seqs.SortBy(Seqs.Filter(attrs, keep), Order);
    forall k ensures Seqs.WithKey(r, Order, k) == Seqs.WithKey(Seqs.Filter(attrs, keep), Order, k) {
      Seqs.SortByStable(Seqs.Filter(attrs, keep), Order, k);
    }
    assert forall a :: a in r <==> a in attrs && keep(a) by {
      forall a ensures a in r <==> a in attrs && keep(a) {
        Seqs.FilterIn(attrs, keep, a);
        Seqs.SortByIn(Seqs.Filter(attrs, keep), Order, a);
      }
    }
    r
  }

  const Filterable: AttributeDefinition -> bool := (a: AttributeDefinition) => a.filterable
  const Searchable: AttributeDefinition -> bool := (a: AttributeDefinition) => a.searchable
  const ShownInList: AttributeDefinition -> bool := (a: AttributeDefinition) => a.showInList

  function InTab(tabName: string): AttributeDefinition -> bool {
    (a: AttributeDefinition) => a.showInDetail && a.detailTab == tabName
  }

  /** `getFilterableAttributes`. */
  function GetFilterableAttributes(defs: Definitions): (r: seq<AttributeDefinition>)
    ensures Seqs.SortedBy(r, Order)
    ensures forall a :: a in r <==> a in defs.attributes && a.filterable
    ensures multiset(r) == multiset(Seqs.Filter(defs.attributes, Filterable))
    ensures forall k :: Seqs.WithKey(r, Order, k) == Seqs.WithKey(Seqs.Filter(defs.attributes, Filterable), Order, k)
  {
    SortedSelection(defs.attributes, Filterable)
  }

  /** `getSearchableAttributes`: file order is kept. */
  function GetSearchableAttributes(defs: Definitions): (r: seq<AttributeDefinition>)
    ensures Seqs.IsSubsequence(r, defs.attributes)
    ensures forall a :: a in r <==> a in defs.attributes && a.searchable
  {
    var r := Seqs.Filter(defs.attributes, Searchable);
    Seqs.FilterIsSubsequence(defs.attributes, Searchable);
    assert forall a :: a in r <==> a in defs.attributes && a.searchable by {
      forall a ensures a in r <==> a in defs.attributes && a.searchable {
        Seqs.FilterIn(defs.attributes, Searchable, a);
      }
    }
    r
  }

  /** `getListAttributes`. */
  function GetListAttributes(defs: Definitions): (r: seq<AttributeDefinition>)
    ensures Seqs.SortedBy(r, Order)
    ensures forall a :: a in r <==> a in defs.attributes && a.showInList
    ensures multiset(r) == multiset(Seqs.Filter(defs.attributes, ShownInList))
    ensures forall k :: Seqs.WithKey(r, Order, k) == Seqs.WithKey(Seqs.Filter(defs.attributes, ShownInList), Order, k)
  {
    SortedSelection(defs.attributes, ShownInList)
  }

  /** `getAttributesForTab`. */
  function GetAttributesForTab(defs: Definitions, tabName: string): (r: seq<AttributeDefinition>)
    ensures Seqs.SortedBy(r, Order)
    ensures forall a :: a in r <==> a in defs.attributes && a.showInDetail && a.detailTab == tabName
    ensures multiset(r) == multiset(Seqs.Filter(defs.attributes, InTab(tabName)))
    ensures forall k :: Seqs.WithKey(r, Order, k) == Seqs.WithKey(Seqs.Filter(defs.attributes, InTab(tabName)), Order, k)
  {
    SortedSelection(defs.attributes, InTab(tabName))
  }

  /** The index of the first definition `p` accepts (`Array.prototype.find`). */
  function FindIndex(attrs: seq<AttributeDefinition>, p: AttributeDefinition -> bool): (r: Option<nat>)
    ensures r.None? <==> forall i :: 0 <= i < |attrs| ==> !p(attrs[i])
    ensures r.Some? ==> r.value < |attrs| && p(attrs[r.value])
                        && forall j :: 0 <= j < r.value ==> !p(attrs[j])
    decreases |attrs|
  {
    if attrs == [] then None
    else if p(attrs[0]) then Some(0)
    else
      var rest := FindIndex(attrs[1..], p);
      if rest.None? then None else Some(rest.value + 1)
  }

  function HasId(id: string): AttributeDefinition -> bool {
    (a: AttributeDefinition) => a.id == id
  }

  function HasKey(key: string): AttributeDefinition -> bool {
    (a: AttributeDefinition) => a.key == key
  }

  /** `getAttributeById`: the first definition with the id; `None` is `undefined`. */
  function GetAttributeById(defs: Definitions, id: string): (r: Option<AttributeDefinition>)
    ensures r.None? <==> forall i :: 0 <= i < |defs.attributes| ==> defs.attributes[i].id != id
    ensures r.Some? ==> exists i :: 0 <= i < |defs.attributes| && defs.attributes[i] == r.value
                          && r.value.id == id && forall j :: 0 <= j < i ==> defs.attributes[j].id != id
  {
    var i := FindIndex(defs.attributes, HasId(id));
    if i.None? then None else Some(defs.attributes[i.value])
  }

  /** `getAttributeByKey`: the first definition with the key. */
  function GetAttributeByKey(defs: Definitions, key: string): (r: Option<AttributeDefinition>)
    ensures r.None? <==> forall i :: 0 <= i < |defs.attributes| ==> defs.attributes[i].key != key
    ensures r.Some? ==> exists i :: 0 <= i < |defs.attributes| && defs.attributes[i] == r.value
                          && r.value.key == key && forall j :: 0 <= j < i ==> defs.attributes[j].key != key
  {
    var i := FindIndex(defs.attributes, HasKey(key));
    if i.None? then None else Some(defs.attributes[i.value])
  }

  // ---------------------------------------------------------------------
  // Values

  /** `product.attributes[id]` when `product.attributes` is an object holding
      the id; `None` stands for `undefined`. */
  function NestedValue(product: Obj, attributeId: string): Option<Json> {
    var attrs := Get(product, "attributes");
    if attrs.Some? && attrs.value.JObj? then Get(attrs.value.fields, attributeId) else None
  }

  /** `getAttributeValue`: `null` for an unknown id; otherwise the value
      under `attributes`, else the value under the definition's key, else `null`. */
  function GetAttributeValue(product: Obj, attributeId: string, defs: Definitions): (v: Json)
    ensures GetAttributeById(defs, attributeId).None? ==> v == JNull
    ensures (GetAttributeById(defs, attributeId).Some? && NestedValue(product, attributeId).Some?)
              ==> v == NestedValue(product, attributeId).value
    ensures (GetAttributeById(defs, attributeId).Some? && NestedValue(product, attributeId).None?)
              ==> v == Get(product, GetAttributeById(defs, attributeId).value.key).GetOr(JNull)
  {
    var attr := GetAttributeById(defs, attributeId);
    if attr.None? then JNull
    else
      var nested := NestedValue(product, attributeId);
      if nested.Some? then nested.value
      else
        var direct := Get(product, attr.value.key);
        if direct.Some? then direct.value else JNull
  }

  /** `isAttributeEmpty`. */
  predicate IsAttributeEmpty(value: Json, emptyValues: seq<Json>) {
    if value == JNull then true
    else if Includes(emptyValues, value) then true
    else if value.JArr? then |value.items| == 0 || forall i :: 0 <= i < |value.items| ==> Includes(emptyValues, value.items[i])
    else if value.JStr? then Text.Trim(value.s) == "" || Includes(emptyValues, value)
    else false
  }

  /** The emptiness rule case by case: `null` and the sentinels are empty, an
      array is empty when all its elements are sentinels (so the empty array
      is), a string when it is blank, an object never. */
  lemma EmptinessRule(value: Json, emptyValues: seq<Json>)
    ensures value == JNull ==> IsAttributeEmpty(value, emptyValues)
    ensures IsPrimitive(value) && value in emptyValues ==> IsAttributeEmpty(value, emptyValues)
    ensures value.JStr? ==> (IsAttributeEmpty(value, emptyValues) <==> Text.IsBlank(value.s) || value in emptyValues)
    ensures value.JArr? ==> (IsAttributeEmpty(value, emptyValues)
                             <==> forall i :: 0 <= i < |value.items| ==> Includes(emptyValues, value.items[i]))
    ensures value.JNum? || value.JBool? ==> (IsAttributeEmpty(value, emptyValues) <==> value in emptyValues)
    ensures value.JObj? ==> !IsAttributeEmpty(value, emptyValues)
  {
    if value.JStr? {
      Text.TrimEmptyIffBlank(value.s);
      IncludesString(emptyValues, value.s);
    }
    if IsPrimitive(value) && value in emptyValues {
      var i :| 0 <= i < |emptyValues| && emptyValues[i] == value;
      assert StrictEquals(emptyValues[i], value);
    }
  }

  /** `String(v)` of each element `includes` does not find among the sentinels. */
  function FormatParts(items: seq<Json>, emptyValues: seq<Json>): seq<string>
    decreases |items|
  {
    if items == [] then []
    else (if Includes(emptyValues, items[0]) then [] else [if items[0] == JNull then "" else ToStr(items[0])])
         + FormatParts(items[1..], emptyValues)
  }

  /** `formatAttributeValue`: "" for an empty value, the non-sentinel
      elements of an array joined by the definition's separator (" : " when
      it has none or an empty one), else `String(value)`. */
  function FormatAttributeValue(value: Json, attribute: AttributeDefinition, emptyValues: seq<Json>): (r: string)
    ensures IsAttributeEmpty(value, emptyValues) ==> r == ""
    ensures !IsAttributeEmpty(value, emptyValues) && !value.JArr? ==> r == ToStr(value)
  {
    if IsAttributeEmpty(value, emptyValues) then ""
    else if value.JArr? then
      var separator := if attribute.separator.Some? && attribute.separator.value != "" then attribute.separator.value else " : ";
      Text.Join(FormatParts(value.items, emptyValues), separator)
    else ToStr(value)
  }

  /** A one-element array formats as its element, whatever the separator. */
  lemma FormatSingleton(x: Json, attribute: AttributeDefinition, emptyValues: seq<Json>)
    requires !Includes(emptyValues, x) && x != JNull
    ensures FormatAttributeValue(JArr([x]), attribute, emptyValues) == ToStr(x)
  {
    assert !IsAttributeEmpty(JArr([x]), emptyValues) by {
      assert !Includes(emptyValues, JArr([x]).items[0]);
    }
    assert FormatParts([x], emptyValues) == [ToStr(x)] by {
      assert [x][1..] == [];
    }
    var sep := if attribute.separator.Some? && attribute.separator.value != "" then attribute.separator.value else " : ";
    assert Text.Join([ToStr(x)], sep) == ToStr(x) by {
      assert [ToStr(x)][1..] == [];
    }
  }

  /** The filter `formatAttributeValue` applies to an array: an element is
      kept unless the sentinel list `includes` it. */
  function NotSentinel(emptyValues: seq<Json>): Json -> bool {
    (v: Json) => !Includes(emptyValues, v)
  }

  /** How `join` writes one element: `null` as nothing, anything else as `String(v)`. */
  function JoinText(v: Json): string {
    if v == JNull then "" else ToStr(v)
  }

  /** The texts `join` writes for the elements, in order. */
  function JoinTexts(vs: seq<Json>): seq<string> {
    seq(|vs|, i requires 0 <= i < |vs| => JoinText(vs[i]))
  }

  lemma JoinTextsCons(v: Json, vs: seq<Json>, keep: bool)
    ensures JoinTexts((if keep then [v] else []) + vs) == (if keep then [JoinText(v)] else []) + JoinTexts(vs)
  {
  }

  /** `FormatParts` is filtering out the sentinels, then writing each element. */
  lemma {:induction false} FormatPartsFilter(items: seq<Json>, emptyValues: seq<Json>)
    ensures FormatParts(items, emptyValues) == JoinTexts(Seqs.Filter(items, NotSentinel(emptyValues)))
    decreases |items|
  {
    if items != [] {
      FormatPartsFilter(items[1..], emptyValues);
      JoinTextsCons(items[0], Seqs.Filter(items[1..], NotSentinel(emptyValues)), NotSentinel(emptyValues)(items[0]));
    }
  }

  /** Any array value formats as its non-sentinel elements, written as `join`
      writes them and joined by the definition's separator when it has a
      non-empty one, else by " : ". An array of sentinels only formats as "". */
  lemma FormatArray(items: seq<Json>, attribute: AttributeDefinition, emptyValues: seq<Json>)
    ensures var kept := Seqs.Filter(items, NotSentinel(emptyValues));
            && (kept == [] ==> FormatAttributeValue(JArr(items), attribute, emptyValues) == "")
            && FormatAttributeValue(JArr(items), attribute, emptyValues)
               == Text.Join(JoinTexts(kept),
                            if attribute.separator.Some? && attribute.separator.value != "" then attribute.separator.value else " : ")
  {
    var kept := Seqs.Filter(items, NotSentinel(emptyValues));
    FormatPartsFilter(items, emptyValues);
    EmptinessRule(JArr(items), emptyValues);
  }

  /** An array whose kept elements are two is written as them around the separator. */
  lemma FormatKeptPair(items: seq<Json>, x: Json, y: Json, attribute: AttributeDefinition, emptyValues: seq<Json>)
    requires Seqs.Filter(items, NotSentinel(emptyValues)) == [x, y] && x != JNull && y != JNull
    ensures FormatAttributeValue(JArr(items), attribute, emptyValues)
            == ToStr(x) + (if attribute.separator.Some? && attribute.separator.value != "" then attribute.separator.value else " : ") + ToStr(y)
  {
    FormatArray(items, attribute, emptyValues);
    assert JoinTexts([x, y]) == [ToStr(x), ToStr(y)];
    assert [ToStr(x), ToStr(y)][1..] == [ToStr(y)];
  }

  /** Two kept elements are written around the separator. */
  lemma FormatPair(x: Json, y: Json, attribute: AttributeDefinition, emptyValues: seq<Json>)
    requires !Includes(emptyValues, x) && !Includes(emptyValues, y) && x != JNull && y != JNull
    ensures FormatAttributeValue(JArr([x, y]), attribute, emptyValues)
            == ToStr(x) + (if attribute.separator.Some? && attribute.separator.value != "" then attribute.separator.value else " : ") + ToStr(y)
  {
    assert Seqs.Filter([x, y], NotSentinel(emptyValues)) == [x, y] by {
      assert [x, y][1..] == [y];
      assert [y][1..] == [];
    }
    FormatKeptPair([x, y], x, y, attribute, emptyValues);
  }

  /** A sentinel between two other strings is dropped, and a custom separator
      joins the two: `["Red", "N/A", "Blue"]` with " / " reads "Red / Blue". */
  lemma FormatDropsSentinel(a: string, n: string, b: string, attribute: AttributeDefinition)
    requires a != n && b != n && attribute.separator == Some(" / ")
    ensures FormatAttributeValue(JArr([JStr(a), JStr(n), JStr(b)]), attribute, [JStr(n)]) == a + " / " + b
  {
    var e := [JStr(n)];
    var items := [JStr(a), JStr(n), JStr(b)];
    IncludesString(e, a);
    IncludesString(e, n);
    IncludesString(e, b);
    assert Seqs.Filter(items, NotSentinel(e)) == [JStr(a), JStr(b)] by {
      assert items[1..] == [JStr(n), JStr(b)];
      assert items[1..][1..] == [JStr(b)];
      assert items[1..][1..][1..] == [];
    }
    FormatKeptPair(items, JStr(a), JStr(b), attribute, e);
    ToStrOfString(a);
    ToStrOfString(b);
  }

  // ---------------------------------------------------------------------
  // Occurrences of values

  /** `String(v)` of every element of an array that is not empty itself. */
  function ElementStrings(items: seq<Json>, emptyValues: seq<Json>): seq<string>
    decreases |items|
  {
    if items == [] then []
    else
      var n := |items| - 1;
      ElementStrings(items[..n], emptyValues)
      + (if IsAttributeEmpty(items[n], emptyValues) then [] else [ToStr(items[n])])
  }

  /** The strings one product contributes for an attribute: none for an
      empty value, one per non-empty element of an array, else `String(value)`. */
  function ValueStrings(value: Json, emptyValues: seq<Json>): seq<string> {
    if IsAttributeEmpty(value, emptyValues) then []
    else if value.JArr? then ElementStrings(value.items, emptyValues)
    else [ToStr(value)]
  }

  /** The strings all products contribute, in product order. */
  function Occurrences(products: seq<Obj>, attributeId: string, defs: Definitions): seq<string>
    decreases |products|
  {
    if products == [] then []
    else
      var n := |products| - 1;
      Occurrences(products[..n], attributeId, defs)
      + ValueStrings(GetAttributeValue(products[n], attributeId, defs), defs.emptyValues)
  }

  /** The strings of the first `k + 1` elements, after those of `seen`. */
  lemma ElementStringsStep(seen: seq<string>, items: seq<Json>, k: nat, emptyValues: seq<Json>)
    requires k < |items|
    ensures (!IsAttributeEmpty(items[k], emptyValues))
              ==> seen + ElementStrings(items[..k + 1], emptyValues)
                  == seen + ElementStrings(items[..k], emptyValues) + [ToStr(items[k])]
    ensures (IsAttributeEmpty(items[k], emptyValues))
              ==> seen + ElementStrings(items[..k + 1], emptyValues) == seen + ElementStrings(items[..k], emptyValues)
  {
    assert items[..k + 1][..k] == items[..k];
  }

  lemma OccurrencesStep(products: seq<Obj>, i: nat, attributeId: string, defs: Definitions)
    requires i < |products|
    ensures Occurrences(products[..i + 1], attributeId, defs)
         == Occurrences(products[..i], attributeId, defs)
            + ValueStrings(GetAttributeValue(products[i], attributeId, defs), defs.emptyValues)
  {
    assert products[..i + 1][..i] == products[..i];
  }

  /** The text of a non-empty value that is not an array is never "". */
  lemma ScalarTextNonEmpty(v: Json, emptyValues: seq<Json>)
    requires !v.JArr? && !IsAttributeEmpty(v, emptyValues)
    ensures ToStr(v) != ""
  {
    EmptinessRule(v, emptyValues);
  }

  /** Each string an array contributes is the text of one of its non-empty elements. */
  lemma {:induction false} ElementStringsFrom(items: seq<Json>, emptyValues: seq<Json>, s: string)
    requires s in ElementStrings(items, emptyValues)
    ensures exists i :: 0 <= i < |items| && !IsAttributeEmpty(items[i], emptyValues) && s == ToStr(items[i])
    decreases |items|
  {
    var n := |items| - 1;
    if s in ElementStrings(items[..n], emptyValues) {
      ElementStringsFrom(items[..n], emptyValues, s);
      var i :| 0 <= i < n && !IsAttributeEmpty(items[..n][i], emptyValues) && s == ToStr(items[..n][i]);
      assert items[..n][i] == items[i];
    } else {
      assert !IsAttributeEmpty(items[n], emptyValues) && s == ToStr(items[n]);
    }
  }

  /** A value that is not an array of arrays. */
  predicate Flat(v: Json) {
    v.JArr? ==> forall j :: 0 <= j < |v.items| ==> !v.items[j].JArr?
  }

  /** A flat value contributes no "". */
  lemma ValueStringsNonEmpty(v: Json, emptyValues: seq<Json>)
    requires Flat(v)
    ensures forall s :: s in ValueStrings(v, emptyValues) ==> s != ""
  {
    forall s | s in ValueStrings(v, emptyValues) ensures s != "" {
      if v.JArr? {
        ElementStringsFrom(v.items, emptyValues, s);
        var i :| 0 <= i < |v.items| && !IsAttributeEmpty(v.items[i], emptyValues) && s == ToStr(v.items[i]);
        ScalarTextNonEmpty(v.items[i], emptyValues);
      } else {
        ScalarTextNonEmpty(v, emptyValues);
      }
    }
  }

  /** No contributed string is "", unless an array value holds arrays itself
      (`String([null])` is ""). */
  lemma {:induction false} OccurrencesNonEmpty(products: seq<Obj>, attributeId: string, defs: Definitions)
    requires forall i :: 0 <= i < |products| ==> Flat(GetAttributeValue(products[i], attributeId, defs))
    ensures forall s :: s in Occurrences(products, attributeId, defs) ==> s != ""
    decreases |products|
  {
    if products != [] {
      var n := |products| - 1;
      var init := products[..n];
      var v := GetAttributeValue(products[n], attributeId, defs);
      assert forall i :: 0 <= i < n ==> init[i] == products[i];
      OccurrencesNonEmpty(init, attributeId, defs);
      ValueStringsNonEmpty(v, defs.emptyValues);
      assert Occurrences(products, attributeId, defs)
        == Occurrences(init, attributeId, defs) + ValueStrings(v, defs.emptyValues);
    }
  }

  /** The `forEach` callback of `extractUniqueValues`: adds the strings one
      product's value contributes to the set `values`. */
  method AddValueStrings(values: seq<string>, ghost seen: seq<string>, value: Json, emptyValues: seq<Json>)
    returns (r: seq<string>)
    requires values == Seqs.FirstOccurrences(seen)
    ensures r == Seqs.FirstOccurrences(seen + ValueStrings(value, emptyValues))
  {
    r := values;
    if IsAttributeEmpty(value, emptyValues) {
      assert seen + [] == seen;
    } else if value.JArr? {
      var k := 0;
      ghost var sofar := seen;
      assert seen + ElementStrings(value.items[..0], emptyValues) == seen;
      while k < |value.items|
        invariant 0 <= k <= |value.items|
        invariant sofar == seen + ElementStrings(value.items[..k], emptyValues)
        invariant r == Seqs.FirstOccurrences(sofar)
      {
        var v := value.items[k];
        ElementStringsStep(seen, value.items, k, emptyValues);
        if !IsAttributeEmpty(v, emptyValues) {
          Seqs.FirstOccurrencesSnoc(sofar, ToStr(v));
          if ToStr(v) !in r {
            r := r + [ToStr(v)];
          }
          sofar := sofar + [ToStr(v)];
        }
        k := k + 1;
      }
      assert value.items[..k] == value.items;
    } else {
      Seqs.FirstOccurrencesSnoc(seen, ToStr(value));
      if ToStr(value) !in r {
        r := r + [ToStr(value)];
      }
    }
  }

  /** A sorted copy of a list without repetitions has none and holds the same strings. */
  lemma SortedSetFacts(values: seq<string>, occ: seq<string>)
    requires values == Seqs.FirstOccurrences(occ)
    ensures var r := Text.SortStrings(values);
            Seqs.Distinct(r) && forall s :: s in r <==> s in occ
  {
    var r := Text.SortStrings(values);
    Seqs.DistinctPermutation(values, r);
    forall s ensures s in r <==> s in occ {
      assert s in r <==> s in multiset(values);
      if s in occ {
        var j :| 0 <= j < |occ| && occ[j] == s;
        assert occ[j] in values;
      }
      if s in values {
        var j :| 0 <= j < |values| && values[j] == s;
      }
    }
  }

  /** `extractUniqueValues`: every string some product contributes, once
      each, in code-unit order. */
  method ExtractUniqueValues(products: seq<Obj>, attributeId: string, defs: Definitions) returns (r: seq<string>)
    ensures Text.StrSorted(r)
    ensures Seqs.Distinct(r)
    ensures forall s :: s in r <==> s in Occurrences(products, attributeId, defs)
  {
    var values: seq<string> := [];
    var i := 0;
    while i < |products|
      invariant 0 <= i <= |products|
      invariant values == Seqs.FirstOccurrences(Occurrences(products[..i], attributeId, defs))
    {
      var value := GetAttributeValue(products[i], attributeId, defs);
      OccurrencesStep(products, i, attributeId, defs);
      values := AddValueStrings(values, Occurrences(products[..i], attributeId, defs), value, defs.emptyValues);
      i := i + 1;
    }
    assert products[..i] == products;
    r := Text.SortStrings(values);
    SortedSetFacts(values, Occurrences(products, attributeId, defs));
  }

  // ---------------------------------------------------------------------
  // Matching

  /** `matchesFilter`. */
  predicate MatchesFilter(productValue: Json, filterValue: string, dataType: string, emptyValues: seq<Json>) {
    if IsAttributeEmpty(productValue, emptyValues) then false
    else if dataType == "multi-select" then
      if productValue.JArr? then Includes(productValue.items, JStr(filterValue))
      else StrictEquals(productValue, JStr(filterValue))
    else if dataType == "single-select" then StrictEquals(productValue, JStr(filterValue))
    else Text.Contains(Text.Lower(ToStr(productValue)), Text.Lower(filterValue))
  }

  /** The filter rule per data type: an empty value never matches; a
      multi-select array matches when it holds the filter string, any other
      multi-select or single-select value when it is that string; every
      other type matches on a case-insensitive substring of its text. */
  lemma FilterRule(productValue: Json, filterValue: string, dataType: string, emptyValues: seq<Json>)
    ensures IsAttributeEmpty(productValue, emptyValues) ==> !MatchesFilter(productValue, filterValue, dataType, emptyValues)
    ensures (!IsAttributeEmpty(productValue, emptyValues) && dataType == "multi-select" && productValue.JArr?)
              ==> (MatchesFilter(productValue, filterValue, dataType, emptyValues) <==> JStr(filterValue) in productValue.items)
    ensures (!IsAttributeEmpty(productValue, emptyValues) && dataType == "multi-select" && !productValue.JArr?)
              ==> (MatchesFilter(productValue, filterValue, dataType, emptyValues) <==> productValue == JStr(filterValue))
    ensures (!IsAttributeEmpty(productValue, emptyValues) && dataType == "single-select")
              ==> (MatchesFilter(productValue, filterValue, dataType, emptyValues) <==> productValue == JStr(filterValue))
    ensures (!IsAttributeEmpty(productValue, emptyValues) && dataType != "multi-select" && dataType != "single-select")
              ==> (MatchesFilter(productValue, filterValue, dataType, emptyValues)
                   <==> Text.Contains(Text.Lower(ToStr(productValue)), Text.Lower(filterValue)))
  {
    if productValue.JArr? {
      IncludesString(productValue.items, filterValue);
    }
  }

  /** The fields every search looks at first. */
  const CoreFields: seq<string> := ["Style Code", "Name"]

  /** A core field is truthy and its text holds the lower-cased query. */
  predicate FieldHit(product: Obj, field: string, query: string) {
    var value := Get(product, field);
    value.Some? && Truthy(value.value) && Text.Contains(Text.Lower(ToStr(value.value)), query)
  }

  /** A non-empty attribute value whose text, or the text of one of whose
      elements, holds the lower-cased query. */
  predicate ValueHit(value: Json, query: string, emptyValues: seq<Json>) {
    !IsAttributeEmpty(value, emptyValues)
    && if value.JArr? then exists j :: 0 <= j < |value.items| && Text.Contains(Text.Lower(ToStr(value.items[j])), query)
       else Text.Contains(Text.Lower(ToStr(value)), query)
  }

  /** A searchable attribute whose value on the product holds the query. */
  predicate AttributeHit(product: Obj, attr: AttributeDefinition, query: string, defs: Definitions) {
    ValueHit(GetAttributeValue(product, attr.id, defs), query, defs.emptyValues)
  }

  /** What `matchesSearch` decides: a blank query matches everything;
      otherwise the lower-cased query (not trimmed) must occur in a core
      field or in a searchable attribute's value. */
  predicate SearchMatches(product: Obj, searchQuery: string, defs: Definitions) {
    var query := Text.Lower(searchQuery);
    var searchable := GetSearchableAttributes(defs);
    Text.Trim(searchQuery) == ""
    || (exists i :: 0 <= i < |CoreFields| && FieldHit(product, CoreFields[i], query))
    || (exists i :: 0 <= i < |searchable| && AttributeHit(product, searchable[i], query, defs))
  }

  /** The loop of `matchesSearch` over the core fields. */
  method AnyFieldHit(product: Obj, fields: seq<string>, query: string) returns (b: bool)
    ensures b <==> exists i :: 0 <= i < |fields| && FieldHit(product, fields[i], query)
  {
    ghost var missing := (field: string) => !FieldHit(product, field, query);
    var f := 0;
    while f < |fields|
      invariant 0 <= f <= |fields|
      invariant forall i :: 0 <= i < f ==> missing(fields[i])
    {
      var value := Get(product, fields[f]);
      if value.Some? && Truthy(value.value) && Text.Contains(Text.Lower(ToStr(value.value)), query) {
        assert FieldHit(product, fields[f], query);
        return true;
      }
      Seqs.ExtendAll(fields, f, missing);
      f := f + 1;
    }
    return false;
  }

  /** The loop of `matchesSearch` over the searchable attributes. */
  method AnyAttributeHit(product: Obj, attrs: seq<AttributeDefinition>, query: string, defs: Definitions)
    returns (b: bool)
    ensures b <==> exists i :: 0 <= i < |attrs| && AttributeHit(product, attrs[i], query, defs)
  {
    ghost var missing := (attr: AttributeDefinition) => !AttributeHit(product, attr, query, defs);
    var a := 0;
    while a < |attrs|
      invariant 0 <= a <= |attrs|
      invariant forall i :: 0 <= i < a ==> missing(attrs[i])
    {
      var hit := CheckAttribute(product, attrs[a], query, defs);
      if hit {
        return true;
      }
      Seqs.ExtendAll(attrs, a, missing);
      a := a + 1;
    }
    return false;
  }

  /** The body of the loop over the searchable attributes: an empty value is
      skipped (`continue`), an array hits when one of its elements does, any
      other value when its text holds the query. */
  method CheckAttribute(product: Obj, attr: AttributeDefinition, query: string, defs: Definitions)
    returns (hit: bool)
    ensures hit == AttributeHit(product, attr, query, defs)
  {
    var value := GetAttributeValue(product, attr.id, defs);
    if IsAttributeEmpty(value, defs.emptyValues) {
      return false;
    }
    if value.JArr? {
      hit := exists j :: 0 <= j < |value.items| && Text.Contains(Text.Lower(ToStr(value.items[j])), query);
    } else {
      hit := Text.Contains(Text.Lower(ToStr(value)), query);
    }
  }

  /** `matchesSearch`. */
  method MatchesSearch(product: Obj, searchQuery: string, defs: Definitions) returns (b: bool)
    ensures b == SearchMatches(product, searchQuery, defs)
  {
    if searchQuery == "" || Text.Trim(searchQuery) == "" {
      return true;
    }
    var query := Text.Lower(searchQuery);
    var searchableAttrs := GetSearchableAttributes(defs);
    var core := AnyFieldHit(product, CoreFields, query);
    if core {
      return true;
    }
    b := AnyAttributeHit(product, searchableAttrs, query, defs);
  }

  /** One entry of the filter map holds for a product: it is empty, names an
      unknown attribute, or the product's value matches it. */
  predicate FilterHolds(product: Obj, filter: Entry<string>, defs: Definitions) {
    var attr := GetAttributeById(defs, filter.key);
    filter.value == ""
    || attr.None?
    || MatchesFilter(GetAttributeValue(product, filter.key, defs), filter.value, attr.value.dataType, defs.emptyValues)
  }

  /** What the callback of `applyFilters` decides for one product. */
  predicate Accepted(product: Obj, filters: Record<string>, searchQuery: Option<string>, defs: Definitions) {
    (searchQuery.Some? && searchQuery.value != "" ==> SearchMatches(product, searchQuery.value, defs))
    && AllFiltersHold(product, filters, defs)
  }

  /** Every entry of the filter record holds for the product. */
  predicate AllFiltersHold(product: Obj, filters: Record<string>, defs: Definitions) {
    forall i :: 0 <= i < |filters| ==> FilterHolds(product, filters[i], defs)
  }

  function Accepting(filters: Record<string>, searchQuery: Option<string>, defs: Definitions): Obj -> bool {
    p => Accepted(p, filters, searchQuery, defs)
  }

  /** The callback of `applyFilters`: search first, then every filter entry
      in key order, with an early `false`. */
  method AcceptProduct(product: Obj, filters: Record<string>, searchQuery: Option<string>, defs: Definitions)
    returns (b: bool)
    ensures b == Accepted(product, filters, searchQuery, defs)
  {
    if searchQuery.Some? && searchQuery.value != "" {
      var m := MatchesSearch(product, searchQuery.value, defs);
      if !m {
        return false;
      }
    }
    b := CheckFilters(product, filters, defs);
  }

  /** The loop over the filter entries of the `applyFilters` callback, which
      stops at the first entry that does not hold. */
  method CheckFilters(product: Obj, filters: Record<string>, defs: Definitions) returns (b: bool)
    ensures b == AllFiltersHold(product, filters, defs)
  {
    ghost var holding := (f: Entry<string>) => FilterHolds(product, f, defs);
    var i := 0;
    while i < |filters|
      invariant 0 <= i <= |filters|
      invariant forall j :: 0 <= j < i ==> holding(filters[j])
    {
      var holds := CheckFilter(product, filters[i], defs);
      if !holds {
        return false;
      }
      Seqs.ExtendAll(filters, i, holding);
      i := i + 1;
    }
    return true;
  }

  /** The body of the loop over the filter entries in `applyFilters`: an
      empty value or an unknown attribute is skipped (`continue`), otherwise
      the product's value must match. */
  method CheckFilter(product: Obj, filter: Entry<string>, defs: Definitions)
    returns (holds: bool)
    ensures holds == FilterHolds(product, filter, defs)
  {
    var attributeId := filter.key;
    var filterValue := filter.value;
    if filterValue == "" {
      return true;
    }
    var attr := GetAttributeById(defs, attributeId);
    if attr.None? {
      return true;
    }
    var productValue := GetAttributeValue(product, attributeId, defs);
    holds := MatchesFilter(productValue, filterValue, attr.value.dataType, defs.emptyValues);
  }

  /** `applyFilters`. */
  method ApplyFilters(products: seq<Obj>, filters: Record<string>, searchQuery: Option<string>, defs: Definitions)
    returns (r: seq<Obj>)
    ensures r == Seqs.Filter(products, Accepting(filters, searchQuery, defs))
  {
    r := [];
    ghost var accept := Accepting(filters, searchQuery, defs);
    var i := 0;
    while i < |products|
      invariant 0 <= i <= |products|
      invariant r == Seqs.Filter(products[..i], accept)
    {
      var keep := AcceptProduct(products[i], filters, searchQuery, defs);
      AcceptingAt(filters, searchQuery, defs, products[i]);
      Seqs.FilterStep(products, i, accept, r, keep);
      if keep {
        r := r + [products[i]];
      }
      i := i + 1;
    }
    assert products[..i] == products;
  }

  lemma AcceptingAt(filters: Record<string>, searchQuery: Option<string>, defs: Definitions, p: Obj)
    ensures Accepting(filters, searchQuery, defs)(p) == Accepted(p, filters, searchQuery, defs)
  {
  }

  /** Filtering keeps products in their order and adds none. */
  lemma ApplyFiltersSubsequence(products: seq<Obj>, filters: Record<string>, searchQuery: Option<string>, defs: Definitions)
    ensures Seqs.IsSubsequence(Seqs.Filter(products, Accepting(filters, searchQuery, defs)), products)
  {
    Seqs.FilterIsSubsequence(products, Accepting(filters, searchQuery, defs));
  }

  /** No filters and no query keep every product. */
  lemma ApplyFiltersNothing(products: seq<Obj>, defs: Definitions)
    ensures Seqs.Filter(products, Accepting([], None, defs)) == products
  {
    Seqs.FilterKeepAll(products, Accepting([], None, defs));
  }

  /** `o[k] = v` for a key `o` lacks appends the entry. */
  lemma SetNewKey(filters: Record<string>, k: string, v: string)
    requires k !in Keys(filters)
    ensures Set(filters, k, v) == filters + [Entry(k, v)]
    decreases |filters|
  {
    if filters != [] {
      assert Keys(filters) == [filters[0].key] + Keys(filters[1..]);
      SetNewKey(filters[1..], k, v);
      assert filters == [filters[0]] + filters[1..];
    }
  }

  /** Adding a filter on a new key can only remove products: the filters
      form a conjunction. */
  lemma AddingFilterShrinks(products: seq<Obj>, filters: Record<string>, k: string, v: string,
                            searchQuery: Option<string>, defs: Definitions)
    requires k !in Keys(filters)
    ensures Seqs.IsSubsequence(Seqs.Filter(products, Accepting(Set(filters, k, v), searchQuery, defs)),
                               Seqs.Filter(products, Accepting(filters, searchQuery, defs)))
  {
    SetNewKey(filters, k, v);
    var more := filters + [Entry(k, v)];
    forall p | p in products && Accepting(more, searchQuery, defs)(p)
      ensures Accepting(filters, searchQuery, defs)(p)
    {
      assert forall i :: 0 <= i < |filters| ==> filters[i] == more[i];
    }
    Seqs.FilterMonotone(products, Accepting(more, searchQuery, defs), Accepting(filters, searchQuery, defs));
  }

  /** An added filter with an empty value, or on an unknown attribute, is
      skipped and changes nothing. */
  lemma SkippedFilterChangesNothing(products: seq<Obj>, filters: Record<string>, k: string, v: string,
                                    searchQuery: Option<string>, defs: Definitions)
    requires k !in Keys(filters)
    requires v == "" || GetAttributeById(defs, k).None?
    ensures Seqs.Filter(products, Accepting(Set(filters, k, v), searchQuery, defs))
         == Seqs.Filter(products, Accepting(filters, searchQuery, defs))
  {
    SetNewKey(filters, k, v);
    var more := filters + [Entry(k, v)];
    forall p | p in products ensures Accepting(more, searchQuery, defs)(p) == Accepting(filters, searchQuery, defs)(p) {
      assert forall i :: 0 <= i < |filters| ==> filters[i] == more[i];
      assert FilterHolds(p, more[|filters|], defs);
    }
    Seqs.FilterCongruent(products, Accepting(more, searchQuery, defs), Accepting(filters, searchQuery, defs));
  }

  // ---------------------------------------------------------------------
  // Counting values

  /** `counts.set(s, (counts.get(s) || 0) + 1)` on a map kept as an ordered record. */
  function AddOne(counts: Record<nat>, s: string): Record<nat> {
    var c: nat := if Get<nat>(counts, s).Some? then Get<nat>(counts, s).value else 0;
    Set<nat>(counts, s, c + 1)
  }

  /** The count map after every occurrence has been added once. */
  function Tally(occ: seq<string>): Record<nat>
    decreases |occ|
  {
    if occ == [] then [] else AddOne(Tally(occ[..|occ| - 1]), occ[|occ| - 1])
  }

  /** The count a record holds for `s`, 0 when it has none. */
  function CountIn(counts: Record<nat>, s: string): nat {
    var c := Get<nat>(counts, s);
    if c.Some? then c.value else 0
  }

  function EntryCount(e: Entry<nat>): nat {
    e.value
  }

  lemma TallySnoc(occ: seq<string>, x: string)
    ensures Tally(occ + [x]) == AddOne(Tally(occ), x)
  {
    assert (occ + [x])[..|occ|] == occ;
  }

  /** The keys of the count map are the occurring strings in order of first
      occurrence, each once. */
  lemma {:induction false} TallyKeys(occ: seq<string>)
    ensures Keys(Tally(occ)) == Seqs.FirstOccurrences(occ)
    decreases |occ|
  {
    if occ != [] {
      var n := |occ| - 1;
      var prev := occ[..n];
      var x := occ[n];
      var t := Tally(prev);
      var v: nat := CountIn(t, x) + 1;
      assert Tally(occ) == Set<nat>(t, x, v);
      KeysSet<nat>(t, x, v);
      TallyKeys(prev);
    }
  }

  /** The count map holds, for every string, how often it occurs. */
  lemma {:induction false} TallyCounts(occ: seq<string>, s: string)
    ensures CountIn(Tally(occ), s) == multiset(occ)[s]
    decreases |occ|
  {
    if occ != [] {
      var n := |occ| - 1;
      var prev := occ[..n];
      var x := occ[n];
      assert multiset(occ) == multiset(prev) + multiset{x} by {
        assert occ == prev + [x];
      }
      var t := Tally(prev);
      var v: nat := CountIn(t, x) + 1;
      assert Tally(occ) == Set<nat>(t, x, v);
      GetSet<nat>(t, x, v, s);
      TallyCounts(prev, s);
    }
  }

  /** The counts add up to the number of occurrences. */
  lemma {:induction false} TallySum(occ: seq<string>)
    ensures Seqs.SumBy(Tally(occ), EntryCount) == |occ|
    decreases |occ|
  {
    if occ != [] {
      var n := |occ| - 1;
      var prev := occ[..n];
      var x := occ[n];
      TallySum(prev);
      var t := Tally(prev);
      var v: nat := CountIn(t, x) + 1;
      assert Tally(occ) == Set<nat>(t, x, v);
      SumSet(t, x, v);
    }
  }

  /** Writing a count changes the sum by the difference. */
  lemma {:induction false} SumSet(o: Record<nat>, k: string, v: nat)
    ensures Seqs.SumBy(Set<nat>(o, k, v), EntryCount) + CountIn(o, k) == Seqs.SumBy(o, EntryCount) + v
    decreases |o|
  {
    if o != [] {
      if o[0].key != k {
        SumSet(o[1..], k, v);
        assert ([o[0]] + Set<nat>(o[1..], k, v))[1..] == Set<nat>(o[1..], k, v);
      } else {
        assert ([Entry(k, v)] + o[1..])[1..] == o[1..];
      }
    }
  }

  /** One row of the `getAttributeValueCounts` result (the percentage,
      a floating-point quotient, is left out). */
  datatype ValueCount = ValueCount(value: string, count: nat)

  function Rows(counts: Record<nat>): (rows: seq<ValueCount>)
    ensures |rows| == |counts|
    ensures forall i :: 0 <= i < |counts| ==> rows[i] == ValueCount(counts[i].key, counts[i].value)
  {
    seq(|counts|, i requires 0 <= i < |counts| => ValueCount(counts[i].key, counts[i].value))
  }

  /** Sort key that puts the largest count first. */
  function ByCountDesc(r: ValueCount): int {
    0 - r.count as int
  }

  function RowCount(r: ValueCount): nat {
    r.count
  }

  /** What `getAttributeValueCounts` returns. */
  function ValueCounts(products: seq<Obj>, attributeId: string, defs: Definitions): seq<ValueCount> {
    Seqs.SortBy(Rows(Tally(Occurrences(products, attributeId, defs))), ByCountDesc)
  }

  /** The `forEach` callback of `getAttributeValueCounts`: counts the
      strings one product's value contributes. */
  method CountValueStrings(counts: Record<nat>, totalCount: nat, ghost seen: seq<string>, value: Json,
                           emptyValues: seq<Json>)
    returns (counts': Record<nat>, totalCount': nat)
    requires counts == Tally(seen) && totalCount == |seen|
    ensures counts' == Tally(seen + ValueStrings(value, emptyValues))
    ensures totalCount' == |seen + ValueStrings(value, emptyValues)|
  {
    counts', totalCount' := counts, totalCount;
    if IsAttributeEmpty(value, emptyValues) {
      assert seen + [] == seen;
    } else if value.JArr? {
      var k := 0;
      ghost var sofar := seen;
      assert seen + ElementStrings(value.items[..0], emptyValues) == seen;
      while k < |value.items|
        invariant 0 <= k <= |value.items|
        invariant sofar == seen + ElementStrings(value.items[..k], emptyValues)
        invariant counts' == Tally(sofar)
        invariant totalCount' == |sofar|
      {
        var v := value.items[k];
        ElementStringsStep(seen, value.items, k, emptyValues);
        ghost var next := seen + ElementStrings(value.items[..k + 1], emptyValues);
        if !IsAttributeEmpty(v, emptyValues) {
          var strValue := ToStr(v);
          assert next == sofar + [strValue];
          TallySnoc(sofar, strValue);
          counts' := AddOne(counts', strValue);
          totalCount' := totalCount' + 1;
          sofar := sofar + [strValue];
        } else {
          assert next == sofar;
        }
        assert sofar == next;
        k := k + 1;
      }
      assert value.items[..k] == value.items;
    } else {
      var strValue := ToStr(value);
      TallySnoc(seen, strValue);
      counts' := AddOne(counts', strValue);
      totalCount' := totalCount' + 1;
    }
  }

  /** `getAttributeValueCounts`: counts every non-empty occurrence in a map,
      then lists the map's rows, largest count first. */
  method GetAttributeValueCounts(products: seq<Obj>, attributeId: string, defs: Definitions)
    returns (r: seq<ValueCount>)
    ensures r == ValueCounts(products, attributeId, defs)
  {
    var counts: Record<nat> := [];
    // `totalCount` feeds only the percentages.
    var totalCount := 0;
    var i := 0;
    while i < |products|
      invariant 0 <= i <= |products|
      invariant counts == Tally(Occurrences(products[..i], attributeId, defs))
      invariant totalCount == |Occurrences(products[..i], attributeId, defs)|
    {
      var value := GetAttributeValue(products[i], attributeId, defs);
      OccurrencesStep(products, i, attributeId, defs);
      counts, totalCount := CountValueStrings(counts, totalCount, Occurrences(products[..i], attributeId, defs),
                                              value, defs.emptyValues);
      i := i + 1;
    }
    assert products[..i] == products;
    r := Seqs.SortBy(Rows(counts), ByCountDesc);
  }

  /** In a record without repeated keys, the entry at `j` holds `Get`'s value. */
  lemma {:induction false} RowIsCount(t: Record<nat>, j: nat)
    requires WellFormed(t) && j < |t|
    ensures CountIn(t, t[j].key) == t[j].value
    decreases |t|
  {
    if j > 0 {
      assert Keys(t)[0] != Keys(t)[j];
      assert WellFormed(t[1..]) by {
        forall a, b | 0 <= a < b < |t[1..]| ensures Keys(t[1..])[a] != Keys(t[1..])[b] {
          assert Keys(t[1..])[a] == Keys(t)[a + 1] && Keys(t[1..])[b] == Keys(t)[b + 1];
        }
      }
      RowIsCount(t[1..], j - 1);
    }
  }

  /** A row of the count map names an occurring string and how often it occurs. */
  lemma RowOfTally(occ: seq<string>, row: ValueCount)
    requires row in Rows(Tally(occ))
    ensures row.value in occ && row.count == multiset(occ)[row.value]
  {
    var t := Tally(occ);
    TallyKeys(occ);
    var j :| 0 <= j < |t| && Rows(t)[j] == row;
    assert Keys(t)[j] == row.value;
    RowIsCount(t, j);
    TallyCounts(occ, row.value);
  }

  /** Every row's count is how often its value occurs, so it is at least 1. */
  lemma ValueCountsExact(products: seq<Obj>, attributeId: string, defs: Definitions)
    ensures var occ := Occurrences(products, attributeId, defs);
            var r := ValueCounts(products, attributeId, defs);
            forall i :: 0 <= i < |r| ==> r[i].count == multiset(occ)[r[i].value] && r[i].count >= 1
  {
    var occ := Occurrences(products, attributeId, defs);
    var rows := Rows(Tally(occ));
    var r := ValueCounts(products, attributeId, defs);
    forall i | 0 <= i < |r| ensures r[i].count == multiset(occ)[r[i].value] && r[i].count >= 1 {
      assert r[i] in multiset(rows) by { assert r[i] in multiset(r); }
      RowOfTally(occ, r[i]);
    }
  }

  /** No value has two rows. */
  lemma ValueCountsDistinct(products: seq<Obj>, attributeId: string, defs: Definitions)
    ensures var r := ValueCounts(products, attributeId, defs);
            forall i, j :: 0 <= i < j < |r| ==> r[i].value != r[j].value
  {
    var occ := Occurrences(products, attributeId, defs);
    var t := Tally(occ);
    var rows := Rows(t);
    var r := ValueCounts(products, attributeId, defs);
    TallyKeys(occ);
    assert Seqs.Distinct(rows) by {
      forall a, b | 0 <= a < b < |rows| ensures rows[a] != rows[b] {
        assert Keys(t)[a] != Keys(t)[b];
      }
    }
    Seqs.DistinctPermutation(rows, r);
    forall i, j | 0 <= i < j < |r| ensures r[i].value != r[j].value {
      assert r[i] in multiset(rows) by { assert r[i] in multiset(r); }
      assert r[j] in multiset(rows) by { assert r[j] in multiset(r); }
      RowOfTally(occ, r[i]);
      RowOfTally(occ, r[j]);
    }
  }

  /** Every occurring string has a row. */
  lemma ValueCountsCover(products: seq<Obj>, attributeId: string, defs: Definitions, s: string)
    requires s in Occurrences(products, attributeId, defs)
    ensures exists i :: 0 <= i < |ValueCounts(products, attributeId, defs)|
                        && ValueCounts(products, attributeId, defs)[i].value == s
  {
    var occ := Occurrences(products, attributeId, defs);
    var t := Tally(occ);
    var rows := Rows(t);
    var r := ValueCounts(products, attributeId, defs);
    TallyKeys(occ);
    var k :| 0 <= k < |occ| && occ[k] == s;
    assert occ[k] in Keys(t);
    var j :| 0 <= j < |t| && Keys(t)[j] == s;
    assert rows[j] in multiset(r) by { assert rows[j] in multiset(rows); }
    var i :| 0 <= i < |r| && r[i] == rows[j];
  }

  /** The rows run from the largest count to the smallest. */
  lemma ValueCountsDescending(products: seq<Obj>, attributeId: string, defs: Definitions)
    ensures var r := ValueCounts(products, attributeId, defs);
            forall i, j :: 0 <= i < j < |r| ==> r[i].count >= r[j].count
  {
    var r := ValueCounts(products, attributeId, defs);
    forall i, j | 0 <= i < j < |r| ensures r[i].count >= r[j].count {
      assert ByCountDesc(r[i]) <= ByCountDesc(r[j]);
    }
  }

  lemma {:induction false} RowsSum(t: Record<nat>)
    ensures Seqs.SumBy(Rows(t), RowCount) == Seqs.SumBy(t, EntryCount)
    decreases |t|
  {
    if t != [] {
      RowsSum(t[1..]);
      assert Rows(t)[1..] == Rows(t[1..]);
    }
  }

  /** The counts add up to the number of non-empty occurrences, each array
      element counted on its own: the `totalCount` of the source. */
  lemma ValueCountsSum(products: seq<Obj>, attributeId: string, defs: Definitions)
    ensures Seqs.SumBy(ValueCounts(products, attributeId, defs), RowCount)
         == |Occurrences(products, attributeId, defs)|
  {
    var occ := Occurrences(products, attributeId, defs);
    var t := Tally(occ);
    TallySum(occ);
    RowsSum(t);
    Seqs.SumByPermutation(Rows(t), ValueCounts(products, attributeId, defs), RowCount);
  }
}
