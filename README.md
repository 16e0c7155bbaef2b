# Catalog, attribute and sign-in cores of the UniFirst front-end monorepo, in Dafny

This project models the sequential cores under the React applications and shared packages of the monorepo. Each is stated in Dafny and its promises are proved.

- **Catalog snapshots** (`Publishing`, `PublishingManager`):
  - semantic version bumping;
  - the scheduled / active / archived status rule, recomputed over the snapshot list from effective dates and one `now`;
  - selection of the active snapshot and snapshot statistics;
  - the style-code-keyed added / removed / modified diff of two product lists;
  - the publishing manager's store (snapshot list and cached active id), a class with create, archive and tick methods.
- **Attribute engine** (`Attributes`): attribute lookup, the emptiness rule, per-data-type filter matching, case-insensitive search, conjunctive filtering, and distinct-value extraction and counting. The attribute-definition file is a parameter.
- **Catalog page** (`CatalogPage`): the Product 360 page state (filters, query, sort, page) as a class, the sort comparator, active filter chips, pagination bounds and the five-button page window.
- **MSAL configuration** (`MsalEnv`, `MsalConfig`):
  - suffix-table field resolution over upper-cased, trimmed keys;
  - the prefix fallback list;
  - first-value-wins collection of environment values, with the loops of `getMSALEnv` as methods;
  - the derived `MsalAuthConfig`, `loginRequest` and `auth` block.
- **Mock CRUD layer** (`CrudStore`, `QueryKeys`): the in-memory CRUD service as a class over a list of entities, and the query-key scheme.
- **Utilities**:
  - `Logger`: the level-threshold logger, a class whose console is an object recording its calls;
  - `ImageUrls`: image URL building and validation;
  - `TopBar`: initials extraction;
  - `Contrast`: hex colour parsing and the WCAG threshold flags;
  - `UserSlice`: the signed-in/out reducer.

Helper modules:
- `Wrappers`: `Option`/`Result`.
- `Json`: JSON-like values with JavaScript truthiness, `String()`, `Number()` and `===`.
- `Records`: objects as ordered entry lists, so key order follows `Object.keys` and object spread.
- `Seqs`: filtering, subsequences, duplicate removal and a stable sort.
- `Text`: JavaScript `trim`, ASCII case mapping, `split`/`join`, decimal formatting and string order.

Clocks, generated ids, the environment map and the data files are parameters.

## Model

| member | source | states |
|---|---|---|
| Publishing.StyleCodeSource | apps/data-app/src/utils/publishingUtils.ts:74-80 | the style code is a truthy `styleCode`, else a truthy `"Style Code"`, else the empty string; a truthy `styleCode` always wins |
| Publishing.FormatParseVersion | apps/data-app/src/utils/publishingUtils.ts:146-159 | a formatted version matches `^\d+\.\d+\.\d+$` and splitting it on dots gives the same three numbers back |
| Publishing.FirstVersionText | apps/data-app/src/utils/publishingUtils.ts:139-141 | the first version is the text "1.0.0" |
| Publishing.Greatest | apps/data-app/src/utils/publishingUtils.ts:148-158 | the first version after the descending sort is one of the versions, and every other is equal to it or lexicographically below it |
| Publishing.GenerateVersion | apps/data-app/src/utils/publishingUtils.ts:138-160 | the result is always a well-formed version |
| Publishing.GenerateVersionFirst | apps/data-app/src/utils/publishingUtils.ts:139-156 | with no well-formed existing version (an empty list included) the result is "1.0.0" |
| Publishing.ParsedVersionsOf | apps/data-app/src/utils/publishingUtils.ts:144-147 | the parsed versions are exactly the numbers of the existing versions that pass the pattern |
| Publishing.GenerateVersionAboveAll | apps/data-app/src/utils/publishingUtils.ts:154-159 | the new version is strictly above every well-formed existing version, in (major, minor, patch) order |
| Publishing.GenerateVersionBumps | apps/data-app/src/utils/publishingUtils.ts:158-159 | when some version is well formed, the new one is one of them with its patch number incremented |
| Publishing.DetermineInitialStatus | apps/data-app/src/utils/publishingUtils.ts:190-198 | never archived; scheduled exactly when the effective date is after now |
| Publishing.CreateSnapshot | apps/data-app/src/utils/publishingUtils.ts:165-185 | every field of the new snapshot: given id and dates, the products and their count, the generated version, scheduled if and only if the date is in the future and active otherwise |
| Publishing.SortedFirstIsLatest | apps/data-app/src/utils/publishingUtils.ts:216-221 | after the sort, the first eligible snapshot has the latest effective date of all eligible ones |
| Publishing.GetActiveSnapshot | apps/data-app/src/utils/publishingUtils.ts:203-222 | `null` if and only if no snapshot is both in effect and not archived; otherwise an eligible snapshot of the list whose date is at least every eligible one's |
| Publishing.ActiveIsSortedHead | apps/data-app/src/utils/publishingUtils.ts:207-221 | the active snapshot is the head of the eligible snapshots sorted newest first |
| Publishing.ActiveIsFirstLatest | apps/data-app/src/utils/publishingUtils.ts:216-221 | the sort is stable, so among equal dates the active snapshot is the earliest in list order: every eligible one before it is strictly older |
| Publishing.UpdateSnapshotStatuses | apps/data-app/src/utils/publishingUtils.ts:231-253 | same length and order, every field but `status` kept, archived snapshots returned unchanged |
| Publishing.StatusOutcome | apps/data-app/src/utils/publishingUtils.ts:239-247 | a non-archived snapshot becomes scheduled if and only if it is in the future, active if and only if it is in effect and carries the active snapshot's id, archived otherwise |
| Publishing.ActiveIsChosen | apps/data-app/src/utils/publishingUtils.ts:243-244 | every snapshot that ends up active carries the active snapshot's id, and the active snapshot itself ends up active |
| Publishing.UpdateLeavesOneActive | apps/data-app/src/utils/publishingUtils.ts:227-253 | with unique ids, at most one snapshot is active afterwards |
| Publishing.DuplicateIdsCanBothBeActive | apps/data-app/src/utils/publishingUtils.ts:243 | two snapshots that share an id both become active: the id test, not identity, decides |
| Publishing.ActiveAfterUpdate | apps/data-app/src/utils/publishingUtils.ts:227-253 | after the update the active snapshot is absent exactly when it was before, and otherwise has the same id |
| Publishing.NoActiveAfterUpdate | apps/data-app/src/utils/publishingUtils.ts:212-214 | with no eligible snapshot before the update there is none after it |
| Publishing.SameActiveAfterUpdate | apps/data-app/src/utils/publishingUtils.ts:229-247 | an active snapshot before the update has an active snapshot of the same id after it |
| Publishing.UpdateIdempotent | apps/data-app/src/utils/publishingUtils.ts:227-253 | with one `now`, updating the statuses twice is updating them once |
| Publishing.GetSnapshotStats | apps/data-app/src/utils/publishingUtils.ts:268-295 | the total is the number of snapshots |
| Publishing.StatusCountsAddUp | apps/data-app/src/utils/publishingUtils.ts:269-271 | the three status filters together count every snapshot once |
| Publishing.StatsPartition | apps/data-app/src/utils/publishingUtils.ts:286-290 | scheduled, active and archived counts add up to the total |
| Publishing.SortedHeadIsEarliest | apps/data-app/src/utils/publishingUtils.ts:279-283 | the head of the scheduled snapshots sorted by date is one of them and has the earliest date |
| Publishing.StatsNextScheduled | apps/data-app/src/utils/publishingUtils.ts:277-284 | the next scheduled date is `null` if and only if nothing is scheduled, and otherwise the earliest date of a scheduled snapshot |
| Publishing.StatsLatestVersion | apps/data-app/src/utils/publishingUtils.ts:273-292 | the latest version is the last well-formed version in list order, or "0.0.0" when there is none |
| Publishing.IndexSound | apps/data-app/src/utils/publishingUtils.ts:313-316 | every product in the style-code map is filed under its own style code |
| Publishing.IndexEntries | apps/data-app/src/utils/publishingUtils.ts:313-316 | the map has an entry for exactly the style codes of the list |
| Publishing.IndexKeys | apps/data-app/src/utils/publishingUtils.ts:313-316 | the map's keys are the codes in order of first occurrence, and they are exactly its entries |
| Publishing.RepresentativeIsLast | apps/data-app/src/utils/publishingUtils.ts:313 | with repeated codes, the last product with a code is the one the map keeps |
| Publishing.DetectProductChanges | apps/data-app/src/utils/publishingUtils.ts:348-368 | the loop returns the keys to check at which the products differ, in order: the specification function `Changes` |
| Publishing.ChangesIff | apps/data-app/src/utils/publishingUtils.ts:352-367 | a key is reported if and only if the two products read differently there |
| Publishing.ChangesEmptySymmetric | apps/data-app/src/utils/publishingUtils.ts:348-368 | whether two products differ does not depend on their order |
| Publishing.ChangesSelf | apps/data-app/src/utils/publishingUtils.ts:348-368 | a product never differs from itself |
| Publishing.CompareProducts | apps/data-app/src/utils/publishingUtils.ts:309-343 | the two loops build the `added`, `removed` and `modified` lists of the specification function `Compare` |
| Publishing.CompareAdded | apps/data-app/src/utils/publishingUtils.ts:323-326 | `added` holds exactly the kept products of the codes that only the work-in-progress list has |
| Publishing.CompareRemoved | apps/data-app/src/utils/publishingUtils.ts:336-340 | `removed` holds exactly the kept products of the codes that only the published list has |
| Publishing.CompareModified | apps/data-app/src/utils/publishingUtils.ts:326-331 | `modified` holds exactly the codes both lists have whose kept products differ, each with its changed keys |
| Publishing.CompareSwap | apps/data-app/src/utils/publishingUtils.ts:309-343 | swapping the two lists swaps `added` and `removed` |
| Publishing.CompareSwapModified | apps/data-app/src/utils/publishingUtils.ts:309-343 | swapping the two lists keeps the set of modified codes |
| Publishing.CompareSelf | apps/data-app/src/utils/publishingUtils.ts:309-343 | a list compared with itself has no differences |
| Attributes.SortedSelection | apps/billing-app/src/utils/attributeUtils.ts:42-44 | the kept definitions sorted by `order`: sorted, exactly the kept ones, and a permutation of the plain filter |
| Attributes.GetFilterableAttributes | apps/billing-app/src/utils/attributeUtils.ts:41-45 | sorted by `order`; a permutation of the filterable definitions (each once, as in the file), with file order kept among equal `order` values |
| Attributes.GetSearchableAttributes | apps/billing-app/src/utils/attributeUtils.ts:50-52 | the searchable definitions, exactly, in file order |
| Attributes.GetListAttributes | apps/billing-app/src/utils/attributeUtils.ts:57-61 | sorted by `order`; a permutation of the definitions shown in the list, with file order kept among equal `order` values |
| Attributes.GetAttributesForTab | apps/billing-app/src/utils/attributeUtils.ts:66-70 | sorted by `order`; a permutation of the detail definitions of that tab, with file order kept among equal `order` values |
| Attributes.FindIndex | apps/billing-app/src/utils/attributeUtils.ts:76 | `find`: no index if and only if nothing matches; otherwise the first matching index |
| Attributes.GetAttributeById | apps/billing-app/src/utils/attributeUtils.ts:75-77 | `undefined` if and only if no definition has the id; otherwise the first definition with it |
| Attributes.GetAttributeByKey | apps/billing-app/src/utils/attributeUtils.ts:82-86 | `undefined` if and only if no definition has the key; otherwise the first definition with it |
| Attributes.GetAttributeValue | apps/billing-app/src/utils/attributeUtils.ts:92-107 | `null` for an unknown id; else the defined `attributes[id]`; else the defined legacy field; else `null` |
| Attributes.EmptinessRule | apps/billing-app/src/utils/attributeUtils.ts:112-127 | case by case: `null` and sentinels are empty; a string is empty if and only if it is blank or a sentinel; an array if and only if all its elements are sentinels; a number or boolean if and only if it is a sentinel; an object never |
| Attributes.FormatAttributeValue | apps/billing-app/src/utils/attributeUtils.ts:133-145 | "" for an empty value, `String(value)` for a value that is not an array (the array case is `Attributes.FormatArray`) |
| Attributes.FormatSingleton | apps/billing-app/src/utils/attributeUtils.ts:139-142 | a one-element array formats as its element, whatever the separator |
| Attributes.FormatPartsFilter | apps/billing-app/src/utils/attributeUtils.ts:141 | the parts that are joined are the elements the sentinel filter keeps, each written as `join` writes it |
| Attributes.FormatArray | apps/billing-app/src/utils/attributeUtils.ts:136-142 | any array formats as the join of its non-sentinel elements, by the definition's separator when non-empty and " : " otherwise; an array of sentinels only gives "" |
| Attributes.FormatKeptPair | apps/billing-app/src/utils/attributeUtils.ts:139-141 | an array with two kept elements is written as first, separator, second |
| Attributes.FormatPair | apps/billing-app/src/utils/attributeUtils.ts:139-141 | two non-sentinel elements are joined by the separator rule |
| Attributes.FormatDropsSentinel | apps/billing-app/src/utils/attributeUtils.ts:139-141 | a sentinel between two strings is dropped and the custom separator " / " joins the other two |
| Attributes.ScalarTextNonEmpty | apps/billing-app/src/utils/attributeUtils.ts:160-170 | a non-empty value that is not an array never reads as "" |
| Attributes.ElementStringsFrom | apps/billing-app/src/utils/attributeUtils.ts:162-167 | each string an array contributes is the text of one of its non-empty elements |
| Attributes.ValueStringsNonEmpty | apps/billing-app/src/utils/attributeUtils.ts:157-171 | a value that is not an array of arrays contributes no "" |
| Attributes.OccurrencesNonEmpty | apps/billing-app/src/utils/attributeUtils.ts:157-171 | over products without nested arrays, no contributed string is "" |
| Attributes.AddValueStrings | apps/billing-app/src/utils/attributeUtils.ts:157-171 | the `forEach` body keeps the set as the first occurrences of all strings seen so far |
| Attributes.SortedSetFacts | apps/billing-app/src/utils/attributeUtils.ts:173 | the sorted array of the set has no repeats and holds the same strings |
| Attributes.ExtractUniqueValues | apps/billing-app/src/utils/attributeUtils.ts:151-174 | sorted, without repeats, and holding exactly the strings some product contributes |
| Attributes.FilterRule | apps/billing-app/src/utils/attributeUtils.ts:179-199 | an empty value never matches; multi-select is array membership or equality; single-select is equality; anything else is a case-insensitive substring test |
| Attributes.AnyFieldHit | apps/billing-app/src/utils/attributeUtils.ts:213-218 | the core-field loop finds a hit if and only if some core field holds the query |
| Attributes.AnyAttributeHit | apps/billing-app/src/utils/attributeUtils.ts:221-235 | the attribute loop finds a hit if and only if some searchable attribute holds the query |
| Attributes.CheckAttribute | apps/billing-app/src/utils/attributeUtils.ts:222-234 | one attribute: skipped when empty; else an array matches through any element and a scalar through its text |
| Attributes.MatchesSearch | apps/billing-app/src/utils/attributeUtils.ts:204-238 | the early-return loops decide exactly the specification predicate: a blank query matches, else a core field or a searchable attribute must hold the lower-cased query |
| Attributes.AcceptProduct | apps/billing-app/src/utils/attributeUtils.ts:248-269 | the callback rejects on a failing search, then on the first failing filter, and accepts otherwise |
| Attributes.CheckFilters | apps/billing-app/src/utils/attributeUtils.ts:255-266 | the filter loop returns true if and only if every entry holds |
| Attributes.CheckFilter | apps/billing-app/src/utils/attributeUtils.ts:256-265 | an entry with an empty value or an unknown id is skipped; else it holds when the value matches |
| Attributes.ApplyFilters | apps/billing-app/src/utils/attributeUtils.ts:243-270 | the result is the products the callback accepts, in order |
| Attributes.ApplyFiltersSubsequence | apps/billing-app/src/utils/attributeUtils.ts:248 | filtering keeps products in order and adds none |
| Attributes.ApplyFiltersNothing | apps/billing-app/src/utils/attributeUtils.ts:243-270 | no filters and no query keep every product |
| Attributes.SetNewKey | apps/billing-app/src/utils/attributeUtils.ts:255 | assigning a new key appends it, so `Object.entries` visits it last |
| Attributes.AddingFilterShrinks | apps/billing-app/src/utils/attributeUtils.ts:255-266 | adding a filter on a new key can only remove products |
| Attributes.SkippedFilterChangesNothing | apps/billing-app/src/utils/attributeUtils.ts:256-259 | adding an empty filter, or one on an unknown attribute, changes nothing |
| Attributes.TallyKeys | apps/billing-app/src/utils/attributeUtils.ts:280-301 | the count map's keys are the occurring strings in order of first occurrence |
| Attributes.TallyCounts | apps/billing-app/src/utils/attributeUtils.ts:292-298 | the count map holds, for every string, how often it occurs |
| Attributes.TallySum | apps/billing-app/src/utils/attributeUtils.ts:281-299 | the counts add up to the number of occurrences |
| Attributes.CountValueStrings | apps/billing-app/src/utils/attributeUtils.ts:283-301 | the `forEach` body keeps the map equal to the tally of all strings seen, and `totalCount` equal to their number |
| Attributes.GetAttributeValueCounts | apps/billing-app/src/utils/attributeUtils.ts:276-310 | the loop produces the rows of the tally, stably sorted by count, descending |
| Attributes.RowOfTally | apps/billing-app/src/utils/attributeUtils.ts:303-308 | each row names an occurring string and how often it occurs |
| Attributes.ValueCountsExact | apps/billing-app/src/utils/attributeUtils.ts:303-309 | every row's count is its value's number of occurrences, so at least 1 |
| Attributes.ValueCountsDistinct | apps/billing-app/src/utils/attributeUtils.ts:303-309 | no value has two rows |
| Attributes.ValueCountsCover | apps/billing-app/src/utils/attributeUtils.ts:303-309 | every occurring string has a row |
| Attributes.ValueCountsDescending | apps/billing-app/src/utils/attributeUtils.ts:309 | the rows run from the largest count to the smallest |
| Attributes.ValueCountsSum | apps/billing-app/src/utils/attributeUtils.ts:281-309 | the counts add up to the number of non-empty occurrences, that is `totalCount` |
| CatalogPage.NextSort | apps/data-app/src/pages/Product360/index.tsx:82-90 | the new key is the clicked one; the direction is descending if and only if the same key was ascending |
| CatalogPage.ClicksAlternate | apps/data-app/src/pages/Product360/index.tsx:82-90 | clicking the same header again always flips the direction, and two more clicks come back |
| CatalogPage.CompareFlip | apps/data-app/src/pages/Product360/index.tsx:64-75 | the descending comparator is the ascending one negated |
| CatalogPage.CompareAntisymmetric | apps/data-app/src/pages/Product360/index.tsx:64-75 | on string sort values, swapping the two products negates the comparison |
| CatalogPage.BeforeOnStrings | apps/data-app/src/pages/Product360/index.tsx:65-73 | on string values the comparator orders by code units, ascending or descending |
| CatalogPage.SortProductsCorrect | apps/data-app/src/pages/Product360/index.tsx:62-76 | sorting is a permutation, and with string sort values the result is ordered by the comparator |
| CatalogPage.ActiveFilters | apps/data-app/src/pages/Product360/index.tsx:156-163 | one chip per entry with a non-empty value |
| CatalogPage.ActiveFiltersExact | apps/data-app/src/pages/Product360/index.tsx:157-161 | a chip shows a key and value if and only if the filters hold that entry and the value is not empty |
| CatalogPage.ChipLabelFallback | apps/data-app/src/pages/Product360/index.tsx:160-161 | the label is that of the filterable attribute with the key, or the key itself when there is none or its label is empty |
| CatalogPage.TotalPagesIsCeiling | apps/data-app/src/pages/Product360/index.tsx:169 | the page count is the ceiling of the list length over 25: enough pages for every item, and one fewer is not; zero only for an empty list |
| CatalogPage.PageBounds | apps/data-app/src/pages/Product360/index.tsx:170-175 | a page in range is the contiguous run from its start index, at most 25 items, and a full 25 on every page but the last |
| CatalogPage.ItemOnItsPage | apps/data-app/src/pages/Product360/index.tsx:169-175 | every item lies on exactly the page its index gives |
| CatalogPage.PageWindowShape | apps/data-app/src/pages/Product360/index.tsx:385-395 | the buttons show `min(5, totalPages)` consecutive page numbers, all in range, including the current page when that is in range |
| CatalogPage.Page.constructor | apps/data-app/src/pages/Product360/index.tsx:31-55 | the loaded page starts without filters or query, sorted by style code ascending, on page 1, with the filtered list the effect computes |
| CatalogPage.Page.RunEffect | apps/data-app/src/pages/Product360/index.tsx:58-80 | the effect stores the filtered and sorted list and goes back to page 1 |
| CatalogPage.Page.HandleSort | apps/data-app/src/pages/Product360/index.tsx:82-90 | the sort changes as `NextSort` says and the effect reruns |
| CatalogPage.Page.HandleFilterChange | apps/data-app/src/pages/Product360/index.tsx:92-94 | one key gets the value, every other key reads as before, and the effect reruns |
| CatalogPage.Page.HandleResetFilters | apps/data-app/src/pages/Product360/index.tsx:96-99 | no filters and an empty query remain, and the effect reruns |
| CatalogPage.Page.HandleRemoveFilter | apps/data-app/src/pages/Product360/index.tsx:101-107 | exactly that key is gone, and the effect reruns |
| CatalogPage.Page.SetSearchQuery | apps/data-app/src/pages/Product360/index.tsx:271 | the query is stored; the effect, and the return to page 1, happen only when it changed |
| CatalogPage.Page.Previous | apps/data-app/src/pages/Product360/index.tsx:373 | the page goes down by one, but not below 1 |
| CatalogPage.Page.Next | apps/data-app/src/pages/Product360/index.tsx:416 | the page goes up by one, but not past the last page |
| CatalogPage.Page.GoToPage | apps/data-app/src/pages/Product360/index.tsx:399 | a page-number button sets that page |
| CatalogPage.Page.PageProducts | apps/data-app/src/pages/Product360/index.tsx:170-175 | at most 25 products, the contiguous run of the filtered list from the page's start |
| PublishingManager.ActiveId | apps/data-app/src/components/PublishingManager.tsx:75-76 | `null` if and only if there is no active snapshot or its id is empty; otherwise the active snapshot's id |
| PublishingManager.CanArchive | apps/data-app/src/components/PublishingManager.tsx:349-352 | the Archive button is offered exactly for scheduled snapshots |
| PublishingManager.ArchiveByIdEffect | apps/data-app/src/components/PublishingManager.tsx:113-115 | archiving keeps the length, archives every snapshot with the id, touches only their status, and leaves the others unchanged |
| PublishingManager.ArchivedIsNotActive | apps/data-app/src/components/PublishingManager.tsx:112-120 | after archiving an id, the active snapshot never carries that id |
| PublishingManager.NewSnapshotScheduledIff | apps/data-app/src/components/PublishingManager.tsx:70-71 | the appended snapshot ends up scheduled exactly when its effective date is in the future |
| PublishingManager.AppendOutcome | apps/data-app/src/components/PublishingManager.tsx:62-71 | the appended snapshot keeps its version and is scheduled if and only if it is in the future; with unique ids at most one snapshot is active |
| PublishingManager.NewSnapshotCanBeArchived | apps/data-app/src/components/PublishingManager.tsx:70-71 | a new snapshot already in effect is archived at once when an older snapshot in effect, with another id, has a later date |
| PublishingManager.TickCanLeaveCacheStale | apps/data-app/src/components/PublishingManager.tsx:36-41 | the periodic update recomputes only the list, so the cached active id can disagree with the list |
| PublishingManager.Manager.constructor | apps/data-app/src/components/PublishingManager.tsx:19-20 | the store starts from the published-snapshots data |
| PublishingManager.Manager.Tick | apps/data-app/src/components/PublishingManager.tsx:36-44 | the list is replaced by its updated statuses; the cached id is kept |
| PublishingManager.AfterCreate | apps/data-app/src/components/PublishingManager.tsx:62-71 | the new list is one longer; its last snapshot carries the version computed from the list as it was, and is scheduled if and only if it is in the future; with unique ids at most one snapshot is active |
| PublishingManager.Manager.HandleCreateSnapshot | apps/data-app/src/components/PublishingManager.tsx:60-77 | the store holds the created snapshot appended to the old list, with every status recomputed, and the cache is reset to the active id of the new list |
| PublishingManager.Manager.HandleArchiveSnapshot | apps/data-app/src/components/PublishingManager.tsx:112-120 | the snapshots with the id become archived, the others are unchanged, no status is recomputed, and the cache is reset from the new list |
| MsalEnv.SameFields | packages/msal-auth/src/config/env.ts:4-10 | two value records that agree on all five fields are equal |
| MsalEnv.NormalizeKeyIdempotent | packages/msal-auth/src/config/env.ts:34 | normalizing a normalized key changes nothing |
| MsalEnv.TrimUpperFixed | packages/msal-auth/src/config/env.ts:34 | trimming an upper-case string keeps it upper-case and trimmed |
| MsalEnv.UpperOfTrim | packages/msal-auth/src/config/env.ts:34 | upper-casing the trim of an upper-case string changes nothing |
| MsalEnv.TrimTwice | packages/msal-auth/src/config/env.ts:34 | trimming is idempotent |
| MsalEnv.NormalizeEmpty | packages/msal-auth/src/config/env.ts:34 | the empty key normalizes to the empty key, which keeps the empty fallback prefix in the list |
| MsalEnv.FirstSuffixMatch | packages/msal-auth/src/config/env.ts:72 | the index found lies in range, its suffix ends the key, and no earlier suffix does |
| MsalEnv.ResolveFieldFirst | packages/msal-auth/src/config/env.ts:70-74 | `null` if and only if no suffix of `SUFFIX_MAP` ends the normalized key; otherwise the field of the first suffix that does |
| MsalEnv.SuffixMatchFirst | packages/msal-auth/src/config/env.ts:72-73 | the first-match index read as `hit ? hit[1] : null` is `null` exactly when no rule matches, and else the first matching rule's field |
| MsalEnv.SuffixMapCoversFields | packages/msal-auth/src/config/env.ts:18-24 | every `MsalValues` field has a row in `SUFFIX_MAP`, and no two rows name the same field |
| MsalEnv.ResolveFieldIgnoresCase | packages/msal-auth/src/config/env.ts:34-71 | lower- or upper-casing the key does not change the field it resolves to |
| MsalEnv.ResolveFieldNormalized | packages/msal-auth/src/config/env.ts:71-99 | resolving the already normalized key (line 99) gives the field of the raw key |
| MsalEnv.PostLogoutWins | packages/msal-auth/src/config/env.ts:17-19 | a key ending in POST_LOGOUT_REDIRECT_URI resolves to the logout redirect, never to the redirect |
| MsalEnv.RedirectIsNotPostLogout | packages/msal-auth/src/config/env.ts:17-20 | a key that resolves to the redirect does not end in POST_LOGOUT_REDIRECT_URI |
| MsalEnv.ResolvedBySecondRule | packages/msal-auth/src/config/env.ts:20 | a key that resolves to the redirect is matched by the second rule |
| MsalEnv.SecondRuleNotFirst | packages/msal-auth/src/config/env.ts:19-20 | a key matched by the second rule does not end in POST_LOGOUT_REDIRECT_URI |
| MsalEnv.LogoutKeyIsRedirect | packages/msal-auth/src/config/env.ts:19-20 | a key ending in LOGOUT_REDIRECT_URI but not POST_LOGOUT_REDIRECT_URI resolves to the redirect, not the logout redirect |
| MsalEnv.LogoutRule | packages/msal-auth/src/config/env.ts:19-20 | a LOGOUT_REDIRECT_URI key without the POST_ part is first matched by the second rule |
| MsalEnv.LogoutEndsRedirect | packages/msal-auth/src/config/env.ts:19-20 | a key ending in LOGOUT_REDIRECT_URI ends in REDIRECT_URI |
| MsalEnv.SecondRuleWins | packages/msal-auth/src/config/env.ts:19-20 | a key that misses the first suffix and has the second is first matched by the second rule |
| MsalEnv.PrefixListShape | packages/msal-auth/src/config/env.ts:91-95 | the prefix list starts with the normalized primary prefix, lists no prefix twice, and holds the empty prefix |
| MsalEnv.FirstOccurrencesHead | packages/msal-auth/src/config/env.ts:95 | keeping first occurrences keeps the head |
| MsalEnv.GetMsalEnv | packages/msal-auth/src/config/env.ts:85-114 | the loop over the entries yields the values the entries give in order, starting from `DEFAULTS` |
| MsalEnv.VisitEntry | packages/msal-auth/src/config/env.ts:98-100 | an entry whose key resolves to no field leaves the values alone; otherwise the prefix loop decides |
| MsalEnv.ScanPrefixes | packages/msal-auth/src/config/env.ts:102-110 | a prefix that does not match is skipped, a field already set ends the loop, and a non-empty string value is stored |
| MsalEnv.MatchesSnoc | packages/msal-auth/src/config/env.ts:102-104 | some prefix among the first `i + 1` matches exactly when one among the first `i` does or the `i`th does |
| MsalEnv.FirstOfAppend | packages/msal-auth/src/config/env.ts:97-105 | over two runs of entries, the first run's value wins when it has one |
| MsalEnv.FoldFirstValue | packages/msal-auth/src/config/env.ts:97-111 | a fold that sets an empty field from an accepted entry ends with the value of the first accepted entry |
| MsalEnv.FirstValueAppend | packages/msal-auth/src/config/env.ts:97-111 | over two runs of entries, a field the first run sets keeps that value |
| MsalEnv.CollectIsFirstValue | packages/msal-auth/src/config/env.ts:97-111 | with the empty prefix listed, each field is the first non-empty string value whose key resolves to it |
| MsalEnv.ApplyEntryField | packages/msal-auth/src/config/env.ts:102-110 | with the empty prefix listed, an entry sets a field exactly when the field is still empty and the entry qualifies for it |
| MsalEnv.EffectField | packages/msal-auth/src/config/env.ts:102-110 | with a matching prefix, an entry sets only its own field, only when empty, and only to a non-empty string |
| MsalEnv.GetMsalEnvField | packages/msal-auth/src/config/env.ts:85-114 | `getMSALEnv` gives, field by field, the first non-empty string value whose key resolves to the field, or "" |
| MsalEnv.PrefixIrrelevant | packages/msal-auth/src/config/env.ts:92-95 | the primary prefix changes no result, since the empty fallback prefix always matches |
| MsalEnv.FirstWins | packages/msal-auth/src/config/env.ts:105 | a field once set is never overwritten by later entries |
| MsalEnv.FirstValueSource | packages/msal-auth/src/config/env.ts:97-111 | a field is set exactly when some entry qualifies for it, and then it holds that entry's string |
| MsalEnv.QualifiesResolves | packages/msal-auth/src/config/env.ts:99-106 | a qualifying entry holds a string and its raw key resolves to the field |
| MsalEnv.GetMsalEnvProvenance | packages/msal-auth/src/config/env.ts:85-114 | every non-empty field of the result is the string value of some entry |
| MsalEnv.FirstValueProvenance | packages/msal-auth/src/config/env.ts:106-108 | the first value for a field is the string value of some entry |
| MsalConfig.ConfigOf | packages/msal-auth/src/msal/msalConfig.tsx:61-67 | client id and authority verbatim; each redirect is `undefined` if and only if its value is ""; scopes are `undefined` if and only if the value is "", and otherwise space-free parts that join back to it |
| MsalConfig.CreateIsBuildFromEnv | packages/msal-auth/src/provider/MsalAuthProvider.tsx:134-143 | the provider's `buildConfigFromEnv` and `createMsalConfig` agree, whatever prefix the latter gets |
| MsalConfig.CreateMsalConfigFromSource | packages/msal-auth/src/msal/msalConfig.tsx:59-68 | each member comes from the first qualifying environment entry for its field |
| MsalConfig.ConfigOfFields | packages/msal-auth/src/msal/msalConfig.tsx:61-67 | the record's members follow the collected values field by field |
| MsalConfig.EmptySourceConfig | packages/msal-auth/src/msal/msalConfig.tsx:59-68 | an empty environment gives empty client id and authority and nothing else |
| MsalConfig.LoginRequest | packages/msal-auth/src/msal/msalConfig.tsx:94-97 | the scopes are at least one part, join back to the value, and an empty value gives `[""]`, since `?? []` never applies |
| MsalConfig.LoginRequestMatchesConfig | packages/msal-auth/src/msal/msalConfig.tsx:66-96 | where the config has scopes, the login request asks for the same ones |
| MsalConfig.BuildAuth | packages/msal-auth/src/msal/msalConfig.tsx:27-34 | the `auth` block copies the collected values; `navigateToLoginRequestUrl` is true |
| MsalConfig.BuildAuthIgnoresOrigin | packages/msal-auth/src/msal/msalConfig.tsx:30-32 | every collected value is a string, so `window.location.origin` never shows through and an unset redirect stays "" |
| QueryKeys.All | packages/tanstack/src/createCrudQueryKeys.ts:2-4 | the root key holds exactly the resource name |
| QueryKeys.List | packages/tanstack/src/createCrudQueryKeys.ts:5 | a list key is the root key, then "list", then the filters, `undefined` included |
| QueryKeys.Detail | packages/tanstack/src/createCrudQueryKeys.ts:6 | a detail key is the root key, then "detail", then the id |
| QueryKeys.AllCoversResource | packages/tanstack/src/createCrudQueryKeys.ts:1-8 | the root key is a prefix of a list, detail or root key if and only if both belong to the same resource |
| QueryKeys.KeysDistinct | packages/tanstack/src/createCrudQueryKeys.ts:5-6 | a list key is never a detail key; two list (or detail) keys are equal if and only if resource and argument are |
| QueryKeys.ListCoversOnlyItself | packages/tanstack/src/createCrudQueryKeys.ts:5-6 | a list key is a prefix of another list key of its resource only when the filters are equal, and never of a detail key |
| CrudStore.MaxWithBounds | packages/tanstack/src/mock/CreateInMemoryCredService.ts:33-37 | the reduce is at least 0, no smaller than any finite id, and equal to one of them unless it is 0 |
| CrudStore.MapWhere | packages/tanstack/src/mock/CreateInMemoryCredService.ts:49-56 | the mapped list has the same length; an entity the test accepts is replaced, and any other stays as it was |
| CrudStore.MapTracking | packages/tanstack/src/mock/CreateInMemoryCredService.ts:47-56 | the map's result, and `updated` is set exactly when some entity has the id, holding the last one changed |
| CrudStore.MaxOf | packages/tanstack/src/mock/CreateInMemoryCredService.ts:33-37 | the loop computes the reduce over the entities' numeric ids, starting from 0 |
| CrudStore.Store.constructor | packages/tanstack/src/mock/CreateInMemoryCredService.ts:11-13 | the store holds a copy of the initial data and the id key |
| CrudStore.Store.List | packages/tanstack/src/mock/CreateInMemoryCredService.ts:17-19 | `list` returns the current data and changes nothing |
| CrudStore.Store.GetById | packages/tanstack/src/mock/CreateInMemoryCredService.ts:21-25 | success if and only if some entity has the id, returning the first such entity; otherwise the "Entity with id … not found" error |
| CrudStore.Store.Create | packages/tanstack/src/mock/CreateInMemoryCredService.ts:27-44 | exactly the new entity is appended to the data and returned |
| CrudStore.Store.Update | packages/tanstack/src/mock/CreateInMemoryCredService.ts:46-60 | every entity with the id gets the payload spread over it; success if and only if one had the id, returning the last so merged; otherwise the not-found error and the data as it was |
| CrudStore.Store.Delete | packages/tanstack/src/mock/CreateInMemoryCredService.ts:62-67 | the entities with the id are filtered out; the not-found error if and only if none had the id, and then the data is as it was |
| CrudStore.NoMatchNoUpdate | packages/tanstack/src/mock/CreateInMemoryCredService.ts:49-58 | with no entity carrying the id, the mapped list equals the old one |
| CrudStore.NoMatchNoDelete | packages/tanstack/src/mock/CreateInMemoryCredService.ts:64-66 | with no entity carrying the id, the filtered list equals the old one, so the length check throws |
| CrudStore.NewIdAboveAll | packages/tanstack/src/mock/CreateInMemoryCredService.ts:32-39 | without a generator, a payload with a `null` or absent id gets a number id of at least 1, above every finite numeric id in the data |
| CrudStore.MaxIdBound | packages/tanstack/src/mock/CreateInMemoryCredService.ts:33-37 | `maxId` is at least 0 and at least every finite numeric id |
| CrudStore.NewEntityFields | packages/tanstack/src/mock/CreateInMemoryCredService.ts:28-40 | a generated id is stored; a non-null id the caller gave is kept as given; every other field is the payload's |
| CrudStore.CreateAllowsDuplicate | packages/tanstack/src/mock/CreateInMemoryCredService.ts:32 | a caller's id that the data already holds is not checked, so two entities end up with it |
| CrudStore.UpdateEffect | packages/tanstack/src/mock/CreateInMemoryCredService.ts:49-56 | an updated entity reads the payload's value for every key the payload has and its old value for the others; other entities are unchanged |
| CrudStore.DeleteEffect | packages/tanstack/src/mock/CreateInMemoryCredService.ts:64 | after delete no entity has the id, the others remain in order, and the list loses exactly the entities that had it |
| CrudStore.CountSplit | packages/tanstack/src/mock/CreateInMemoryCredService.ts:64-65 | the entities with the id and the ones kept add up to the old length |
| Logger.RankStrictlyIncreasing | apps/billing-app/src/utils/logger.ts:20-26 | the ranks climb strictly from debug to silent, so no two levels share a rank |
| Logger.EmitsThreshold | apps/billing-app/src/utils/logger.ts:44 | a threshold lets its own level through and every higher one, debug lets everything through, and silent stops all four logging levels |
| Logger.PrefixParts | apps/billing-app/src/utils/logger.ts:28-37 | the prefix is the bracketed time, then the app, the context and the level that are present and non-empty, in that order, one space apart |
| Logger.PartsKept | apps/billing-app/src/utils/logger.ts:29-35 | `filter(Boolean)` keeps the time and exactly the tags that are present and non-empty |
| Logger.FilterFour | apps/billing-app/src/utils/logger.ts:35 | filtering the four parts keeps each one that is non-empty, in order |
| Logger.UpperName | apps/billing-app/src/utils/logger.ts:33 | the upper-cased level names are DEBUG, INFO, WARN, ERROR and SILENT |
| Logger.PrefixStartsWithTime | apps/billing-app/src/utils/logger.ts:30 | every prefix starts with the bracketed time |
| Logger.AppWarnPrefix | apps/billing-app/src/utils/logger.ts:28-37 | with app "MyApp", an empty context and level warn, the prefix is `[time] [MyApp] [WARN]` |
| Logger.JoinHead | apps/billing-app/src/utils/logger.ts:36 | a joined list starts with its first element |
| Logger.SpreadIgnoresExtraLevel | apps/billing-app/src/utils/logger.ts:68-69 | a child's options take the keys of `extra` over the parent's, but the level is always the parent's current level, whatever `extra.level` holds |
| Logger.Console.constructor | apps/billing-app/src/utils/logger.ts:50-51 | the console starts with no calls |
| Logger.Log.constructor | apps/billing-app/src/utils/logger.ts:39-41 | the logger keeps its options, and the level is `options.level`, or "info" when absent |
| Logger.Log.SetLevel | apps/billing-app/src/utils/logger.ts:64-66 | the new threshold is the level given |
| Logger.Log.GetLevel | apps/billing-app/src/utils/logger.ts:67 | returns the current threshold |
| Logger.Log.Child | apps/billing-app/src/utils/logger.ts:68-69 | a new logger on the same console, with the spread options and the parent's current level |
| Logger.Log.Emit | apps/billing-app/src/utils/logger.ts:43-61 | an entry is written if and only if its level ranks at least the threshold; then exactly one console call on `log` for debug or the level's own name otherwise, with text `prefix message` and the data, and the entry is returned; otherwise nothing is written |
| Logger.Log.LogDebug | apps/billing-app/src/utils/logger.ts:71 | `debug` emits at level debug on the console's `log` |
| Logger.Log.LogInfo | apps/billing-app/src/utils/logger.ts:72 | `info` emits at level info on `info` |
| Logger.Log.LogWarn | apps/billing-app/src/utils/logger.ts:73 | `warn` emits at level warn on `warn` |
| Logger.Log.LogError | apps/billing-app/src/utils/logger.ts:74 | `error` emits at level error on `error` |
| Logger.AppLogger | apps/billing-app/src/utils/logger.ts:79 | the app-wide logger has app "MyApp", no context and level info |
| Logger.ChildLevelIsOwn | apps/billing-app/src/utils/logger.ts:64-69 | a child's `setLevel` sets the child's level and leaves the parent's alone |
| ImageUrls.RejectedNames | apps/data-app/src/utils/imageUtils.ts:16-23 | `null` if and only if the name is missing, empty, "x", "Blank" or "null" |
| ImageUrls.SpacedSentinel | apps/data-app/src/utils/imageUtils.ts:16-26 | the sentinels are compared before the trim, so a sentinel with whitespace around it is accepted and put under the base |
| ImageUrls.SentinelTrimmed | apps/data-app/src/utils/imageUtils.ts:18-20 | no sentinel starts or ends with whitespace |
| ImageUrls.TrimPadded | apps/data-app/src/utils/imageUtils.ts:26 | trimming one whitespace character off each end of a trimmed string gives it back |
| ImageUrls.AcceptedNames | apps/data-app/src/utils/imageUtils.ts:26-36 | an accepted name that trims to a web URL comes back trimmed; any other goes under the base, and a blank one gives the base with a trailing "/" |
| ImageUrls.UnderBaseIsWeb | apps/data-app/src/utils/imageUtils.ts:6 | the base and everything under it start with `https://` |
| ImageUrls.StartsWithConcat | apps/data-app/src/utils/imageUtils.ts:30-31 | a concatenation starts with its first part |
| ImageUrls.WebUrlStart | apps/data-app/src/utils/imageUtils.ts:30-31 | a web URL has at least seven characters and starts with 'h' |
| ImageUrls.BuiltUrlsValid | apps/data-app/src/utils/imageUtils.ts:13-82 | every URL `buildImageUrl` returns passes `isValidImageUrl` |
| ImageUrls.WebUrlValid | apps/data-app/src/utils/imageUtils.ts:75-81 | a web URL passes `isValidImageUrl` |
| ImageUrls.FixedUrlsValid | apps/data-app/src/utils/imageUtils.ts:45-82 | the placeholder, every catalog URL and every swatch URL pass `isValidImageUrl` |
| ImageUrls.SwatchIsCatalog | apps/data-app/src/utils/imageUtils.ts:45-59 | a swatch URL is the catalog URL of the style "Swatch" |
| ImageUrls.CatalogNameBuildsCatalogUrl | apps/data-app/src/utils/imageUtils.ts:13-50 | building from a catalog file name `{style}-{color}.jpg` gives the catalog URL, when the style starts with neither whitespace nor 'h' |
| ImageUrls.BuildIdempotent | apps/data-app/src/utils/imageUtils.ts:13-37 | building again from a built URL gives the same URL |
| ImageUrls.BuiltIsTrimmedWeb | apps/data-app/src/utils/imageUtils.ts:26-36 | a built URL is a web URL with no whitespace at either end |
| ImageUrls.ResolvedIsTrimmedWeb | apps/data-app/src/utils/imageUtils.ts:29-36 | a trimmed name resolves to a trimmed web URL |
| ImageUrls.BaseStart | apps/data-app/src/utils/imageUtils.ts:6 | the base starts with a non-space character |
| ImageUrls.TrimmedEnds | apps/data-app/src/utils/imageUtils.ts:26 | a string whose ends are not whitespace is its own trim |
| ImageUrls.KeepsWebUrl | apps/data-app/src/utils/imageUtils.ts:29-34 | a trimmed web URL is returned as it is |
| ImageUrls.BuildLong | apps/data-app/src/utils/imageUtils.ts:16-26 | a name of seven or more characters is never a sentinel, so it is trimmed and resolved |
| ImageUrls.LongNotSentinel | apps/data-app/src/utils/imageUtils.ts:18-20 | a name longer than five characters is no sentinel |
| TopBar.HeadsAreWordStarts | apps/data-app/src/layouts/TopBar.tsx:22-26 | the first characters of the non-empty space-separated parts are exactly the non-space characters that start the name or follow a space, in order |
| TopBar.SpaceFirst | apps/data-app/src/layouts/TopBar.tsx:23-24 | a leading space gives an empty first part, which the filter drops |
| TopBar.LetterFirst | apps/data-app/src/layouts/TopBar.tsx:23-25 | a leading non-space character begins the first word and is its head |
| TopBar.SomeWordStarts | apps/data-app/src/layouts/TopBar.tsx:21-24 | a name with a non-space character starts at least one word |
| TopBar.HeadsOfWords | apps/data-app/src/layouts/TopBar.tsx:25-26 | the heads of non-empty parts are their first characters, one per part |
| TopBar.InitialsBlank | apps/data-app/src/layouts/TopBar.tsx:20-28 | a missing or blank name gives "U"; every result has at most two characters |
| TopBar.InitialsOfWords | apps/data-app/src/layouts/TopBar.tsx:22-28 | for a name that is not blank, the initials are the upper-cased first characters of its first words, one per word up to two, and at least one |
| TopBar.InitialsAreWordStarts | apps/data-app/src/layouts/TopBar.tsx:20-28 | the initials of a name that is not blank are its word-starting characters, upper-cased and cut to two |
| TopBar.InitialsCut | apps/data-app/src/layouts/TopBar.tsx:21-28 | a name that is not blank has at least one word and passes the guard |
| TopBar.WordsNonEmpty | apps/data-app/src/layouts/TopBar.tsx:24 | every word kept is non-empty |
| TopBar.CutUpper | apps/data-app/src/layouts/TopBar.tsx:27-28 | upper-casing and cutting keeps one upper-cased letter per word, up to two |
| TopBar.WordStartsAppend | apps/data-app/src/layouts/TopBar.tsx:23-24 | the word starts of a concatenation are those of each part, the second read as if after the first's last character |
| TopBar.RepeatedSpaces | apps/data-app/src/layouts/TopBar.tsx:23-24 | doubling a space between two parts of a name changes no initial |
| TopBar.StartsRepeatedSpace | apps/data-app/src/layouts/TopBar.tsx:23-24 | doubling a space changes no word start |
| TopBar.BlankAlike | apps/data-app/src/layouts/TopBar.tsx:21 | doubling a space keeps a blank name blank and a non-blank one non-blank |
| Contrast.HexValue | test-apps/styles-test-app/src/components/colors/ContrastChecker.tsx:16-18 | a hex digit's value lies in 0..15 |
| Contrast.PairValue | test-apps/styles-test-app/src/components/colors/ContrastChecker.tsx:16-18 | `parseInt` of two captured digits lies in 0..255 |
| Contrast.ParseHex | test-apps/styles-test-app/src/components/colors/ContrastChecker.tsx:13-19 | a match yields three components in 0..255 |
| Contrast.HexToRgb | test-apps/styles-test-app/src/components/colors/ContrastChecker.tsx:12-21 | the components lie in 0..255, and an input the pattern rejects gives black |
| Contrast.AcceptedShapes | test-apps/styles-test-app/src/components/colors/ContrastChecker.tsx:13 | the pattern matches if and only if the input is six hex digits, or '#' and six hex digits |
| Contrast.OthersAreBlack | test-apps/styles-test-app/src/components/colors/ContrastChecker.tsx:13-20 | every other input, the three-digit shorthand among them, and every input not of length 6 or 7, reads as black |
| Contrast.Digit | test-apps/styles-test-app/src/components/colors/ContrastChecker.tsx:16-18 | the digit written for a value in 0..15 is a hex digit that reads back as that value |
| Contrast.Pair | test-apps/styles-test-app/src/components/colors/ContrastChecker.tsx:16-18 | the two digits written for a component are hex digits that read back as it |
| Contrast.ToHex | test-apps/styles-test-app/src/components/colors/ContrastChecker.tsx:13 | `#rrggbb` is seven characters starting with '#' |
| Contrast.ParseToHex | test-apps/styles-test-app/src/components/colors/ContrastChecker.tsx:12-21 | every colour in range, written as `#rrggbb`, matches the pattern and parses back to itself |
| Contrast.LowerHexDigit | test-apps/styles-test-app/src/components/colors/ContrastChecker.tsx:13 | lower-casing a character keeps it a hex digit, or not one, with the same value |
| Contrast.UpperHexDigit | test-apps/styles-test-app/src/components/colors/ContrastChecker.tsx:13 | upper-casing a character keeps it a hex digit, or not one, with the same value |
| Contrast.CaseInsensitive | test-apps/styles-test-app/src/components/colors/ContrastChecker.tsx:13-18 | under the `i` flag, lower- or upper-casing the input changes no parse |
| Contrast.SameReading | test-apps/styles-test-app/src/components/colors/ContrastChecker.tsx:13-18 | two inputs whose characters read alike parse alike |
| Contrast.SameDigits | test-apps/styles-test-app/src/components/colors/ContrastChecker.tsx:13-18 | digits that read alike give the same components |
| Contrast.StartingColours | test-apps/styles-test-app/src/components/colors/ContrastChecker.tsx:62-63 | the starting colours "#000000" and "#FFFFFF" are black and white |
| Contrast.BrandGreen | test-apps/styles-test-app/src/components/colors/ContrastChecker.tsx:55 | the upper-case preset "#00B194" parses to (0, 177, 148) |
| Contrast.RatioProperties | test-apps/styles-test-app/src/components/colors/ContrastChecker.tsx:31-39 | the ratio is the same for either order of the colours, is at least 1, and is 1 exactly for equal luminances |
| Contrast.RoundedClose | test-apps/styles-test-app/src/components/colors/ContrastChecker.tsx:44 | the displayed ratio is within half a hundredth of the exact one |
| Contrast.Check | test-apps/styles-test-app/src/components/colors/ContrastChecker.tsx:41-50 | AA passes if and only if the ratio is at least 4.5, AAA at 7, AA large at 3, AAA large exactly when AA does; AAA implies AA implies AA large |
| Contrast.RoundedDisplayFailsAa | test-apps/styles-test-app/src/components/colors/ContrastChecker.tsx:44-45 | the flags are taken on the exact ratio: 4.499 displays as 4.5 and still fails AA |
| Contrast.CheckColoursSymmetric | test-apps/styles-test-app/src/components/colors/ContrastChecker.tsx:41-50 | swapping foreground and background changes no result |
| Contrast.BlackOnWhite | test-apps/styles-test-app/src/components/colors/ContrastChecker.tsx:31-50 | luminances 0 and 1 give the ratio 21, which passes all four levels |
| UserSlice.Initial | apps/billing-app/src/features/user/userSlice.ts:16-18 | nobody is signed in at first |
| UserSlice.ReduceEffect | apps/billing-app/src/features/user/userSlice.ts:23-30 | signing in stores exactly the payload, signing out clears the account, and neither depends on the state before |
| UserSlice.SignOutIdempotent | apps/billing-app/src/features/user/userSlice.ts:27-29 | signing out twice is signing out once |
| UserSlice.LastActionWins | apps/billing-app/src/features/user/userSlice.ts:23-30 | after a run of actions only the last one decides the state; with none the state is as it was |
| UserSlice.UserStore.constructor | apps/billing-app/src/features/user/userSlice.ts:16-22 | the store starts from `initialState` |
| UserSlice.UserStore.SignedIn | apps/billing-app/src/features/user/userSlice.ts:24-26 | the account becomes the payload, as one reducer step |
| UserSlice.UserStore.SignedOut | apps/billing-app/src/features/user/userSlice.ts:27-29 | the account becomes `null`, as one reducer step |
| UserSlice.UserStore.Dispatch | apps/billing-app/src/features/user/userSlice.ts:23-30 | dispatching an action changes the state by one reducer step |
| Text.Split | packages/msal-auth/src/msal/msalConfig.tsx:66 | `split` on one separator character gives at least one part, and no part holds the separator |
| Text.TrimEmptyIffBlank | apps/data-app/src/layouts/TopBar.tsx:21 | `trim()` gives "" exactly for a string made only of whitespace |
| Records.GetMerge | packages/tanstack/src/mock/CreateInMemoryCredService.ts:51 | in `{ ...item, ...payload }` a key reads from the payload when the payload has it, and from the item otherwise |
| Seqs.SortBy | apps/data-app/src/utils/publishingUtils.ts:217-221 | sorting by a numeric key gives a list sorted by the key that is a permutation of the input |

## Left out

- Rendering, styling, timers (`setInterval`, the catalog page's loading timeout), `localStorage` writes and file downloads are not modelled. Their handlers are modelled with the clock reading and generated ids as parameters.
- The render-time in-place sort of the snapshot state in `PublishingManager.tsx` (lines 282-287) is not modelled. It reorders the list, which can change tie-breaking in the active-snapshot choice and the `latestVersion` statistic.
- `getActiveSnapshot` and `updateSnapshotStatuses` each read the clock themselves. The model gives both the same `now`, so it does not capture a tick between the two readings.
- Instants are integer milliseconds. Invalid dates (NaN) are not modelled.
- Numbers are integers throughout. `Number()` of strings that are not decimal integers (hex, exponent, fractional and other non-decimal forms) gives `None`; surrounding whitespace is trimmed and leading zeros are accepted, as in JavaScript.
- `JSON.stringify` comparison and cloning are modelled as structural equality and copying of `Json` values, not as JSON text.
- Attributes.OccurrencesNonEmpty: proves the strings contributed are non-empty only for values with no array inside an array element. Such an element is not empty by the emptiness rule, yet its `String()` can be "" (`String([null])`).
- Floating-point work is not modelled:
  - the WCAG relative luminance of a colour is a parameter of `Contrast.CheckColours`;
  - the contrast ratio and its rounding are computed on exact reals;
  - the percentages of `getAttributeValueCounts` are left out, and only the counts are modelled.
- Contrast.CheckColours: requires the supplied luminance to be non-negative, which the source's formula always gives.
- The comparator of the catalog sort is proved antisymmetric only when both sort values are strings. JavaScript `<` between values of mixed types is modelled as `Json.LessThan` and not characterised further.
- Case mapping (`toUpperCase`/`toLowerCase`) covers ASCII letters only. `part[0]` and string order work on characters, not UTF-16 code units.
- Object keys that look like array indices are kept in insertion order. JavaScript lists such keys first, in ascending numeric order.
- `resolveEnvSource` is not modelled: reading `import.meta.env` and `process.env` is replaced by an explicit environment map. Environment values are strings, booleans or `undefined`.
- The `cache`, `system` and logger options of `buildMsalConfig` pass library settings to MSAL and are not modelled. Only the `auth` block is.
- The logger's `transport` option is never called by the source and is not modelled. `new Date().toISOString()` is the parameter `time`, and the console is an object recording calls.
- The TanStack hooks and the axios services that use the query keys are not modelled. `QueryKeys.IsPrefix` is an exact-element prefix test. TanStack matches object elements of a key partially, so `list({})` would reach `list({a: 1})` there and not here; the two agree for the keys the hooks invalidate with (`all`, `detail(id)`, `list(undefined)`). By `QueryKeys.ListCoversOnlyItself`, invalidating `list(undefined)` after an update or a delete does not reach list keys cached with filters.
- The `createId` generator of the CRUD service is the parameter `generated`.
- CrudStore.Store: `getById` returns, and `create` both stores and returns, the same object, so a caller that changes the result changes the stored entity; entities are values here and that aliasing is not modelled.
- `async`/`await` of the CRUD service is not modelled: its operations are sequential method calls, and a rejected promise is an `Err` result.
- Redux Toolkit's `createSlice` plumbing is not modelled. The reducers are modelled as methods of a store class, and as one `Reduce` step on values.
