# University catalog front end: a Dafny model

This project models the client-side logic of a university search and comparison web front end. It covers
five pages:

- **Universities page.** It filters the catalog by a search term, school types, a tuition range and an SAT
  range. It sorts the result by name, by SAT bounds, or with universities that have a logo first.
- **Compare page.** It keeps a list of at most four universities. The list is saved under the key
  `compare-universities` as a list of ids and restored from that key. The page shows one table row per
  field of the records.
- **University profile page.** It finds the record named by the route and translates its size, test
  requirements and programme names. Its button adds the record to the same saved comparison list.
- **Profile calculator.** It turns the GPA and SAT or ACT fields into a score out of 80.
- **Student profile page.** It edits lists of activities and recommendation letters. It saves the profile
  with the test scores gated by the test the student chose.

The modules follow the pages:

- `UniversitiesPage`, `ComparePage`, `UniversityProfilePage`, `ProfileCalculatorPage` and
  `StudentProfilePage` model one page each.
- `Catalog` holds the university record and the id lookup.
- `ComparisonStorage` holds the key-value store the two comparison pages share.
- `Components` holds the eight-flag application-components checklist.
- `Text` models the JavaScript string operations the pages use: ASCII `toLowerCase`, `includes`, `split` and
  `join`, `parseInt`, `parseFloat` and `localeCompare`.
- `Seqs` provides key lists (`map` to an id), filtering and subsequences.
- `StableSort` models a stable insertion sort, which is what `Array.prototype.sort` guarantees.

Page state that React keeps with `useState` is modelled in two ways:

- The comparison page and the profile page update a shared store, so each is a class. Its methods update
  the selection or the `isAdded` flag and write the store.
- The other pages compute their output from their state. Their handlers are functions from the old state
  to the new one.

In these pages `NaN` is `None` in an `Option`. `x || fallback` is written out as an explicit test for `None`
or zero.

## Model

| member | source | states |
|---|---|---|
| Catalog.IdsOf | src/pages/ComparePage.tsx:57 | the saved id list has one id per selected record, in order |
| Catalog.IdsOfAppend | src/pages/ComparePage.tsx:57 | the ids of a list grown by one record are the old ids followed by its id |
| Catalog.FindById | src/pages/UniversityProfilePage.tsx:51-53 | `find` by id yields nothing exactly when no record has the id; otherwise it yields a catalog record with that id |
| Catalog.FindByIdFirst | src/pages/ComparePage.tsx:47 | the record found is the first one in catalog order with the id |
| Catalog.FindByIdUnique | src/pages/UniversityProfilePage.tsx:52 | in a catalog with distinct ids, looking up a record's id yields that record |
| Catalog.DisplayName | src/pages/UniversitiesPage.tsx:57-58 | the name shown and sorted on: the Korean name in Korean, the English name otherwise |
| Catalog.MatchesSearch | src/pages/UniversitiesPage.tsx:37-39 | a record matches when the lower-cased term occurs in its lower-cased name, English name or location; the comparison page's modal applies the same test (ComparePage.tsx:65-72) |
| Catalog.EmptySearchMatchesAll | src/pages/UniversitiesPage.tsx:38-40 | an empty search term matches every record |
| Text.Lower | src/pages/UniversitiesPage.tsx:38 | lower-casing keeps the length and maps each character |
| Text.Contains | src/pages/UniversitiesPage.tsx:37-39 | `includes`: whether the needle occurs in the text; `ContainsIffOccurs` gives both directions |
| Text.ContainsIffOccurs | src/pages/UniversitiesPage.tsx:38-40 | `includes` holds exactly when the needle occurs at some position |
| Text.FirstCharAbsent | src/pages/UniversityProfilePage.tsx:67 | a needle whose first character is absent from a text is not contained in it |
| Text.Split | src/pages/UniversitiesPage.tsx:46 | `split` yields at least one part and no part contains the separator |
| Text.JoinSplit | src/pages/ComparePage.tsx:171 | joining the parts of a split with the separator gives back the string |
| Text.SplitAtFirst | src/pages/ComparePage.tsx:171 | splitting at the first separator yields the text before it and then the split of the rest |
| Text.SplitNoSep | src/pages/ComparePage.tsx:171 | a string without the separator splits into itself |
| Text.Join | src/pages/ComparePage.tsx:99 | `join`: the parts with the separator between consecutive parts; `JoinSplit` makes it the inverse of `split` |
| Text.TrimStart | src/pages/UniversitiesPage.tsx:46 | removes a prefix made only of white space, after which no white space starts the rest; white space is the ECMAScript set, non-ASCII spaces included |
| Text.DigitPrefix | src/pages/UniversitiesPage.tsx:46 | the longest prefix of decimal digits |
| Text.ParseInt | src/pages/UniversitiesPage.tsx:46 | `parseInt` is `NaN` exactly when no digit follows the white space and sign; a negative result needs a minus sign |
| Text.ParseFloat | src/pages/ProfileCalculatorPage.tsx:47 | `parseFloat` is `NaN` exactly when neither a whole nor a fractional digit follows the white space and sign |
| Text.DecimalValue | src/pages/ProfileCalculatorPage.tsx:47 | a decimal numeral's value lies between its whole part and the whole part plus one |
| Text.ParseFloatTruncatesToParseInt | src/pages/StudentProfilePage.tsx:130-133 | when `parseInt` reads a number, `parseFloat` reads one too, and truncating it gives the `parseInt` result |
| Text.ParseFloatOfNatToString | src/pages/ProfileCalculatorPage.tsx:47 | `parseFloat` reads back the decimal numeral of a natural number |
| Text.NatToString | src/pages/UniversitiesPage.tsx:45-48 | the decimal numeral of a number, as typed in a field or a range, is a non-empty run of digits |
| Text.DigitsValueOfNatToString | src/pages/StudentProfilePage.tsx:560-561 | the value of a number's numeral is the number |
| Text.DigitPrefixOfDigits | src/pages/UniversitiesPage.tsx:46 | the digit prefix of digits followed by a non-digit is those digits |
| Text.ParseIntOfNatToString | src/pages/UniversitiesPage.tsx:46 | `parseInt` reads back a number's numeral followed by any non-digit tail |
| Text.CompareText | src/pages/UniversitiesPage.tsx:60 | the comparison is zero exactly on equal strings and is one of -1, 0, 1 |
| Text.CompareTextAntisymmetric | src/pages/UniversitiesPage.tsx:64 | swapping the arguments negates the comparison, so the descending name order is the ascending order reversed |
| Text.CompareTextTransitive | src/pages/UniversitiesPage.tsx:60 | the name comparison is transitive |
| Seqs.KeysOf | src/pages/ComparePage.tsx:57 | `map` to a key field: one key per element, in order; the saved id list and the activity and letter id lists are instances |
| Seqs.Filter | src/pages/UniversitiesPage.tsx:37-52 | `filter` keeps, in order, exactly the elements that pass the test |
| Seqs.FilterSnoc | src/pages/ComparePage.tsx:46-48 | filtering a list grown by one element keeps that element at the end exactly when it passes |
| Seqs.FilterCounts | src/pages/UniversitiesPage.tsx:37-52 | `filter` keeps every copy of an element that passes and no copy of one that fails |
| Seqs.FilterAll | src/pages/ComparePage.tsx:91 | filtering with a test every element passes changes nothing |
| Seqs.FilterAppend | src/pages/UniversitiesPage.tsx:73-80 | filtering distributes over concatenation |
| Seqs.SubseqMembers | src/pages/ComparePage.tsx:61-63 | the members of a subsequence are members of the whole |
| Seqs.SubseqDistinctBy | src/pages/ComparePage.tsx:91 | a subsequence of a list with distinct keys has distinct keys |
| Seqs.SubseqLength | src/pages/ComparePage.tsx:91 | a subsequence is no longer than the whole |
| StableSort.Insert | src/pages/UniversitiesPage.tsx:55 | inserting adds exactly the one element |
| StableSort.Sort | src/pages/UniversitiesPage.tsx:55 | the sort is a permutation of its input |
| StableSort.SortedAppend | src/pages/UniversitiesPage.tsx:55 | appending an element no smaller than any other keeps a list sorted |
| StableSort.InsertSorted | src/pages/UniversitiesPage.tsx:55 | under a consistent comparator, insertion keeps a list sorted |
| StableSort.SortSorted | src/pages/UniversitiesPage.tsx:55 | under a consistent comparator, the result is sorted |
| StableSort.SortOfSorted | src/pages/UniversitiesPage.tsx:55 | sorting an already sorted list leaves it unchanged |
| StableSort.SortIdempotent | src/pages/UniversitiesPage.tsx:55 | sorting twice is sorting once |
| StableSort.InsertRest | src/pages/UniversitiesPage.tsx:77-80 | under a two-class comparator, an element of the second class goes to the end |
| StableSort.InsertAfterFirst | src/pages/UniversitiesPage.tsx:77-80 | under a two-class comparator, a first-class element goes after a run of first-class elements |
| StableSort.InsertFirst | src/pages/UniversitiesPage.tsx:77-80 | a first-class element goes between the first-class run and the second-class run |
| StableSort.SortIsStablePartition | src/pages/UniversitiesPage.tsx:73-80 | a two-class comparator sorts a list into its first class and then its second class, each in input order |
| StableSort.InsertKeepsTies | src/pages/UniversitiesPage.tsx:55 | inserting an element puts it after every element that ties with it, so each tie class keeps its order |
| StableSort.SortKeepsTies | src/pages/UniversitiesPage.tsx:55 | under a consistent comparator, the elements that tie with any given one appear in the sorted list in their input order (stability) |
| UniversitiesPage.SatBounds | src/pages/UniversitiesPage.tsx:46-48 | the bounds are never zero; each part read as a non-zero number is that bound; an unreadable or zero first part gives 800, and a missing, unreadable or zero second part gives 1600 |
| UniversitiesPage.SatBoundsOfTwoParts | src/pages/UniversitiesPage.tsx:46-48 | a range of two readable non-zero parts yields those two numbers |
| UniversitiesPage.SatBoundsRoundTrip | src/pages/UniversitiesPage.tsx:45-48 | the range written as `lo-hi` is read back as `(lo, hi)` |
| UniversitiesPage.NoDashInDigits | src/pages/UniversitiesPage.tsx:46 | a run of digits contains no dash |
| UniversitiesPage.SatBoundsWithoutDigits | src/pages/UniversitiesPage.tsx:47-48 | a range without digits falls back to 800-1600 |
| UniversitiesPage.NoDigitsInParts | src/pages/UniversitiesPage.tsx:46 | every part of a text without digits reads as `NaN` |
| UniversitiesPage.MatchesType | src/pages/UniversitiesPage.tsx:41 | the type test passes when no type is chosen or the record's type is among the chosen ones |
| UniversitiesPage.MatchesTuition | src/pages/UniversitiesPage.tsx:42 | the tuition test passes when the tuition lies within the slider range, both ends included |
| UniversitiesPage.MatchesSat | src/pages/UniversitiesPage.tsx:45-48 | the SAT test passes when the record's upper bound reaches the range's minimum and its lower bound does not pass the range's maximum; `SatTestIsOverlap` reads this as overlap |
| UniversitiesPage.Matches | src/pages/UniversitiesPage.tsx:36-51 | a record is kept when it passes the search, type, tuition and SAT tests together |
| UniversitiesPage.FilterUniversities | src/pages/UniversitiesPage.tsx:37-52 | the result is the subsequence of the catalog that matches the search term, types, tuition and SAT range, with every copy of a matching record and none of another |
| UniversitiesPage.UnconstrainedSearchAndType | src/pages/UniversitiesPage.tsx:38-42 | with no types and no search term, only the tuition and SAT tests decide |
| UniversitiesPage.SatTestIsOverlap | src/pages/UniversitiesPage.tsx:49 | the SAT test passes exactly when the university's range and the filter's range share a score |
| UniversitiesPage.SatOverlapExample | src/pages/UniversitiesPage.tsx:45-49 | a 1460-1570 range passes the filter 1500-1600 and fails 1580-1600 |
| UniversitiesPage.ResetFiltersKeep | src/pages/UniversitiesPage.tsx:343-348 | after a reset, a record is shown exactly when it matches the search term, its tuition is within 0-60000 and its SAT range meets 800-1600 |
| UniversitiesPage.ResetKeepsUnparsableSat | src/pages/UniversitiesPage.tsx:343-348 | after a reset, a record with an unreadable SAT range and a tuition in 0-60000 is shown |
| UniversitiesPage.ToggleType | src/pages/UniversitiesPage.tsx:84-91 | an absent type is appended; a present type is removed, and every other type stays |
| UniversitiesPage.RemoveType | src/pages/UniversitiesPage.tsx:88 | `filter(t => t !== type)`: every copy of the type is dropped and the other types keep their order |
| UniversitiesPage.ToggleTwice | src/pages/UniversitiesPage.tsx:84-91 | toggling a type twice restores the set of types, and the exact list when the type was absent |
| UniversitiesPage.SortUniversities | src/pages/UniversitiesPage.tsx:55-82 | the sorted list is a permutation of the filtered list |
| UniversitiesPage.HasLogo | src/pages/UniversitiesPage.tsx:75-76 | a record has a logo when its image address mentions `upload.wikimedia.org` or `logos-world.net` |
| UniversitiesPage.SatMin | src/pages/UniversitiesPage.tsx:66-67 | the ascending SAT key: `parseInt` of the part before the first dash, `NaN` when it has no digit |
| UniversitiesPage.SatMax | src/pages/UniversitiesPage.tsx:70-71 | the descending SAT key: `parseInt` of the part after the first dash, `NaN` when there is no such part or it has no digit |
| UniversitiesPage.Compare | src/pages/UniversitiesPage.tsx:55-82 | the comparator of each sort order: name order by display name, reversed for descending; SAT key difference; logo records before the others, 0 between records of one group |
| UniversitiesPage.Comparator | src/pages/UniversitiesPage.tsx:55 | the comparator the sort receives for an order and a language |
| UniversitiesPage.AlwaysConsistent | src/pages/UniversitiesPage.tsx:56-64 | the name and default comparators are consistent on any set of records |
| UniversitiesPage.SatConsistent | src/pages/UniversitiesPage.tsx:65-72 | the SAT comparators are consistent on records whose sort key is readable |
| UniversitiesPage.SortedAndIdempotent | src/pages/UniversitiesPage.tsx:55-82 | every sort order yields a sorted list, and sorting that list again changes nothing |
| UniversitiesPage.SortKeepsTies | src/pages/UniversitiesPage.tsx:55-82 | in every sort order (the SAT orders when the keys are readable), records that compare equal keep their filtered order |
| UniversitiesPage.DefaultSortIsStablePartition | src/pages/UniversitiesPage.tsx:73-80 | the default order puts the records with a logo first and keeps the input order within each group |
| UniversitiesPage.Visible | src/pages/UniversitiesPage.tsx:37-82 | the cards shown are exactly the matching records, each as often as in the filter result |
| ComparisonStorage.Storage.constructor | src/pages/ComparePage.tsx:31 | the store starts with the given entries |
| ComparisonStorage.Storage.Get | src/pages/ComparePage.tsx:42 | `getItem` yields the entry under the key, or nothing when the key is absent |
| ComparisonStorage.Storage.SetIds | src/pages/ComparePage.tsx:58 | `setItem` replaces the entry under the key with the id list and leaves every other key |
| ComparePage.CompareAdd | src/pages/ComparePage.tsx:74-88 | the limit is checked first, then duplicates; only a record that passes both is appended |
| ComparePage.CompareAddKeepsValid | src/pages/ComparePage.tsx:74-88 | adding keeps the selection at most four records with distinct ids |
| ComparePage.RemoveById | src/pages/ComparePage.tsx:90-92 | removal keeps, in order, exactly the records with another id, each as many times as it was selected |
| ComparePage.RemoveAbsent | src/pages/ComparePage.tsx:91 | removing an id that is not selected changes nothing |
| ComparePage.RemoveKeepsValid | src/pages/ComparePage.tsx:90-92 | removing keeps the selection valid |
| ComparePage.RemoveUndoesAdd | src/pages/ComparePage.tsx:74-92 | removing a record just added restores the selection |
| ComparePage.ActionsKeepValid | src/pages/ComparePage.tsx:74-92 | any sequence of adds and removes keeps the selection valid |
| ComparePage.Resolve | src/pages/ComparePage.tsx:46-48 | each stored id resolves to its catalog record or is dropped, and the result is no longer than the id list |
| ComparePage.KnownIn | src/pages/ComparePage.tsx:47-48 | the test a stored id passes to be kept: some catalog record has it |
| ComparePage.ResolveIds | src/pages/ComparePage.tsx:46-48 | the resolved ids are the stored ids the catalog knows, in stored order, with every repetition kept |
| ComparePage.ResolveKeepsOrder | src/pages/ComparePage.tsx:46-48 | resolved records keep the order of the stored ids |
| ComparePage.Loaded | src/pages/ComparePage.tsx:41-54 | a missing, empty or unreadable entry keeps the selection; otherwise the selection becomes catalog records, at most one per stored id |
| ComparePage.LoadAfterSave | src/pages/ComparePage.tsx:46-58 | resolving the saved ids of catalog records gives back the selection |
| ComparePage.LoadAfterSaveFromCatalog | src/pages/ComparePage.tsx:41-59 | with distinct catalog ids, loading what was saved restores the selection |
| ComparePage.LoadKeepsValid | src/pages/ComparePage.tsx:41-54 | a stored list of at most four distinct ids loads into a valid selection |
| ComparePage.Available | src/pages/ComparePage.tsx:61-63 | the offered records are the catalog records whose id is not selected, in catalog order and with all their copies |
| ComparePage.SearchResults | src/pages/ComparePage.tsx:65-72 | the search results are a subsequence of the available records: every copy of an unselected catalog record that matches the term, and nothing else |
| ComparePage.ShownResults | src/pages/ComparePage.tsx:332 | the modal shows the first fifty results |
| ComparePage.OfferedIsNotDuplicate | src/pages/ComparePage.tsx:332-335 | adding a record from the modal is never rejected as a duplicate |
| ComparePage.AddSlots | src/pages/ComparePage.tsx:211 | there is one add button per free place of the four |
| ComparePage.SlotsAndTable | src/pages/ComparePage.tsx:211-225 | the table shows exactly when at most two add buttons remain, and no add button remains exactly when adding reaches the limit |
| ComparePage.ShowsTable | src/pages/ComparePage.tsx:225 | the comparison table shows once at least two records are selected |
| ComparePage.DegreeLabels | src/pages/ComparePage.tsx:95-98 | one non-empty label per offered degree, bachelor's first and doctoral last |
| ComparePage.FormatDegreeTypes | src/pages/ComparePage.tsx:94-100 | the text joins the labels with `, ` and is `N/A` exactly when no degree is offered |
| ComparePage.JoinStartsWithFirst | src/pages/ComparePage.tsx:99 | a join starts with its first part |
| ComparePage.BachelorLabel | src/pages/ComparePage.tsx:96 | the bachelor's label in the page language |
| ComparePage.MasterLabel | src/pages/ComparePage.tsx:97 | the master's label in the page language |
| ComparePage.DoctoralLabel | src/pages/ComparePage.tsx:98 | the doctoral label in the page language |
| ComparePage.Truthy | src/pages/ComparePage.tsx:171 | JavaScript truthiness: `undefined`, `null`, `false`, 0 and the empty string are falsy, everything else truthy |
| ComparePage.Member | src/pages/ComparePage.tsx:171 | a property lookup yields the field, or `undefined` when it is absent |
| ComparePage.Step | src/pages/ComparePage.tsx:171 | one step of the reduction, `acc && acc[part]`: a falsy accumulator is kept, a truthy one is looked up |
| ComparePage.Walk | src/pages/ComparePage.tsx:171 | the `reduce` over the path parts, applying `Step` left to right |
| ComparePage.GetNestedValue | src/pages/ComparePage.tsx:170-172 | `getNestedValue`: split the path at dots and walk from the object; `SingleKeyPath` and `TwoKeyPath` state what it yields |
| ComparePage.FalsyStops | src/pages/ComparePage.tsx:171 | once the accumulator is falsy, the rest of the path leaves it unchanged |
| ComparePage.SingleKeyPath | src/pages/ComparePage.tsx:170-172 | a one-part path reads that field of the object |
| ComparePage.TwoKeyPath | src/pages/ComparePage.tsx:170-172 | a two-part path reads the inner field of the outer object, and stops at a missing or falsy outer field |
| ComparePage.RecordValueFields | src/pages/ComparePage.tsx:104-164 | the record as an object has every field the table reads, with the record's values |
| ComparePage.RecordValue | src/pages/ComparePage.tsx:104-164 | a record as the JavaScript object the table reads |
| ComparePage.ColumnValue | src/pages/ComparePage.tsx:104-164 | the value each table column shows for a record, read straight from the record's fields |
| ComparePage.AcademicInfoFields | src/pages/ComparePage.tsx:157-163 | the academic-info object has exactly the fields the record has |
| ComparePage.TableCellsReadTheirFields | src/pages/ComparePage.tsx:269-272 | each table cell, read by its dotted key, shows the record's own field |
| ComparePage.OutcomeCell | src/pages/ComparePage.tsx:157-163 | an `academicInfo.x` cell reads `x` of the academic info, or `undefined` without it |
| ComparePage.ComparisonPage.constructor | src/pages/ComparePage.tsx:35-37 | the page starts with no selection, an empty search term and the modal closed |
| ComparePage.ComparisonPage.LoadSaved | src/pages/ComparePage.tsx:41-54 | the mount effect sets the selection to the loaded list and changes nothing else |
| ComparePage.ComparisonPage.Mount | src/pages/ComparePage.tsx:41-59 | mounting loads the selection and the save effect then leaves the store holding the ids of that selection, so a later mount loads the same selection |
| ComparePage.ComparisonPage.Save | src/pages/ComparePage.tsx:56-59 | the save effect writes the selected ids under the comparison key |
| ComparePage.ComparisonPage.AddUniversity | src/pages/ComparePage.tsx:74-88 | the selection follows `CompareAdd`; a successful add closes the modal, clears the search and saves the ids |
| ComparePage.ComparisonPage.RemoveUniversity | src/pages/ComparePage.tsx:90-92 | the selection drops the id and the store is rewritten |
| ComparePage.ComparisonPage.OpenModal | src/pages/ComparePage.tsx:215 | an add button opens the modal and changes nothing else |
| ComparePage.ComparisonPage.CloseModal | src/pages/ComparePage.tsx:305-310 | the backdrop and the close button close the modal and change nothing else |
| ComparePage.ComparisonPage.SetSearchTerm | src/pages/ComparePage.tsx:36 | typing sets the search term and changes nothing else |
| UniversityProfilePage.RouteId | src/pages/UniversityProfilePage.tsx:142 | a missing or empty route id falls back to `1` |
| UniversityProfilePage.GetUniversityData | src/pages/UniversityProfilePage.tsx:51-53 | the page finds a record exactly when one has the route id |
| UniversityProfilePage.PageShowsItsRecord | src/pages/UniversityProfilePage.tsx:142 | the route of a record's id shows that record |
| UniversityProfilePage.TranslateSize | src/pages/UniversityProfilePage.tsx:55-63 | Korean keeps the size; English maps the three Korean bands and keeps anything else |
| UniversityProfilePage.TranslateSizeIdempotent | src/pages/UniversityProfilePage.tsx:55-63 | translating a translated size changes nothing |
| UniversityProfilePage.BadgeType | src/pages/UniversityProfilePage.tsx:65-70 | required exactly when the status mentions `Required`; optional exactly when it does not but mentions `Not required` or `considered if submitted` |
| UniversityProfilePage.SaysRequired | src/pages/UniversityProfilePage.tsx:67 | a status is required when it contains `Required` |
| UniversityProfilePage.SaysOptional | src/pages/UniversityProfilePage.tsx:68 | a status is optional when it contains `Not required` or `considered if submitted` |
| UniversityProfilePage.TranslateRequirementStatus | src/pages/UniversityProfilePage.tsx:72-86 | the label agrees with the badge; a missing status is not considered; an unknown status is shown as it is |
| UniversityProfilePage.LabelMatchesBadge | src/pages/UniversityProfilePage.tsx:65-86 | each fixed label appears exactly for its badge, except a raw status that equals that label |
| UniversityProfilePage.BadgeExamples | src/pages/UniversityProfilePage.tsx:65-70 | `Required` is required, `Not required` is optional and an empty status is not considered |
| UniversityProfilePage.NotRequiredLacksCapital | src/pages/UniversityProfilePage.tsx:67-68 | `Not required` does not contain `Required`, so the test order does not misclassify it |
| UniversityProfilePage.TranslateProgramName | src/pages/UniversityProfilePage.tsx:89-134 | English keeps the name; Korean uses the table entry when there is one and keeps the name otherwise |
| UniversityProfilePage.ProgramNamesNonEmpty | src/pages/UniversityProfilePage.tsx:92-131 | every translation in the table is non-empty, so falling back to the English name happens only for names absent from the table |
| UniversityProfilePage.DisplayedPrograms | src/pages/UniversityProfilePage.tsx:434-435 | the majors list is the programmes without `Grand total`, in order, each as many times as listed |
| UniversityProfilePage.ShowsMajors | src/pages/UniversityProfilePage.tsx:430 | the majors section shows when some programme remains after dropping `Grand total` |
| UniversityProfilePage.ShowsMajorsIff | src/pages/UniversityProfilePage.tsx:430 | the majors section shows exactly when some programme is not `Grand total` |
| UniversityProfilePage.ShownMajors | src/pages/UniversityProfilePage.tsx:434-438 | each shown major is the translation of the displayed programme at its position |
| UniversityProfilePage.StoredIds | src/pages/UniversityProfilePage.tsx:461-462 | a missing or empty entry reads as no ids; only an unreadable entry fails |
| UniversityProfilePage.CheckAdded | src/pages/UniversityProfilePage.tsx:146-155 | the flag says whether the stored list holds the id; a parse failure keeps the old flag |
| UniversityProfilePage.ProfileAdd | src/pages/UniversityProfilePage.tsx:464-474 | the duplicate test comes first, then the limit of four; only an id that passes both is appended |
| UniversityProfilePage.ProfileAddKeepsValid | src/pages/UniversityProfilePage.tsx:464-474 | the stored list stays at most four distinct ids |
| UniversityProfilePage.AddButtonsAgree | src/pages/UniversityProfilePage.tsx:464-475 | this button and the comparison page's add yield the same id list; they differ in outcome only for a record already on a full list |
| UniversityProfilePage.AddedHereShowsThere | src/pages/UniversityProfilePage.tsx:474-475 | a record added here is loaded by the comparison page |
| UniversityProfilePage.ProfilePage.constructor | src/pages/UniversityProfilePage.tsx:142-143 | the page shows the route's record and starts not added |
| UniversityProfilePage.ProfilePage.RefreshAdded | src/pages/UniversityProfilePage.tsx:146-155 | the effect sets the flag from the store, and does nothing without a record or on a parse failure |
| UniversityProfilePage.ProfilePage.AddToComparison | src/pages/UniversityProfilePage.tsx:459-495 | the click, possible only while the button is not disabled as added, follows `ProfileAdd`; only a successful add writes the store and sets the flag; a parse failure changes nothing |
| Components.Set | src/pages/StudentProfilePage.tsx:83-85 | setting a checklist flag changes that flag only |
| Components.Extensionality | src/pages/ProfileCalculatorPage.tsx:24-33 | two checklists with the same eight flags are equal |
| Components.SetSameValue | src/pages/StudentProfilePage.tsx:83-85 | setting a flag to its current value changes nothing |
| Components.Toggle | src/pages/ProfileCalculatorPage.tsx:131-134 | toggling flips one flag and keeps the others |
| Components.SetTwice | src/pages/StudentProfilePage.tsx:83-85 | the second of two sets of the same flag wins |
| Components.ToggleTwice | src/pages/ProfileCalculatorPage.tsx:131-134 | toggling a flag twice restores the checklist |
| ProfileCalculatorPage.Round | src/pages/ProfileCalculatorPage.tsx:57 | `Math.round` yields the integer n with x in [n - 1/2, n + 1/2), so halves round up |
| ProfileCalculatorPage.RoundMonotone | src/pages/ProfileCalculatorPage.tsx:57 | rounding is monotone |
| ProfileCalculatorPage.Plus | src/pages/ProfileCalculatorPage.tsx:47-54 | a sum is `NaN` exactly when an operand is |
| ProfileCalculatorPage.Read | src/pages/ProfileCalculatorPage.tsx:47-54 | the GPA reads as `NaN` exactly when it has no digit, and likewise the ACT score |
| ProfileCalculatorPage.RoundNumber | src/pages/ProfileCalculatorPage.tsx:57 | rounding keeps `NaN` and otherwise rounds to the nearest integer |
| ProfileCalculatorPage.GpaPoints | src/pages/ProfileCalculatorPage.tsx:46-48 | the GPA term: 0 for an empty field, GPA / 4 * 40 for a readable one, `NaN` otherwise |
| ProfileCalculatorPage.TestPoints | src/pages/ProfileCalculatorPage.tsx:50-55 | the test term: the SAT sum / 1600 * 40 when SAT is chosen and both sections are filled, ACT / 36 * 40 when ACT is chosen and filled, 0 otherwise, `NaN` when a used field has no digit |
| ProfileCalculatorPage.ScoreOf | src/pages/ProfileCalculatorPage.tsx:44-57 | the score of given readings: the two terms added and rounded |
| ProfileCalculatorPage.Score | src/pages/ProfileCalculatorPage.tsx:43-58 | the score of the form: its fields read and then scored; `CalculateScore` equals it |
| ProfileCalculatorPage.CalculateScore | src/pages/ProfileCalculatorPage.tsx:43-58 | the running sum over GPA and the chosen test equals the score formula |
| ProfileCalculatorPage.EmptyFormScoresZero | src/pages/ProfileCalculatorPage.tsx:44-57 | with no GPA and no test the score is 0 |
| ProfileCalculatorPage.ScoreBounds | src/pages/ProfileCalculatorPage.tsx:188-198 | inputs within the form's declared ranges score between 0 and 80 |
| ProfileCalculatorPage.PerfectScore | src/pages/ProfileCalculatorPage.tsx:46-57 | a 4.0 GPA with 800 and 800 on the SAT scores 80 |
| ProfileCalculatorPage.PerfectScoreExample | src/pages/ProfileCalculatorPage.tsx:43-58 | the form `4`, SAT, `800`, `800` scores 80 |
| ProfileCalculatorPage.ScoreMonotone | src/pages/ProfileCalculatorPage.tsx:43-58 | more GPA points and more test points never lower the score |
| ProfileCalculatorPage.ScoreMonotoneInGpa | src/pages/ProfileCalculatorPage.tsx:46-48 | a higher GPA never lowers the score |
| ProfileCalculatorPage.ScoreMonotoneInSat | src/pages/ProfileCalculatorPage.tsx:50-52 | higher SAT section scores never lower the score |
| ProfileCalculatorPage.ScoreMonotoneInAct | src/pages/ProfileCalculatorPage.tsx:53-54 | a higher ACT score never lowers the score |
| ProfileCalculatorPage.OnlyChosenTestCounts | src/pages/ProfileCalculatorPage.tsx:50-55 | the fields of the test not chosen never affect the score |
| ProfileCalculatorPage.ReadFieldwise | src/pages/ProfileCalculatorPage.tsx:47-54 | each field is read on its own |
| ProfileCalculatorPage.ActFieldIgnoredUnderSat | src/pages/ProfileCalculatorPage.tsx:50-55 | with SAT chosen, the ACT field never changes the score |
| ProfileCalculatorPage.SatFieldsIgnoredUnderAct | src/pages/ProfileCalculatorPage.tsx:50-55 | with ACT chosen, the SAT fields never change the score |
| StudentProfilePage.ActivityId | src/pages/StudentProfilePage.tsx:102 | the key an activity is updated and removed by |
| StudentProfilePage.AddExtracurricular | src/pages/StudentProfilePage.tsx:88-99 | a new activity with the default values is appended after the existing ones |
| StudentProfilePage.EditActivity | src/pages/StudentProfilePage.tsx:102 | an edit sets one field and keeps the id and every other field |
| StudentProfilePage.ActivityExtensionality | src/pages/StudentProfilePage.tsx:102 | activities with the same id and fields are equal |
| StudentProfilePage.EditTwice | src/pages/StudentProfilePage.tsx:101-103 | the second of two edits of the same field wins |
| StudentProfilePage.UpdateExtracurricular | src/pages/StudentProfilePage.tsx:101-103 | the list keeps its length and ids; entries with the id have the field set and the others kept; other entries are unchanged |
| StudentProfilePage.UpdateAbsentActivity | src/pages/StudentProfilePage.tsx:101-103 | updating an absent id changes nothing |
| StudentProfilePage.RemoveExtracurricular | src/pages/StudentProfilePage.tsx:105-107 | removal keeps, in order, exactly the activities with another id, each as many times as listed |
| StudentProfilePage.RemoveAbsentActivity | src/pages/StudentProfilePage.tsx:105-107 | removing an absent id changes nothing |
| StudentProfilePage.RemoveUndoesAddActivity | src/pages/StudentProfilePage.tsx:88-107 | removing an activity just added with a fresh id restores the list |
| StudentProfilePage.RemoveAfterUpdateActivity | src/pages/StudentProfilePage.tsx:101-107 | removing an id makes any earlier update of it invisible |
| StudentProfilePage.GradesAfterChange | src/pages/StudentProfilePage.tsx:524-528 | checking appends the grade; unchecking removes it and keeps the other grades |
| StudentProfilePage.CurrentGrades | src/pages/StudentProfilePage.tsx:525 | the activity's grades, or an empty list when the field is absent |
| StudentProfilePage.GradeChecked | src/pages/StudentProfilePage.tsx:523 | a grade's box is checked when the activity's grades include it |
| StudentProfilePage.ChangeGrade | src/pages/StudentProfilePage.tsx:524-529 | a checkbox change updates the activity's grades through `updateExtracurricular` |
| StudentProfilePage.CheckboxShowsChange | src/pages/StudentProfilePage.tsx:523-529 | after a change, the box shows the new checked state |
| StudentProfilePage.UncheckUndoesCheck | src/pages/StudentProfilePage.tsx:524-529 | unchecking a grade just checked restores the grades |
| StudentProfilePage.IntOrZero | src/pages/StudentProfilePage.tsx:560-561 | an integer field reads as 0 when `parseInt` gives `NaN`, and as the parsed number otherwise |
| StudentProfilePage.IntOrZeroOfNumber | src/pages/StudentProfilePage.tsx:560-561 | a typed number is stored as that number |
| StudentProfilePage.LetterId | src/pages/StudentProfilePage.tsx:121 | the key a letter is updated and removed by |
| StudentProfilePage.AddRecommendationLetter | src/pages/StudentProfilePage.tsx:110-118 | a new letter with the default values is appended |
| StudentProfilePage.EditLetter | src/pages/StudentProfilePage.tsx:121 | an edit sets one field and keeps the id and the other fields |
| StudentProfilePage.UpdateRecommendationLetter | src/pages/StudentProfilePage.tsx:120-122 | the list keeps its length and ids; letters with the id have the field set; other letters are unchanged |
| StudentProfilePage.RemoveRecommendationLetter | src/pages/StudentProfilePage.tsx:124-126 | removal keeps exactly the letters with another id, in order, each as many times as listed |
| StudentProfilePage.RemoveUndoesAddLetter | src/pages/StudentProfilePage.tsx:110-126 | removing a letter just added with a fresh id restores the list |
| StudentProfilePage.FloatOrZero | src/pages/StudentProfilePage.tsx:130 | the GPA field reads as 0 when `parseFloat` gives `NaN`, and as the parsed number otherwise |
| StudentProfilePage.GatedInt | src/pages/StudentProfilePage.tsx:131-139 | a score is read only when its test is the one chosen, and is 0 otherwise |
| StudentProfilePage.SavedNumbers | src/pages/StudentProfilePage.tsx:130-139 | the saved GPA and scores, each gated by the chosen test; AP and IB are 0 |
| StudentProfilePage.SaveProfile | src/pages/StudentProfilePage.tsx:128-154 | the saved profile carries the gated numbers and the form's other fields, lists and checklist unchanged |
| StudentProfilePage.ScoreInput | src/pages/StudentProfilePage.tsx:156-170 | the live score input carries the form's non-academic fields and lists |
| StudentProfilePage.ScoreInputMatchesSave | src/pages/StudentProfilePage.tsx:128-170 | the live score uses exactly the numbers a save would store |
| StudentProfilePage.AtMostOneTestSaved | src/pages/StudentProfilePage.tsx:131-133 | at most one of the SAT and ACT scores is saved as non-zero |
| StudentProfilePage.SavedSatOfNumber | src/pages/StudentProfilePage.tsx:132 | a typed SAT math score is saved as that number when SAT is chosen |

## Left out

- Rendering, routing and dialogs are not modelled. This covers JSX, `alert`, `confirm`, `navigate` and the
  toast messages with their `{name}` substitution. Only the state changes around them are.
- The pagination described for the catalog has no counterpart in the page code modelled here, so it is not
  modelled. `src/pages/HousingPage.tsx` is not part of this model.
- JSON encoding in `localStorage` is not modelled. An entry is a list of ids, an empty string or an
  unreadable value; elements of a stored array that are not strings are not represented.
- `toLowerCase` is modelled on ASCII letters only, and `localeCompare` as code-point order. The
  locale-aware collation and Unicode case mapping are not modelled.
- `parseInt` models decimal digits after white space and a sign. The `0x` prefix and radix handling are not
  modelled. `parseFloat` does not model exponents or `Infinity`. `trim` before `parseInt` is not modelled
  separately, because `parseInt` already skips leading white space and ignores trailing text.
- `Math.round` is modelled on finite numbers. Rounding of `NaN` is carried as `None`.
- `ProfileCalculatorPage.CalculateScore`: the score is computed on exact rationals, not IEEE-754 doubles. The
  page's double sums can land just below a half where the exact sum is a half, so the page can round down
  where the model rounds up: a GPA of `3.26` with SAT sections `558` and `558` sums to 60.5 exactly, while the
  double sum is 60.49999999999999, which `Math.round` turns into 60 and not 61.
- Number formatting on screen is not modelled: `toLocaleString`, `toFixed`, percentages and the
  `toString` of saved numbers that fills the student form.
- The identifiers from `Date.now().toString()` are parameters of the add operations. The clock is not
  modelled.
- `calculateProfileScore` and `updateProfile` come from a profile context that is not part of this model. The
  model produces their argument and stops there.
- `handleAcademicChange` and `handleNonAcademicChange` set one form field by name. The model takes the form
  records as they are at save time.
- The legacy `leadership`, `volunteering` and `awards` fields, always saved as empty lists, are not
  represented in the saved profile.
- On mount the comparison page's save effect first runs with the empty first-render selection and writes an
  empty list; when the load has set a selection it runs again and writes that selection's ids. `Mount`
  states the store after both runs; the intermediate empty list is overwritten and not stated separately.
- `getNestedValue` is modelled on record objects. Property lookup on strings, numbers and arrays is not:
  `Member` gives `undefined` for every key of an array, where JavaScript gives an element for `'0'` and the
  length for `length`. The table's paths never name an array element.
- The programme-name table is a plain map. Object prototype keys such as `constructor` would make the
  JavaScript lookup return a function; this is not modelled.
- `StudentProfilePage.UpdateExtracurricular`: the edit can set any field except `id`. The page's handler
  could also change the id through the same handler, but the page never does so.
- `UniversitiesPage.SortedAndIdempotent`: sortedness is proved for the SAT orders only when every sort key
  is readable. A `NaN` key makes the comparator inconsistent, and the order it produces depends on the
  engine's sort algorithm.
- `ProfileCalculatorPage.ScoreBounds`: the bounds, the monotonicity lemmas and `PerfectScore` are stated
  over the numbers read from the form. `Read` ties them to the text fields.
- `UniversitiesPage.ToggleType`: it is not proved that toggles of two different types commute.
- The seal image, the application-requirements panel and the other purely presentational parts of the
  profile page are not modelled.
