/**
 * The side-by-side comparison page: a list of at most four distinct universities, persisted as an array of
 * ids under one storage key, a search modal listing the universities not yet selected, and a table whose
 * cells are read from each record by dotted paths.
 */
module ComparePage {
  import opened Wrappers
  import opened Text
  import opened Seqs
  import opened Catalog
  import opened ComparisonStorage

  /** The most universities the page compares at once. */
  const MaxCompared: nat := 4

  /** How many search results the modal renders. */
  const ShownLimit: nat := 50

  /** The invariant the page's own operations keep: at most four entries, no id twice. */
  ghost predicate ValidSelection(sel: seq<University>) {
    |sel| <= MaxCompared && DistinctIds(sel)
  }

  // ---------------------------------------------------------------------------------------------
  // Adding and removing

  datatype AddOutcome = Added | LimitReached | AlreadyAdded

  /**
   * `addUniversity`: the size limit is tested before the duplicate test, and only a university that passes
   * both is appended.
   */
  function CompareAdd(sel: seq<University>, u: University): (r: (AddOutcome, seq<University>))
    ensures r.0 == LimitReached <==> |sel| >= MaxCompared
    ensures r.0 == AlreadyAdded <==> |sel| < MaxCompared && u.id in IdsOf(sel)
    ensures r.0 == Added ==> r.1 == sel + [u]
    ensures r.0 != Added ==> r.1 == sel
  {
    if |sel| >= MaxCompared then (LimitReached, sel)
    else if u.id in IdsOf(sel) then (AlreadyAdded, sel)
    else (Added, sel + [u])
  }

  /** Adding keeps the selection valid. */
  lemma CompareAddKeepsValid(sel: seq<University>, u: University)
    requires ValidSelection(sel)
    ensures ValidSelection(CompareAdd(sel, u).1)
  {
    var r := CompareAdd(sel, u).1;
    if CompareAdd(sel, u).0 == Added {
      forall i, j | 0 <= i < j < |r| ensures r[i].id != r[j].id {
        if j == |sel| {
          assert IdsOf(sel)[i] == sel[i].id;
        }
      }
    }
  }

  /** `prev.filter(uni => uni.id !== universityId)`. */
  function RemoveById(sel: seq<University>, id: string): (r: seq<University>)
    ensures IsSubseq(r, sel)
    ensures id !in IdsOf(r)
    ensures forall u :: u in sel ==> (u in r <==> u.id != id)
    ensures forall u :: u in sel ==> multiset(r)[u] == if u.id != id then multiset(sel)[u] else 0
  {
    var keep := (u: University) => u.id != id;
    var r := Filter(sel, keep);
    assert forall i :: 0 <= i < |r| ==> r[i] in r;
    FilterCounts(sel, keep);
    r
  }

  /** Removing an id that is not selected changes nothing. */
  lemma RemoveAbsent(sel: seq<University>, id: string)
    requires id !in IdsOf(sel)
    ensures RemoveById(sel, id) == sel
  {
    assert forall u :: u in sel ==> u.id != id by {
      forall u | u in sel ensures u.id != id {
        var k :| 0 <= k < |sel| && sel[k] == u;
        assert IdsOf(sel)[k] == u.id;
      }
    }
    FilterAll(sel, (u: University) => u.id != id);
  }

  /** Removing keeps the selection valid. */
  lemma RemoveKeepsValid(sel: seq<University>, id: string)
    requires ValidSelection(sel)
    ensures ValidSelection(RemoveById(sel, id))
  {
    var r := RemoveById(sel, id);
    SubseqLength(r, sel);
    SubseqDistinctBy(r, sel, IdOf);
  }

  /** Adding a university and then removing its id gives back the selection it was added to. */
  lemma RemoveUndoesAdd(sel: seq<University>, u: University)
    requires CompareAdd(sel, u).0 == Added
    ensures RemoveById(CompareAdd(sel, u).1, u.id) == sel
  {
    RemoveAbsent(sel, u.id);
    FilterAppend(sel, [u], (v: University) => v.id != u.id);
  }

  /** The user actions that change the selection. */
  datatype Action = Add(u: University) | Remove(id: string)

  function Apply(sel: seq<University>, a: Action): seq<University> {
    match a
    case Add(u) => CompareAdd(sel, u).1
    case Remove(id) => RemoveById(sel, id)
  }

  function ApplyAll(sel: seq<University>, actions: seq<Action>): seq<University>
    decreases |actions|
  {
    if actions == [] then sel else ApplyAll(Apply(sel, actions[0]), actions[1..])
  }

  /** Whatever the user does, starting from a valid selection, the selection stays valid. */
  lemma {:induction false} ActionsKeepValid(sel: seq<University>, actions: seq<Action>)
    requires ValidSelection(sel)
    ensures ValidSelection(ApplyAll(sel, actions))
    decreases |actions|
  {
    if actions != [] {
      match actions[0] {
        case Add(u) => CompareAddKeepsValid(sel, u);
        case Remove(id) => RemoveKeepsValid(sel, id);
      }
      ActionsKeepValid(Apply(sel, actions[0]), actions[1..]);
    }
  }

  // ---------------------------------------------------------------------------------------------
  // Loading from and saving to storage

  /**
   * `savedIds.map(id => find(id)).filter(u => u !== undefined)`: the catalog record for each stored id that
   * the catalog knows, in stored order; unknown ids are dropped.
   */
  function Resolve(ids: seq<string>, catalog: seq<University>): (r: seq<University>)
    ensures |r| <= |ids|
    ensures forall u :: u in r ==> FindById(catalog, u.id) == Some(u)
    ensures forall id :: id in ids ==> (id in IdsOf(r) <==> id in IdsOf(catalog))
    decreases |ids|
  {
    if ids == [] then []
    else
      var init := Resolve(ids[..|ids| - 1], catalog);
      var last := ids[|ids| - 1];
      assert ids == ids[..|ids| - 1] + [last];
      match FindById(catalog, last)
      case None => init
      case Some(u) =>
        IdsOfAppend(init, u);
        init + [u]
  }

  /** The test the load applies to a stored id: whether some catalog record has it. */
  function KnownIn(catalog: seq<University>): string -> bool {
    id => id in IdsOf(catalog)
  }

  /**
   * The resolved ids are exactly the stored ids the catalog knows, in stored order and with every
   * repetition kept: a known id stored twice loads its record twice.
   */
  lemma {:induction false} ResolveIds(ids: seq<string>, catalog: seq<University>)
    ensures IdsOf(Resolve(ids, catalog)) == Filter(ids, KnownIn(catalog))
    decreases |ids|
  {
    if ids != [] {
      var init := Resolve(ids[..|ids| - 1], catalog);
      var last := ids[|ids| - 1];
      assert ids == ids[..|ids| - 1] + [last];
      ResolveIds(ids[..|ids| - 1], catalog);
      FilterSnoc(ids[..|ids| - 1], last, KnownIn(catalog));
      match FindById(catalog, last)
      case None =>
      case Some(u) =>
        IdsOfAppend(init, u);
    }
  }

  /** The resolved ids keep the stored order: they are the stored ids with the unknown ones deleted. */
  lemma {:induction false} ResolveKeepsOrder(ids: seq<string>, catalog: seq<University>)
    ensures IsSubseq(IdsOf(Resolve(ids, catalog)), ids)
    decreases |ids|
  {
    if ids != [] {
      var init := Resolve(ids[..|ids| - 1], catalog);
      var got := IdsOf(init);
      ResolveKeepsOrder(ids[..|ids| - 1], catalog);
      assert ids == ids[..|ids| - 1] + [ids[|ids| - 1]];
      match FindById(catalog, ids[|ids| - 1])
      case None =>
        SubseqExtend(got, ids[..|ids| - 1], ids[|ids| - 1]);
      case Some(u) =>
        IdsOfAppend(init, u);
        SubseqSnoc(got, ids[..|ids| - 1], u.id);
    }
  }

  /**
   * The selection after the load effect: it is replaced only when the stored text is truthy and parses;
   * a missing or empty entry and a parse failure leave it as it was.
   */
  function Loaded(stored: Option<Entry>, catalog: seq<University>, current: seq<University>): (r: seq<University>)
    ensures (stored.None? || !stored.value.Ids?) ==> r == current
    ensures stored.Some? && stored.value.Ids? ==> r == Resolve(stored.value.ids, catalog)
    ensures stored.Some? && stored.value.Ids? ==> |r| <= |stored.value.ids|
    ensures stored.Some? && stored.value.Ids? ==> forall u :: u in r ==> u in catalog
  {
    match stored
    case Some(Ids(ids)) => Resolve(ids, catalog)
    case _ => current
  }

  /** Loading what was saved gives back the selection, when the catalog still holds every selected record. */
  lemma {:induction false} LoadAfterSave(sel: seq<University>, catalog: seq<University>)
    requires forall u :: u in sel ==> FindById(catalog, u.id) == Some(u)
    ensures Resolve(IdsOf(sel), catalog) == sel
    decreases |sel|
  {
    if sel != [] {
      var init := sel[..|sel| - 1];
      assert sel == init + [sel[|sel| - 1]];
      IdsOfAppend(init, sel[|sel| - 1]);
      assert IdsOf(sel)[..|sel| - 1] == IdsOf(init);
      LoadAfterSave(init, catalog);
    }
  }

  /** With distinct catalog ids, any selection drawn from the catalog survives a save and a load. */
  lemma LoadAfterSaveFromCatalog(sel: seq<University>, catalog: seq<University>)
    requires DistinctIds(catalog)
    requires forall u :: u in sel ==> u in catalog
    ensures Loaded(Some(Ids(IdsOf(sel))), catalog, []) == sel
  {
    forall u | u in sel ensures FindById(catalog, u.id) == Some(u) {
      FindByIdUnique(catalog, u);
    }
    LoadAfterSave(sel, catalog);
  }

  /** A stored list of at most four distinct ids loads into a valid selection. */
  lemma LoadKeepsValid(ids: seq<string>, catalog: seq<University>)
    requires |ids| <= MaxCompared && Distinct(ids)
    ensures ValidSelection(Resolve(ids, catalog))
  {
    var r := Resolve(ids, catalog);
    ResolveKeepsOrder(ids, catalog);
    SubseqDistinctBy(IdsOf(r), ids, Identity);
    forall i, j | 0 <= i < j < |r| ensures r[i].id != r[j].id {
      assert Identity(IdsOf(r)[i]) != Identity(IdsOf(r)[j]);
    }
  }

  // ---------------------------------------------------------------------------------------------
  // The search modal and the layout

  /** `availableUniversities`: the catalog records whose id is not selected, in catalog order. */
  function Available(catalog: seq<University>, sel: seq<University>): (r: seq<University>)
    ensures IsSubseq(r, catalog)
    ensures forall u :: u in catalog ==> (u in r <==> u.id !in IdsOf(sel))
    ensures forall u :: u in catalog ==> multiset(r)[u] == if u.id !in IdsOf(sel) then multiset(catalog)[u] else 0
  {
    var keep := (u: University) => u.id !in IdsOf(sel);
    FilterCounts(catalog, keep);
    Filter(catalog, keep)
  }

  /** `filteredUniversities`: the available records that match the search term. */
  function SearchResults(catalog: seq<University>, sel: seq<University>, term: string): (r: seq<University>)
    ensures IsSubseq(r, Available(catalog, sel))
    ensures forall u :: u in r <==> u in catalog && u.id !in IdsOf(sel) && MatchesSearch(u, term)
    ensures forall u :: u in catalog ==>
      multiset(r)[u] == if u.id !in IdsOf(sel) && MatchesSearch(u, term) then multiset(catalog)[u] else 0
  {
    var available := Available(catalog, sel);
    var keep := (u: University) => MatchesSearch(u, term);
    var r := Filter(available, keep);
    FilterCounts(available, keep);
    assert forall u :: u in catalog && u !in available ==> multiset(available)[u] == 0;
    r
  }

  /** `filteredUniversities.slice(0, 50)`: the first fifty results, in order. */
  function ShownResults(catalog: seq<University>, sel: seq<University>, term: string): (r: seq<University>)
    ensures |r| == if |SearchResults(catalog, sel, term)| < ShownLimit then |SearchResults(catalog, sel, term)| else ShownLimit
    ensures r == SearchResults(catalog, sel, term)[..|r|]
  {
    var all := SearchResults(catalog, sel, term);
    if |all| < ShownLimit then all else all[..ShownLimit]
  }

  /** A university offered by the modal is never rejected as already added. */
  lemma OfferedIsNotDuplicate(catalog: seq<University>, sel: seq<University>, term: string, u: University)
    requires u in ShownResults(catalog, sel, term)
    ensures CompareAdd(sel, u).0 != AlreadyAdded
  {
    var all := SearchResults(catalog, sel, term);
    var r := ShownResults(catalog, sel, term);
    var k :| 0 <= k < |r| && r[k] == u;
    assert all[k] == u;
  }

  /** `Array.from({ length: 4 - selected.length })`: the empty add-slots, never a negative count. */
  function AddSlots(sel: seq<University>): (n: nat)
    ensures |sel| <= MaxCompared ==> n + |sel| == MaxCompared
    ensures |sel| >= MaxCompared ==> n == 0
  {
    if |sel| >= MaxCompared then 0 else MaxCompared - |sel|
  }

  /** The comparison table needs two universities; below that the page shows its empty state instead. */
  predicate ShowsTable(sel: seq<University>) {
    |sel| >= 2
  }

  /** With a valid selection, the slots and the table never both offer fewer than two: one view is always useful. */
  lemma SlotsAndTable(sel: seq<University>, u: University)
    requires ValidSelection(sel)
    ensures AddSlots(sel) == MaxCompared - |sel|
    ensures ShowsTable(sel) <==> AddSlots(sel) <= 2
    ensures AddSlots(sel) == 0 <==> CompareAdd(sel, u).0 == LimitReached
  {
  }

  // ---------------------------------------------------------------------------------------------
  // Degree types cell

  function BachelorLabel(lang: Lang): string {
    if lang == Ko then "학사" else "Bachelor's"
  }

  function MasterLabel(lang: Lang): string {
    if lang == Ko then "석사" else "Master's"
  }

  function DoctoralLabel(lang: Lang): string {
    if lang == Ko then "박사" else "Doctoral"
  }

  /** The labels of the degree levels a university offers, bachelor's first and doctoral last. */
  function DegreeLabels(dt: DegreeTypes, lang: Lang): (labels: seq<string>)
    ensures |labels| == (if dt.bachelors then 1 else 0) + (if dt.masters then 1 else 0) + (if dt.doctoral then 1 else 0)
    ensures dt.bachelors ==> labels[0] == BachelorLabel(lang)
    ensures dt.doctoral ==> labels[|labels| - 1] == DoctoralLabel(lang)
    ensures forall i :: 0 <= i < |labels| ==> labels[i] != []
  {
    (if dt.bachelors then [BachelorLabel(lang)] else [])
      + (if dt.masters then [MasterLabel(lang)] else [])
      + (if dt.doctoral then [DoctoralLabel(lang)] else [])
  }

  /** `formatDegreeTypes`: collects the labels one by one, joins them with ", ", and falls back to "N/A". */
  method FormatDegreeTypes(dt: DegreeTypes, lang: Lang) returns (text: string)
    ensures text == (if DegreeLabels(dt, lang) == [] then "N/A" else Join(DegreeLabels(dt, lang), ", "))
    ensures text == "N/A" <==> !dt.bachelors && !dt.masters && !dt.doctoral
    ensures dt.bachelors ==> StartsWith(text, BachelorLabel(lang))
  {
    var types: seq<string> := [];
    if dt.bachelors {
      types := types + [BachelorLabel(lang)];
    }
    if dt.masters {
      types := types + [MasterLabel(lang)];
    }
    if dt.doctoral {
      types := types + [DoctoralLabel(lang)];
    }
    assert types == DegreeLabels(dt, lang);
    var joined := Join(types, ", ");
    if types != [] {
      JoinStartsWithFirst(types, ", ");
    }
    text := if joined == [] then "N/A" else joined;
  }

  /** A non-empty join starts with its first part. */
  lemma JoinStartsWithFirst(parts: seq<string>, sep: string)
    requires parts != []
    ensures StartsWith(Join(parts, sep), parts[0])
    ensures parts[0] != [] ==> Join(parts, sep) != []
  {
  }

  // ---------------------------------------------------------------------------------------------
  // Table cells: `getNestedValue`

  /** A JavaScript value as far as the table reads it. */
  datatype Value = Undefined | Null | Bool(b: bool) | Num(x: real) | Str(s: string) | Arr(items: seq<Value>)
                 | Obj(fields: map<string, Value>)

  /** JavaScript truthiness (`NaN` is not a value of this model). */
  predicate Truthy(v: Value) {
    match v
    case Undefined => false
    case Null => false
    case Bool(b) => b
    case Num(x) => x != 0.0
    case Str(s) => s != []
    case Arr(_) => true
    case Obj(_) => true
  }

  /** `acc[part]` on an object: the field, or `undefined` when absent. */
  function Member(v: Value, key: string): (r: Value)
    ensures v.Obj? && key !in v.fields ==> r == Undefined
    ensures v.Obj? && key in v.fields ==> r == v.fields[key]
  {
    if v.Obj? && key in v.fields then v.fields[key] else Undefined
  }

  /** One step of the reduction: `acc && acc[part]`. */
  function Step(acc: Value, part: string): Value {
    if Truthy(acc) then Member(acc, part) else acc
  }

  /** `parts.reduce(step, acc)`. */
  function Walk(acc: Value, parts: seq<string>): Value
    decreases |parts|
  {
    if parts == [] then acc else Walk(Step(acc, parts[0]), parts[1..])
  }

  /** `getNestedValue(obj, path)`: split the path at dots and walk down. */
  function GetNestedValue(obj: Value, path: string): Value {
    Walk(obj, Split(path, '.'))
  }

  /** Once the walk meets a falsy value it stops there: the value is the result, whatever remains of the path. */
  lemma {:induction false} FalsyStops(acc: Value, parts: seq<string>)
    requires !Truthy(acc)
    ensures Walk(acc, parts) == acc
    decreases |parts|
  {
    if parts != [] {
      FalsyStops(acc, parts[1..]);
    }
  }

  /** A path without a dot is a plain field read of an object. */
  lemma SingleKeyPath(fields: map<string, Value>, key: string)
    requires '.' !in key
    ensures GetNestedValue(Obj(fields), key) == if key in fields then fields[key] else Undefined
  {
    SplitNoSep(key, '.');
    assert Walk(Obj(fields), [key]) == Walk(Step(Obj(fields), key), []);
  }

  /**
   * A two-part path reads the inner field of the outer field when the outer field is an object, and yields
   * the outer field itself when it is falsy.
   */
  lemma TwoKeyPath(fields: map<string, Value>, outer: string, inner: string)
    requires '.' !in outer && '.' !in inner
    ensures outer !in fields ==> GetNestedValue(Obj(fields), outer + "." + inner) == Undefined
    ensures outer in fields && fields[outer].Obj? ==>
      GetNestedValue(Obj(fields), outer + "." + inner) == Member(fields[outer], inner)
    ensures outer in fields && !Truthy(fields[outer]) ==>
      GetNestedValue(Obj(fields), outer + "." + inner) == fields[outer]
  {
    SplitAtFirst(outer, inner, '.');
    SplitNoSep(inner, '.');
    assert outer + "." + inner == outer + ['.'] + inner;
    var first := Step(Obj(fields), outer);
    assert GetNestedValue(Obj(fields), outer + "." + inner) == Walk(first, [inner]) by {
      assert Split(outer + "." + inner, '.') == [outer, inner];
      assert [outer, inner][1..] == [inner];
    }
    assert Walk(first, [inner]) == Walk(Step(first, inner), []);
  }

  function OptNum(x: Option<real>): Value {
    match x
    case None => Undefined
    case Some(v) => Num(v)
  }

  function DegreeTypesValue(dt: DegreeTypes): Value {
    Obj(map["bachelors" := Bool(dt.bachelors), "masters" := Bool(dt.masters), "doctoral" := Bool(dt.doctoral)])
  }

  function AcademicInfoValue(ai: AcademicInfo): Value {
    var withRate := if ai.graduationRate.Some? then map["graduationRate" := Num(ai.graduationRate.value)] else map[];
    Obj(if ai.degreeTypes.Some? then withRate["degreeTypes" := DegreeTypesValue(ai.degreeTypes.value)] else withRate)
  }

  /** A catalog record as the JSON object the table reads; absent optional fields are absent keys. */
  function RecordValue(u: University): Value {
    var base := map[
      "id" := Str(u.id), "name" := Str(u.name), "englishName" := Str(u.englishName),
      "location" := Str(u.location), "tuition" := Num(u.tuition),
      "acceptanceRate" := Num(u.acceptanceRate), "satRange" := Str(u.satRange), "actRange" := Str(u.actRange),
      "image" := Str(u.image), "type" := Str(u.schoolType), "size" := Str(u.size)];
    var withGpa := if u.estimatedGPA.Some? then base["estimatedGPA" := Num(u.estimatedGPA.value)] else base;
    Obj(if u.academicInfo.Some? then withGpa["academicInfo" := AcademicInfoValue(u.academicInfo.value)] else withGpa)
  }

  /** The keys the table reads are present in a record's object with the record's values. */
  lemma RecordValueFields(u: University)
    ensures RecordValue(u).Obj?
    ensures var f := RecordValue(u).fields;
      && "location" in f && f["location"] == Str(u.location)
      && "type" in f && f["type"] == Str(u.schoolType)
      && "size" in f && f["size"] == Str(u.size)
      && "tuition" in f && f["tuition"] == Num(u.tuition)
    ensures var f := RecordValue(u).fields;
      && "acceptanceRate" in f && f["acceptanceRate"] == Num(u.acceptanceRate)
      && "satRange" in f && f["satRange"] == Str(u.satRange)
      && "actRange" in f && f["actRange"] == Str(u.actRange)
      && ("estimatedGPA" in f <==> u.estimatedGPA.Some?)
      && (u.estimatedGPA.Some? ==> f["estimatedGPA"] == Num(u.estimatedGPA.value))
    ensures var f := RecordValue(u).fields;
      && ("academicInfo" in f <==> u.academicInfo.Some?)
      && (u.academicInfo.Some? ==> f["academicInfo"] == AcademicInfoValue(u.academicInfo.value))
  {
  }

  /** An academic-info object holds exactly the fields the record has. */
  lemma AcademicInfoFields(ai: AcademicInfo)
    ensures AcademicInfoValue(ai).Obj?
    ensures var f := AcademicInfoValue(ai).fields;
      && ("graduationRate" in f <==> ai.graduationRate.Some?)
      && (ai.graduationRate.Some? ==> f["graduationRate"] == Num(ai.graduationRate.value))
      && ("degreeTypes" in f <==> ai.degreeTypes.Some?)
      && (ai.degreeTypes.Some? ==> f["degreeTypes"] == DegreeTypesValue(ai.degreeTypes.value))
  {
  }

  /** The field keys of the comparison table, in row order: basic information, admission, outcomes. */
  const TableKeys: seq<string> := ["location", "type", "size", "tuition", "acceptanceRate", "satRange", "actRange",
                                   "estimatedGPA", "academicInfo.graduationRate", "academicInfo.degreeTypes"]

  /**
   * What each row of the table is meant to show for a record, read straight off the record: its own field,
   * or `undefined` where the record lacks it.
   */
  function ColumnValue(u: University, key: string): Value {
    if key == "location" then Str(u.location)
    else if key == "type" then Str(u.schoolType)
    else if key == "size" then Str(u.size)
    else if key == "tuition" then Num(u.tuition)
    else if key == "acceptanceRate" then Num(u.acceptanceRate)
    else if key == "satRange" then Str(u.satRange)
    else if key == "actRange" then Str(u.actRange)
    else if key == "estimatedGPA" then OptNum(u.estimatedGPA)
    else if key == "academicInfo.graduationRate" then
      (if u.academicInfo.Some? then OptNum(u.academicInfo.value.graduationRate) else Undefined)
    else if key == "academicInfo.degreeTypes" then
      (if u.academicInfo.Some? && u.academicInfo.value.degreeTypes.Some?
       then DegreeTypesValue(u.academicInfo.value.degreeTypes.value) else Undefined)
    else Undefined
  }

  /** Every cell of the comparison table, read by its dotted path, shows the record's own field. */
  lemma TableCellsReadTheirFields(u: University, key: string)
    requires key in TableKeys
    ensures GetNestedValue(RecordValue(u), key) == ColumnValue(u, key)
  {
    assert key in TableKeys[..4] || key in TableKeys[4..8] || key in TableKeys[8..];
    if key in TableKeys[..4] {
      BasicCell(u, key);
    } else if key in TableKeys[4..8] {
      assert TableKeys[4..8] == ["acceptanceRate", "satRange", "actRange", "estimatedGPA"];
      if key == "acceptanceRate" || key == "satRange" {
        AdmissionCell(u, key);
      } else {
        ScoreCell(u, key);
      }
    } else {
      OutcomeCells(u, key);
    }
  }

  /** The basic-information cells are one-part paths. */
  lemma BasicCell(u: University, key: string)
    requires key in TableKeys[..4]
    ensures GetNestedValue(RecordValue(u), key) == ColumnValue(u, key)
  {
    RecordValueFields(u);
    SingleKeyPath(RecordValue(u).fields, key);
  }

  /** The acceptance-rate and SAT cells are one-part paths too. */
  lemma AdmissionCell(u: University, key: string)
    requires key == "acceptanceRate" || key == "satRange"
    ensures GetNestedValue(RecordValue(u), key) == ColumnValue(u, key)
  {
    RecordValueFields(u);
    if key == "acceptanceRate" {
      SingleKeyPath(RecordValue(u).fields, "acceptanceRate");
    } else {
      SingleKeyPath(RecordValue(u).fields, "satRange");
    }
  }

  /** So are the ACT and estimated-GPA cells. */
  lemma ScoreCell(u: University, key: string)
    requires key == "actRange" || key == "estimatedGPA"
    ensures GetNestedValue(RecordValue(u), key) == ColumnValue(u, key)
  {
    RecordValueFields(u);
    if key == "actRange" {
      SingleKeyPath(RecordValue(u).fields, "actRange");
    } else {
      SingleKeyPath(RecordValue(u).fields, "estimatedGPA");
      assert ColumnValue(u, key) == OptNum(u.estimatedGPA);
    }
  }

  /** The outcome cells are two-part paths under `academicInfo`. */
  lemma OutcomeCells(u: University, key: string)
    requires key in TableKeys[8..]
    ensures GetNestedValue(RecordValue(u), key) == ColumnValue(u, key)
  {
    if u.academicInfo.Some? {
      AcademicInfoFields(u.academicInfo.value);
    }
    if key == "academicInfo.graduationRate" {
      assert key == "academicInfo" + "." + "graduationRate";
      OutcomeCell(u, "graduationRate");
    } else {
      assert key == "academicInfo" + "." + "degreeTypes";
      OutcomeCell(u, "degreeTypes");
    }
  }

  /** An `academicInfo.` path reads the inner field of the record's academic info, or is `undefined` without it. */
  lemma OutcomeCell(u: University, inner: string)
    requires '.' !in inner
    ensures GetNestedValue(RecordValue(u), "academicInfo" + "." + inner)
         == if u.academicInfo.Some? then Member(AcademicInfoValue(u.academicInfo.value), inner) else Undefined
  {
    RecordValueFields(u);
    if u.academicInfo.Some? {
      AcademicInfoFields(u.academicInfo.value);
    }
    TwoKeyPath(RecordValue(u).fields, "academicInfo", inner);
  }

  // ---------------------------------------------------------------------------------------------
  // The page

  /** The page's state: the selection, the search box and the modal flag, over a shared store. */
  class ComparisonPage {
    const catalog: seq<University>
    const storage: Storage
    var selected: seq<University>
    var searchTerm: string
    var showAddModal: bool

    /** First render: nothing selected yet. */
    constructor (catalog: seq<University>, storage: Storage)
      ensures this.catalog == catalog && this.storage == storage
      ensures selected == [] && searchTerm == [] && !showAddModal
    {
      this.catalog := catalog;
      this.storage := storage;
      selected := [];
      searchTerm := [];
      showAddModal := false;
    }

    /** The mount effect: replace the selection by the stored one when there is one that parses. */
    method LoadSaved()
      modifies this
      ensures selected == Loaded(storage.Get(StorageKey), catalog, old(selected))
      ensures searchTerm == old(searchTerm) && showAddModal == old(showAddModal)
    {
      var stored := storage.Get(StorageKey);
      match stored {
        case Some(Ids(ids)) =>
          selected := Resolve(ids, catalog);
        case _ =>
      }
    }

    /** The effect that runs whenever the selection changes: write its ids. */
    method Save()
      modifies storage
      ensures storage.entries == old(storage.entries)[StorageKey := Ids(IdsOf(selected))]
    {
      storage.SetIds(StorageKey, IdsOf(selected));
    }

    /**
     * Mounting the page: the load effect, then the save effect. The save effect first runs with the
     * selection of the first render and runs again once the load has set the selection; the store ends
     * with the ids of the selection after the load, an empty list when nothing was loaded on first render.
     */
    method Mount()
      modifies this, storage
      ensures selected == Loaded(old(storage.Get(StorageKey)), catalog, old(selected))
      ensures storage.entries == old(storage.entries)[StorageKey := Ids(IdsOf(selected))]
      ensures searchTerm == old(searchTerm) && showAddModal == old(showAddModal)
      ensures (forall u :: u in old(selected) ==> FindById(catalog, u.id) == Some(u)) ==>
        Loaded(storage.Get(StorageKey), catalog, []) == selected
    {
      LoadSaved();
      Save();
      if forall u :: u in selected ==> FindById(catalog, u.id) == Some(u) {
        LoadAfterSave(selected, catalog);
      }
    }

    /** `addUniversity`, followed by the save effect when the selection changed. */
    method AddUniversity(u: University) returns (outcome: AddOutcome)
      modifies this, storage
      ensures (outcome, selected) == CompareAdd(old(selected), u)
      ensures outcome == Added ==> searchTerm == [] && !showAddModal
      ensures outcome == Added ==> storage.entries == old(storage.entries)[StorageKey := Ids(IdsOf(selected))]
      ensures outcome != Added ==> storage.entries == old(storage.entries)
      ensures outcome != Added ==> searchTerm == old(searchTerm) && showAddModal == old(showAddModal)
    {
      if |selected| >= MaxCompared {
        return LimitReached;
      }
      if u.id in IdsOf(selected) {
        return AlreadyAdded;
      }
      selected := selected + [u];
      showAddModal := false;
      searchTerm := [];
      Save();
      outcome := Added;
    }

    /** `removeUniversity`, followed by the save effect. */
    method RemoveUniversity(id: string)
      modifies this, storage
      ensures selected == RemoveById(old(selected), id)
      ensures storage.entries == old(storage.entries)[StorageKey := Ids(IdsOf(selected))]
      ensures searchTerm == old(searchTerm) && showAddModal == old(showAddModal)
    {
      selected := RemoveById(selected, id);
      Save();
    }

    /** Opening the modal from an add slot or the empty state. */
    method OpenModal()
      modifies this
      ensures showAddModal
      ensures selected == old(selected) && searchTerm == old(searchTerm)
    {
      showAddModal := true;
    }

    /** Closing the modal, from its backdrop or its close button; the search term is kept. */
    method CloseModal()
      modifies this
      ensures !showAddModal
      ensures selected == old(selected) && searchTerm == old(searchTerm)
    {
      showAddModal := false;
    }

    /** Typing in the search box. */
    method SetSearchTerm(term: string)
      modifies this
      ensures searchTerm == term
      ensures selected == old(selected) && showAddModal == old(showAddModal)
    {
      searchTerm := term;
    }
  }
}
