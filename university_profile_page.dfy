/**
 * The single-university page: the record shown for the route id, the label translations and requirement
 * badges it renders, the list of majors, and the "add to comparison" button, which edits the stored id
 * list directly rather than through the comparison page's state.
 */
module UniversityProfilePage {
  import opened Wrappers
  import opened Text
  import opened Seqs
  import opened Catalog
  import opened ComparisonStorage
  import ComparePage

  // ---------------------------------------------------------------------------------------------
  // The record shown

  /** `id || '1'`: a missing or empty route parameter falls back to the id "1". */
  function RouteId(param: Option<string>): (id: string)
    ensures id != []
    ensures param.Some? && param.value != [] ==> id == param.value
    ensures param.None? || param.value == [] ==> id == "1"
  {
    if param.Some? && param.value != [] then param.value else "1"
  }

  /** `getUniversityData(id || '1')`: the first catalog record with the route's id, if any. */
  function GetUniversityData(catalog: seq<University>, param: Option<string>): (r: Option<University>)
    ensures r.None? <==> RouteId(param) !in IdsOf(catalog)
    ensures r.Some? ==> r.value in catalog && r.value.id == RouteId(param)
  {
    FindById(catalog, RouteId(param))
  }

  /** With distinct catalog ids, the page for a record's own id shows that record. */
  lemma PageShowsItsRecord(catalog: seq<University>, u: University)
    requires DistinctIds(catalog) && u in catalog && u.id != []
    ensures GetUniversityData(catalog, Some(u.id)) == Some(u)
  {
    FindByIdUnique(catalog, u);
  }

  // ---------------------------------------------------------------------------------------------
  // Size bands

  const LargeKo: string := "큼 (15,000+)"
  const MediumKo: string := "중간 (5,000-15,000)"
  const SmallKo: string := "작음 (<5,000)"
  const LargeEn: string := "Large (15,000+)"
  const MediumEn: string := "Medium (5,000-15,000)"
  const SmallEn: string := "Small (<5,000)"

  /** `translateSize`: the catalog stores Korean size bands; English replaces the three known ones. */
  function TranslateSize(size: string, lang: Lang): (r: string)
    ensures lang == Ko ==> r == size
    ensures lang == En && size == LargeKo ==> r == LargeEn
    ensures lang == En && size == MediumKo ==> r == MediumEn
    ensures lang == En && size == SmallKo ==> r == SmallEn
    ensures size != LargeKo && size != MediumKo && size != SmallKo ==> r == size
  {
    if lang == Ko then size
    else if size == LargeKo then LargeEn
    else if size == MediumKo then MediumEn
    else if size == SmallKo then SmallEn
    else size
  }

  /** Translating an already translated size changes nothing. */
  lemma TranslateSizeIdempotent(size: string, lang: Lang)
    ensures TranslateSize(TranslateSize(size, lang), lang) == TranslateSize(size, lang)
  {
    assert LargeEn != LargeKo && LargeEn != MediumKo && LargeEn != SmallKo by {
      assert LargeEn[0] != LargeKo[0] && LargeEn[0] != MediumKo[0] && LargeEn[0] != SmallKo[0];
    }
    assert MediumEn != LargeKo && MediumEn != MediumKo && MediumEn != SmallKo by {
      assert MediumEn[0] != LargeKo[0] && MediumEn[0] != MediumKo[0] && MediumEn[0] != SmallKo[0];
    }
    assert SmallEn != LargeKo && SmallEn != MediumKo && SmallEn != SmallKo by {
      assert SmallEn[0] != LargeKo[0] && SmallEn[0] != MediumKo[0] && SmallEn[0] != SmallKo[0];
    }
  }

  // ---------------------------------------------------------------------------------------------
  // Requirement badges

  /** The three badge styles. */
  datatype Badge = RequiredBadge | OptionalBadge | NotConsideredBadge

  /** An absent requirement and the empty string are both falsy. */
  predicate Present(status: Option<string>) {
    status.Some? && status.value != []
  }

  predicate SaysRequired(s: string) {
    Contains(s, "Required")
  }

  predicate SaysOptional(s: string) {
    Contains(s, "Not required") || Contains(s, "considered if submitted")
  }

  /**
   * `getRequirementBadgeType`: case-sensitive substring tests, with "Required" taking precedence over the
   * optional phrases.
   */
  function BadgeType(status: Option<string>): (b: Badge)
    ensures b == RequiredBadge <==> Present(status) && SaysRequired(status.value)
    ensures b == OptionalBadge <==> Present(status) && !SaysRequired(status.value) && SaysOptional(status.value)
  {
    if !Present(status) then NotConsideredBadge
    else if SaysRequired(status.value) then RequiredBadge
    else if SaysOptional(status.value) then OptionalBadge
    else NotConsideredBadge
  }

  function RequiredLabel(lang: Lang): string {
    if lang == Ko then "필수" else "Required"
  }

  function OptionalLabel(lang: Lang): string {
    if lang == Ko then "선택 (제출 시 고려)" else "Optional (Considered if submitted)"
  }

  function NotConsideredLabel(lang: Lang): string {
    if lang == Ko then "고려 안 됨" else "Not Considered"
  }

  /**
   * `translateRequirementStatus`: the label for the badge class, with a third recognised phrase
   * ("Not considered"); any other status is shown as written.
   */
  function TranslateRequirementStatus(lang: Lang, status: Option<string>): (r: string)
    ensures BadgeType(status) == RequiredBadge ==> r == RequiredLabel(lang)
    ensures BadgeType(status) == OptionalBadge ==> r == OptionalLabel(lang)
    ensures !Present(status) ==> r == NotConsideredLabel(lang)
    ensures BadgeType(status) == NotConsideredBadge && Present(status) ==>
      r == (if Contains(status.value, "Not considered") then NotConsideredLabel(lang) else status.value)
  {
    if !Present(status) then NotConsideredLabel(lang)
    else if SaysRequired(status.value) then RequiredLabel(lang)
    else if SaysOptional(status.value) then OptionalLabel(lang)
    else if Contains(status.value, "Not considered") then NotConsideredLabel(lang)
    else status.value
  }

  /**
   * The shown label and the badge colour agree: each translated label appears only with its own badge, unless
   * the stored status is literally that label and is passed through unchanged.
   */
  lemma LabelMatchesBadge(lang: Lang, status: Option<string>)
    ensures TranslateRequirementStatus(lang, status) == RequiredLabel(lang) && status != Some(RequiredLabel(lang))
            ==> BadgeType(status) == RequiredBadge
    ensures TranslateRequirementStatus(lang, status) == OptionalLabel(lang) && status != Some(OptionalLabel(lang))
            ==> BadgeType(status) == OptionalBadge
    ensures TranslateRequirementStatus(lang, status) == NotConsideredLabel(lang) && status != Some(NotConsideredLabel(lang))
            ==> BadgeType(status) == NotConsideredBadge
  {
    assert RequiredLabel(lang) != NotConsideredLabel(lang) && RequiredLabel(lang) != OptionalLabel(lang) by {
      assert RequiredLabel(lang)[0] != NotConsideredLabel(lang)[0];
      assert |RequiredLabel(lang)| != |OptionalLabel(lang)|;
    }
    assert OptionalLabel(lang) != NotConsideredLabel(lang) by {
      assert |OptionalLabel(lang)| != |NotConsideredLabel(lang)|;
    }
  }

  /** The tests are case-sensitive: "Not required" is optional, not required, and "Required" alone is required. */
  lemma BadgeExamples()
    ensures BadgeType(Some("Required")) == RequiredBadge
    ensures BadgeType(Some("Not required")) == OptionalBadge
    ensures BadgeType(Some("")) == NotConsideredBadge
  {
    assert StartsWith("Required", "Required");
    assert !SaysRequired("Not required") by {
      NotRequiredLacksCapital();
    }
    assert StartsWith("Not required", "Not required");
  }

  /** "Not required" has no capital R, so it does not contain "Required". */
  lemma NotRequiredLacksCapital()
    ensures !Contains("Not required", "Required")
  {
    assert "Required"[0] !in "Not required";
    FirstCharAbsent("Not required", "Required");
  }

  // ---------------------------------------------------------------------------------------------
  // Majors

  /** The Korean names of the program categories; English shows the catalog's names unchanged. */
  const ProgramNamesKo: map<string, string> := map[
    "Agricultural/Animal/Plant/Veterinary Science and Related Fields" := "농업/동물/식물/수의학",
    "Natural Resources and Conservation" := "자연자원 및 보존",
    "Architecture and Related Services" := "건축학",
    "Area, Ethnic, Cultural, Gender, and Group Studies" := "지역/민족/문화/젠더 연구",
    "Communication, Journalism, and Related Programs" := "커뮤니케이션 및 저널리즘",
    "Communications Technologies/Technicians and Support Services" := "통신 기술",
    "Computer and Information Sciences and Support Services" := "컴퓨터 및 정보과학",
    "Personal and Culinary Services" := "요리 및 개인 서비스",
    "Education" := "교육학",
    "Engineering" := "공학",
    "Engineering/Engineering-related Technologies/Technicians" := "공학 기술",
    "Foreign Languages, Literatures, and Linguistics" := "외국어 및 언어학",
    "Family and Consumer Sciences/Human Sciences" := "가정학",
    "Legal Professions and Studies" := "법학",
    "English Language and Literature/Letters" := "영문학",
    "Liberal Arts and Sciences, General Studies and Humanities" := "인문교양",
    "Library Science" := "도서관학",
    "Biological and Biomedical Sciences" := "생물학 및 의생명과학",
    "Mathematics and Statistics" := "수학 및 통계학",
    "Military Science and Military Technologies" := "군사학",
    "Multi/Interdisciplinary Studies" := "융합전공",
    "Parks, Recreation, Leisure, and Fitness Studies" := "레저 및 체육학",
    "Philosophy and Religious Studies" := "철학 및 종교학",
    "Theology and Religious Vocations" := "신학",
    "Physical Sciences" := "물리학",
    "Science Technologies/Technicians" := "과학 기술",
    "Psychology" := "심리학",
    "Homeland Security, Law Enforcement, Firefighting and Related" := "공공안전",
    "Public Administration and Social Service Professions" := "행정학 및 사회복지",
    "Social Sciences" := "사회과학",
    "Construction Trades" := "건설 기술",
    "Mechanic and Repair Technologies/Technicians" := "정비 기술",
    "Precision Production" := "정밀 생산",
    "Transportation and Materials Moving" := "운송학",
    "Visual and Performing Arts" := "예술",
    "Health Professions and Related Programs" := "보건의료",
    "Business, Management, Marketing, and Related Support Services" := "경영학",
    "History" := "역사학"
  ]

  /** `translateProgramName`: the table entry in Korean when there is one, otherwise the name as written. */
  function TranslateProgramName(program: string, lang: Lang): (r: string)
    ensures lang == En ==> r == program
    ensures lang == Ko && program in ProgramNamesKo ==> r == ProgramNamesKo[program]
    ensures program !in ProgramNamesKo ==> r == program
  {
    if lang == En then program
    else if program in ProgramNamesKo && ProgramNamesKo[program] != [] then ProgramNamesKo[program]
    else program
  }

  /** The `||` fallback never hides a table entry: every Korean name in the table is non-empty. */
  lemma ProgramNamesNonEmpty(program: string)
    requires program in ProgramNamesKo
    ensures ProgramNamesKo[program] != []
  {
  }

  /** The row label that the catalog uses for its totals, not a program. */
  const GrandTotal: string := "Grand total"

  /** `programs.filter(p => p !== 'Grand total')`: every total row removed, the rest kept in order. */
  function DisplayedPrograms(programs: Option<seq<string>>): (r: seq<string>)
    ensures GrandTotal !in r
    ensures programs.None? ==> r == []
    ensures programs.Some? ==> IsSubseq(r, programs.value)
    ensures programs.Some? ==> forall p :: p in programs.value && p != GrandTotal ==> p in r
    ensures programs.Some? ==> forall p :: p in programs.value && p != GrandTotal ==> multiset(r)[p] == multiset(programs.value)[p]
  {
    if programs.None? then []
    else
      var keep := (p: string) => p != GrandTotal;
      FilterCounts(programs.value, keep);
      Filter(programs.value, keep)
  }

  /** The majors section is rendered exactly when some program other than the total row remains. */
  predicate ShowsMajors(programs: Option<seq<string>>) {
    programs.Some? && |DisplayedPrograms(programs)| > 0
  }

  lemma ShowsMajorsIff(programs: Option<seq<string>>)
    ensures ShowsMajors(programs) <==> programs.Some? && exists p :: p in programs.value && p != GrandTotal
  {
    if ShowsMajors(programs) {
      var r := DisplayedPrograms(programs);
      assert r[0] in r;
    }
  }

  /** The majors as shown: the kept names, each translated. */
  function ShownMajors(programs: Option<seq<string>>, lang: Lang): (r: seq<string>)
    ensures |r| == |DisplayedPrograms(programs)|
    ensures forall i :: 0 <= i < |r| ==> r[i] == TranslateProgramName(DisplayedPrograms(programs)[i], lang)
  {
    var kept := DisplayedPrograms(programs);
    seq(|kept|, i requires 0 <= i < |kept| => TranslateProgramName(kept[i], lang))
  }

  // ---------------------------------------------------------------------------------------------
  // The stored comparison list, as this page reads and writes it

  /**
   * `saved ? JSON.parse(saved) : []`: a missing or empty entry reads as no ids; `None` is a parse failure,
   * which the page catches.
   */
  function StoredIds(stored: Option<Entry>): (r: Option<seq<string>>)
    ensures r.None? <==> stored == Some(Unparseable)
    ensures stored.Some? && stored.value.Ids? ==> r == Some(stored.value.ids)
  {
    match stored
    case None => Some([])
    case Some(Blank) => Some([])
    case Some(Unparseable) => None
    case Some(Ids(ids)) => Some(ids)
  }

  /** The `isAdded` effect: whether the stored list holds the id; a parse failure keeps the old flag. */
  function CheckAdded(stored: Option<Entry>, id: string, current: bool): (r: bool)
    ensures StoredIds(stored).None? ==> r == current
    ensures StoredIds(stored).Some? ==> (r <==> id in StoredIds(stored).value)
  {
    match StoredIds(stored)
    case None => current
    case Some(ids) => id in ids
  }

  datatype ProfileOutcome = Added | AlreadyAdded | LimitReached | Failed

  /**
   * The add button's list edit: unlike the comparison page, the duplicate test comes before the size limit;
   * only an id that passes both is appended.
   */
  function ProfileAdd(ids: seq<string>, id: string): (r: (ProfileOutcome, seq<string>))
    ensures r.0 == AlreadyAdded <==> id in ids
    ensures r.0 == LimitReached <==> id !in ids && |ids| >= ComparePage.MaxCompared
    ensures r.0 != Failed
    ensures r.0 == Added ==> r.1 == ids + [id]
    ensures r.0 != Added ==> r.1 == ids
  {
    if id in ids then (AlreadyAdded, ids)
    else if |ids| >= ComparePage.MaxCompared then (LimitReached, ids)
    else (Added, ids + [id])
  }

  /** A stored list of at most four distinct ids keeps that shape after the button adds to it. */
  lemma ProfileAddKeepsValid(ids: seq<string>, id: string)
    requires |ids| <= ComparePage.MaxCompared && Distinct(ids)
    ensures |ProfileAdd(ids, id).1| <= ComparePage.MaxCompared && Distinct(ProfileAdd(ids, id).1)
  {
    var r := ProfileAdd(ids, id).1;
    if ProfileAdd(ids, id).0 == Added {
      forall i, j | 0 <= i < j < |r| ensures Identity(r[i]) != Identity(r[j]) {
        if j == |ids| {
          assert r[i] == ids[i];
        } else {
          assert Identity(ids[i]) != Identity(ids[j]);
        }
      }
    }
  }

  /**
   * The two add buttons agree on the resulting list. Their outcomes differ only for a university already on a
   * full list, which the comparison page reports as the limit and this page as a duplicate.
   */
  lemma AddButtonsAgree(sel: seq<University>, u: University)
    ensures IdsOf(ComparePage.CompareAdd(sel, u).1) == ProfileAdd(IdsOf(sel), u.id).1
    ensures ComparePage.CompareAdd(sel, u).0 == ComparePage.Added <==> ProfileAdd(IdsOf(sel), u.id).0 == Added
    ensures ComparePage.CompareAdd(sel, u).0 == ComparePage.LimitReached && ProfileAdd(IdsOf(sel), u.id).0 == AlreadyAdded
            <==> |sel| >= ComparePage.MaxCompared && u.id in IdsOf(sel)
  {
    if ComparePage.CompareAdd(sel, u).0 == ComparePage.Added {
      IdsOfAppend(sel, u);
    }
  }

  /** A university added here is on the comparison page the next time it loads. */
  lemma AddedHereShowsThere(ids: seq<string>, catalog: seq<University>, u: University)
    requires DistinctIds(catalog) && u in catalog
    requires ProfileAdd(ids, u.id).0 == Added
    ensures u in ComparePage.Resolve(ProfileAdd(ids, u.id).1, catalog)
  {
    var stored := ProfileAdd(ids, u.id).1;
    var r := ComparePage.Resolve(stored, catalog);
    assert u.id in stored;
    var c :| 0 <= c < |catalog| && catalog[c] == u;
    assert IdsOf(catalog)[c] == u.id;
    assert u.id in IdsOf(r);
    var k :| 0 <= k < |r| && IdsOf(r)[k] == u.id;
    assert r[k] in r;
    FindByIdUnique(catalog, u);
  }

  // ---------------------------------------------------------------------------------------------
  // The page

  /** The page's state: the record on show and the `isAdded` flag, over the shared store. */
  class ProfilePage {
    const catalog: seq<University>
    const storage: Storage
    const university: Option<University>
    var isAdded: bool

    constructor (catalog: seq<University>, storage: Storage, param: Option<string>)
      ensures this.catalog == catalog && this.storage == storage
      ensures university == GetUniversityData(catalog, param)
      ensures !isAdded
    {
      this.catalog := catalog;
      this.storage := storage;
      university := GetUniversityData(catalog, param);
      isAdded := false;
    }

    /** The effect run when the record changes; it does nothing on the not-found page. */
    method RefreshAdded()
      modifies this
      ensures university.None? ==> isAdded == old(isAdded)
      ensures university.Some? ==> isAdded == CheckAdded(storage.Get(StorageKey), university.value.id, old(isAdded))
    {
      if university.None? {
        return;
      }
      match StoredIds(storage.Get(StorageKey)) {
        case None =>
        case Some(currentIds) =>
          isAdded := university.value.id in currentIds;
      }
    }

    /**
     * The "add to comparison" click: read the stored list, reject a duplicate and then a full list, otherwise
     * push the id, write the list back and mark the button as added. A parse failure writes nothing.
     * The button exists only on a record's page and is disabled while the record is marked as added.
     */
    method AddToComparison() returns (outcome: ProfileOutcome)
      requires university.Some? && !isAdded
      modifies this, storage
      ensures StoredIds(old(storage.Get(StorageKey))).None? ==>
        outcome == Failed && storage.entries == old(storage.entries) && isAdded == old(isAdded)
      ensures StoredIds(old(storage.Get(StorageKey))).Some? ==>
        var (expected, ids) := ProfileAdd(StoredIds(old(storage.Get(StorageKey))).value, university.value.id);
        && outcome == expected
        && (outcome == Added ==> storage.entries == old(storage.entries)[StorageKey := Ids(ids)] && isAdded)
        && (outcome != Added ==> storage.entries == old(storage.entries) && isAdded == old(isAdded))
    {
      var currentIds: seq<string>;
      match storage.Get(StorageKey) {
        case None => currentIds := [];
        case Some(Blank) => currentIds := [];
        case Some(Unparseable) => return Failed;
        case Some(Ids(ids)) => currentIds := ids;
      }
      var id := university.value.id;
      if id in currentIds {
        return AlreadyAdded;
      }
      if |currentIds| >= ComparePage.MaxCompared {
        return LimitReached;
      }
      currentIds := currentIds + [id];
      storage.SetIds(StorageKey, currentIds);
      isAdded := true;
      outcome := Added;
    }
  }
}
