/**
 * The student-profile editor: the extracurricular and recommendation-letter lists edited by id, the grade
 * checkboxes of an activity, the hours field, and the profile record built on save with its test-type
 * gating. Every edit builds a new value from the previous one (`map`, `filter`, spread).
 */
module StudentProfilePage {
  import opened Wrappers
  import opened Text
  import opened Seqs
  import opened Components

  // ---------------------------------------------------------------------------------------------
  // Extracurricular activities

  /**
   * An extracurricular activity. `grades` may be missing on a record loaded from an older profile, which
   * the page reads as an empty list.
   */
  datatype Activity = Activity(
    id: string,
    kind: string,
    name: string,
    description: string,
    grades: Option<seq<string>>,
    recognitionLevel: string,
    hoursPerWeek: int)

  function ActivityId(x: Activity): string {
    x.id
  }

  /** The activity `addExtracurricular` creates, under the id the clock provides. */
  function NewActivity(id: string): Activity {
    Activity(id, "Other", "", "", Some([]), "Local", 0)
  }

  /** `addExtracurricular`: one new activity with the default values, after the existing ones. */
  function AddExtracurricular(list: seq<Activity>, id: string): (r: seq<Activity>)
    ensures |r| == |list| + 1 && r[..|list|] == list
    ensures var a := r[|list|];
      && a.id == id && a.kind == "Other" && a.name == "" && a.description == ""
      && a.grades == Some([]) && a.recognitionLevel == "Local" && a.hoursPerWeek == 0
  {
    list + [NewActivity(id)]
  }

  /** The fields of an activity the form edits, each with a value of its own type. */
  datatype ActivityEdit =
    | SetKind(kind: string)
    | SetName(name: string)
    | SetDescription(description: string)
    | SetGrades(grades: seq<string>)
    | SetRecognition(level: string)
    | SetHours(hours: int)

  /** The field names of an activity other than its id. */
  datatype ActivityField = KindField | NameField | DescriptionField | GradesField | RecognitionField | HoursField

  /** What a field of an activity holds. */
  datatype FieldValue = Text(text: string) | GradeList(list: Option<seq<string>>) | Number(n: int)

  /** `activity[field]`. */
  function FieldOf(a: Activity, field: ActivityField): FieldValue {
    match field
    case KindField => Text(a.kind)
    case NameField => Text(a.name)
    case DescriptionField => Text(a.description)
    case GradesField => GradeList(a.grades)
    case RecognitionField => Text(a.recognitionLevel)
    case HoursField => Number(a.hoursPerWeek)
  }

  /** The field an edit writes. */
  function EditedField(e: ActivityEdit): ActivityField {
    match e
    case SetKind(_) => KindField
    case SetName(_) => NameField
    case SetDescription(_) => DescriptionField
    case SetGrades(_) => GradesField
    case SetRecognition(_) => RecognitionField
    case SetHours(_) => HoursField
  }

  /** The value an edit writes, as the field holds it. */
  function EditedValue(e: ActivityEdit): FieldValue {
    match e
    case SetKind(v) => Text(v)
    case SetName(v) => Text(v)
    case SetDescription(v) => Text(v)
    case SetGrades(v) => GradeList(Some(v))
    case SetRecognition(v) => Text(v)
    case SetHours(v) => Number(v)
  }

  /** `{ ...a, [field]: value }`: the named field takes the value, the id and every other field stay. */
  function EditActivity(a: Activity, e: ActivityEdit): (r: Activity)
    ensures r.id == a.id
    ensures FieldOf(r, EditedField(e)) == EditedValue(e)
    ensures forall f :: f != EditedField(e) ==> FieldOf(r, f) == FieldOf(a, f)
  {
    match e
    case SetKind(v) => a.(kind := v)
    case SetName(v) => a.(name := v)
    case SetDescription(v) => a.(description := v)
    case SetGrades(v) => a.(grades := Some(v))
    case SetRecognition(v) => a.(recognitionLevel := v)
    case SetHours(v) => a.(hoursPerWeek := v)
  }

  /** Two activities with the same id and the same fields are the same activity. */
  lemma ActivityExtensionality(a: Activity, b: Activity)
    requires a.id == b.id
    requires forall f :: FieldOf(a, f) == FieldOf(b, f)
    ensures a == b
  {
    assert FieldOf(a, KindField) == FieldOf(b, KindField);
    assert FieldOf(a, NameField) == FieldOf(b, NameField);
    assert FieldOf(a, DescriptionField) == FieldOf(b, DescriptionField);
    assert FieldOf(a, GradesField) == FieldOf(b, GradesField);
    assert FieldOf(a, RecognitionField) == FieldOf(b, RecognitionField);
    assert FieldOf(a, HoursField) == FieldOf(b, HoursField);
  }

  /** The last of two edits to the same field wins. */
  lemma EditTwice(a: Activity, e1: ActivityEdit, e2: ActivityEdit)
    requires EditedField(e1) == EditedField(e2)
    ensures EditActivity(EditActivity(a, e1), e2) == EditActivity(a, e2)
  {
    var b := EditActivity(EditActivity(a, e1), e2);
    var c := EditActivity(a, e2);
    assert forall f :: FieldOf(b, f) == FieldOf(c, f);
    ActivityExtensionality(b, c);
  }

  /**
   * `updateExtracurricular(id, field, value)`: every activity with that id gets the edit, every other
   * activity is left as it is; the list keeps its length, its order and its ids.
   */
  function UpdateExtracurricular(list: seq<Activity>, id: string, e: ActivityEdit): (r: seq<Activity>)
    ensures |r| == |list| && KeysOf(r, ActivityId) == KeysOf(list, ActivityId)
    ensures forall i :: 0 <= i < |list| && list[i].id != id ==> r[i] == list[i]
    ensures forall i :: 0 <= i < |list| && list[i].id == id ==>
      && FieldOf(r[i], EditedField(e)) == EditedValue(e)
      && forall f :: f != EditedField(e) ==> FieldOf(r[i], f) == FieldOf(list[i], f)
  {
    seq(|list|, i requires 0 <= i < |list| => if list[i].id == id then EditActivity(list[i], e) else list[i])
  }

  /** An update addressed to an id that is not in the list changes nothing. */
  lemma UpdateAbsentActivity(list: seq<Activity>, id: string, e: ActivityEdit)
    requires id !in KeysOf(list, ActivityId)
    ensures UpdateExtracurricular(list, id, e) == list
  {
    var r := UpdateExtracurricular(list, id, e);
    forall i | 0 <= i < |list|
      ensures r[i] == list[i]
    {
      assert KeysOf(list, ActivityId)[i] == list[i].id;
    }
  }

  /** `removeExtracurricular`: drop every activity with that id, keep the others in order. */
  function RemoveExtracurricular(list: seq<Activity>, id: string): (r: seq<Activity>)
    ensures IsSubseq(r, list)
    ensures id !in KeysOf(r, ActivityId)
    ensures forall a :: a in list ==> (a in r <==> a.id != id)
    ensures forall a :: a in list && a.id != id ==> multiset(r)[a] == multiset(list)[a]
  {
    var keep := (a: Activity) => a.id != id;
    var r := Filter(list, keep);
    assert forall i :: 0 <= i < |r| ==> r[i] in r;
    FilterCounts(list, keep);
    r
  }

  /** Removing an id that no activity carries changes nothing. */
  lemma RemoveAbsentActivity(list: seq<Activity>, id: string)
    requires id !in KeysOf(list, ActivityId)
    ensures RemoveExtracurricular(list, id) == list
  {
    assert forall a :: a in list ==> a.id != id by {
      forall a | a in list ensures a.id != id {
        var k :| 0 <= k < |list| && list[k] == a;
        assert KeysOf(list, ActivityId)[k] == a.id;
      }
    }
    FilterAll(list, (a: Activity) => a.id != id);
  }

  /** Adding an activity under a fresh id and then removing that id gives back the list. */
  lemma RemoveUndoesAddActivity(list: seq<Activity>, id: string)
    requires id !in KeysOf(list, ActivityId)
    ensures RemoveExtracurricular(AddExtracurricular(list, id), id) == list
  {
    RemoveAbsentActivity(list, id);
    FilterAppend(list, [NewActivity(id)], (a: Activity) => a.id != id);
  }

  /** Removing an id after editing it gives the same list as removing it straight away. */
  lemma {:induction false} RemoveAfterUpdateActivity(list: seq<Activity>, id: string, e: ActivityEdit)
    ensures RemoveExtracurricular(UpdateExtracurricular(list, id, e), id) == RemoveExtracurricular(list, id)
    decreases |list|
  {
    if list != [] {
      var init, last := list[..|list| - 1], list[|list| - 1];
      var upd := UpdateExtracurricular(list, id, e);
      assert list == init + [last];
      assert upd == UpdateExtracurricular(init, id, e) + [upd[|list| - 1]];
      FilterAppend(init, [last], (a: Activity) => a.id != id);
      FilterAppend(UpdateExtracurricular(init, id, e), [upd[|list| - 1]], (a: Activity) => a.id != id);
      RemoveAfterUpdateActivity(init, id, e);
    }
  }

  // ---------------------------------------------------------------------------------------------
  // The grade checkboxes and the hours field of an activity

  /** The grades offered as checkboxes. */
  const GradeOptions: seq<string> := ["9", "10", "11", "12"]

  /** `activity.grades || []`. */
  function CurrentGrades(a: Activity): seq<string> {
    a.grades.GetOr([])
  }

  /** Whether a grade's checkbox shows as checked: `activity.grades?.includes(grade) || false`. */
  predicate GradeChecked(a: Activity, grade: string) {
    grade in CurrentGrades(a)
  }

  /** The new grade list of a checkbox change: checking appends the grade, unchecking drops every copy. */
  function GradesAfterChange(a: Activity, grade: string, checked: bool): (r: seq<string>)
    ensures checked ==> r == CurrentGrades(a) + [grade]
    ensures !checked ==> IsSubseq(r, CurrentGrades(a)) && grade !in r
    ensures forall g :: g != grade ==> (g in r <==> g in CurrentGrades(a))
  {
    if checked then CurrentGrades(a) + [grade]
    else Filter(CurrentGrades(a), (g: string) => g != grade)
  }

  /** The checkbox handler: the grade list of every activity with that id becomes the new list. */
  function ChangeGrade(list: seq<Activity>, id: string, a: Activity, grade: string, checked: bool): seq<Activity> {
    UpdateExtracurricular(list, id, SetGrades(GradesAfterChange(a, grade, checked)))
  }

  /** After a change, the checkbox shows the state it was changed to. */
  lemma CheckboxShowsChange(a: Activity, grade: string, checked: bool)
    ensures GradeChecked(EditActivity(a, SetGrades(GradesAfterChange(a, grade, checked))), grade) == checked
  {
  }

  /** Checking a grade that was not checked and unchecking it again gives back the grade list. */
  lemma UncheckUndoesCheck(a: Activity, grade: string)
    requires !GradeChecked(a, grade)
    ensures GradesAfterChange(EditActivity(a, SetGrades(GradesAfterChange(a, grade, true))), grade, false)
         == CurrentGrades(a)
  {
    var p := (g: string) => g != grade;
    FilterAppend(CurrentGrades(a), [grade], p);
    FilterAll(CurrentGrades(a), p);
  }

  /** `parseInt(text) || 0`, as the hours field and the saved scores read their text: `NaN` and 0 give 0. */
  function IntOrZero(text: string): (hours: int)
    ensures ParseInt(text).None? ==> hours == 0
    ensures ParseInt(text).Some? ==> hours == ParseInt(text).value
  {
    match ParseInt(text)
    case None => 0
    case Some(n) => n
  }

  /** A natural number typed in decimal is read as that number. */
  lemma IntOrZeroOfNumber(n: nat)
    ensures IntOrZero(NatToString(n)) == n
  {
    ParseIntOfNatToString(n, []);
    assert NatToString(n) + [] == NatToString(n);
  }

  // ---------------------------------------------------------------------------------------------
  // Recommendation letters

  datatype Letter = Letter(id: string, source: string, depth: string, relevance: string)

  function LetterId(x: Letter): string {
    x.id
  }

  /** The letter `addRecommendationLetter` creates, under the id the clock provides. */
  function NewLetter(id: string): Letter {
    Letter(id, "Teacher", "knows somewhat", "not relevant or not available")
  }

  /** `addRecommendationLetter`: one new letter with the default values, after the existing ones. */
  function AddRecommendationLetter(list: seq<Letter>, id: string): (r: seq<Letter>)
    ensures |r| == |list| + 1 && r[..|list|] == list
    ensures r[|list|].id == id && r[|list|].source == "Teacher" && r[|list|].depth == "knows somewhat"
    ensures r[|list|].relevance == "not relevant or not available"
  {
    list + [NewLetter(id)]
  }

  /** The three editable fields of a letter. */
  datatype LetterField = SourceField | DepthField | RelevanceField

  /** `letter[field]`. */
  function LetterFieldOf(l: Letter, field: LetterField): string {
    match field
    case SourceField => l.source
    case DepthField => l.depth
    case RelevanceField => l.relevance
  }

  /** `{ ...l, [field]: value }`. */
  function EditLetter(l: Letter, field: LetterField, value: string): (r: Letter)
    ensures r.id == l.id
    ensures LetterFieldOf(r, field) == value
    ensures forall f :: f != field ==> LetterFieldOf(r, f) == LetterFieldOf(l, f)
  {
    match field
    case SourceField => l.(source := value)
    case DepthField => l.(depth := value)
    case RelevanceField => l.(relevance := value)
  }

  /**
   * `updateRecommendationLetter(id, field, value)`: every letter with that id gets the new value in that
   * field, every other letter is left as it is; the list keeps its length, its order and its ids.
   */
  function UpdateRecommendationLetter(list: seq<Letter>, id: string, field: LetterField, value: string): (r: seq<Letter>)
    ensures |r| == |list| && KeysOf(r, LetterId) == KeysOf(list, LetterId)
    ensures forall i :: 0 <= i < |list| && list[i].id != id ==> r[i] == list[i]
    ensures forall i :: 0 <= i < |list| && list[i].id == id ==>
      && LetterFieldOf(r[i], field) == value
      && forall f :: f != field ==> LetterFieldOf(r[i], f) == LetterFieldOf(list[i], f)
  {
    seq(|list|, i requires 0 <= i < |list| => if list[i].id == id then EditLetter(list[i], field, value) else list[i])
  }

  /** `removeRecommendationLetter`: drop every letter with that id, keep the others in order. */
  function RemoveRecommendationLetter(list: seq<Letter>, id: string): (r: seq<Letter>)
    ensures IsSubseq(r, list)
    ensures id !in KeysOf(r, LetterId)
    ensures forall l :: l in list ==> (l in r <==> l.id != id)
    ensures forall l :: l in list && l.id != id ==> multiset(r)[l] == multiset(list)[l]
  {
    var keep := (l: Letter) => l.id != id;
    var r := Filter(list, keep);
    assert forall i :: 0 <= i < |r| ==> r[i] in r;
    FilterCounts(list, keep);
    r
  }

  /** Adding a letter under a fresh id and then removing that id gives back the list. */
  lemma RemoveUndoesAddLetter(list: seq<Letter>, id: string)
    requires id !in KeysOf(list, LetterId)
    ensures RemoveRecommendationLetter(AddRecommendationLetter(list, id), id) == list
  {
    var p := (l: Letter) => l.id != id;
    assert forall l :: l in list ==> p(l) by {
      forall l | l in list ensures p(l) {
        var k :| 0 <= k < |list| && list[k] == l;
        assert KeysOf(list, LetterId)[k] == l.id;
      }
    }
    FilterAll(list, p);
    FilterAppend(list, [NewLetter(id)], p);
  }

  // ---------------------------------------------------------------------------------------------
  // The saved profile record

  /** The academic form, every field as the text of its input. */
  datatype AcademicData = AcademicData(
    gpa: string,
    schoolYear: string,
    standardizedTest: string,
    satEBRW: string,
    satMath: string,
    actScore: string,
    englishProficiencyTest: string,
    englishTestScore: string,
    intendedMajor: string)

  datatype NonAcademicData = NonAcademicData(personalStatement: string, legacyStatus: bool, citizenship: string)

  /** `parseFloat(text) || 0`: `NaN` and 0 both give 0. */
  function FloatOrZero(text: string): (v: real)
    ensures ParseFloat(text).None? ==> v == 0.0
    ensures ParseFloat(text).Some? ==> v == ParseFloat(text).value
  {
    match ParseFloat(text)
    case None => 0.0
    case Some(x) => x
  }

  /** `selected === option ? parseInt(text) || 0 : 0`. */
  function GatedInt(selected: string, option: string, text: string): (v: int)
    ensures selected != option ==> v == 0
    ensures selected == option ==> v == IntOrZero(text)
  {
    if selected == option then IntOrZero(text) else 0
  }

  /** The numbers the page derives from the academic form, for saving and for the score alike. */
  datatype Numbers = Numbers(
    gpa: real,
    satEBRW: int,
    satMath: int,
    actScore: int,
    apCourses: int,
    ibScore: int,
    toeflScore: int)

  /** The record `handleSaveProfile` passes to `updateProfile`. */
  datatype ProfileData = ProfileData(
    numbers: Numbers,
    intendedMajor: string,
    personalStatement: string,
    legacyStatus: bool,
    citizenship: string,
    extracurriculars: seq<Activity>,
    recommendationLetters: seq<Letter>,
    applicationComponents: ApplicationComponents)

  /** The record the page passes to `calculateProfileScore`. */
  datatype ScoreInputData = ScoreInputData(
    numbers: Numbers,
    personalStatement: string,
    legacyStatus: bool,
    citizenship: string,
    extracurriculars: seq<Activity>,
    recommendationLetters: seq<Letter>)

  /**
   * The numeric fields of `handleSaveProfile`: the GPA as read, the SAT sections only when SAT is chosen,
   * the ACT score only when ACT is chosen, the TOEFL score only when TOEFL iBT is chosen, AP and IB 0.
   */
  function SavedNumbers(ac: AcademicData): (n: Numbers)
    ensures n.gpa == FloatOrZero(ac.gpa)
    ensures ac.standardizedTest != "SAT" ==> n.satEBRW == 0 && n.satMath == 0
    ensures ac.standardizedTest == "SAT" ==> n.satEBRW == IntOrZero(ac.satEBRW) && n.satMath == IntOrZero(ac.satMath)
    ensures ac.standardizedTest != "ACT" ==> n.actScore == 0
    ensures ac.standardizedTest == "ACT" ==> n.actScore == IntOrZero(ac.actScore)
    ensures ac.englishProficiencyTest != "TOEFL iBT" ==> n.toeflScore == 0
    ensures ac.englishProficiencyTest == "TOEFL iBT" ==> n.toeflScore == IntOrZero(ac.englishTestScore)
    ensures n.apCourses == 0 && n.ibScore == 0
  {
    Numbers(
      FloatOrZero(ac.gpa),
      GatedInt(ac.standardizedTest, "SAT", ac.satEBRW),
      GatedInt(ac.standardizedTest, "SAT", ac.satMath),
      GatedInt(ac.standardizedTest, "ACT", ac.actScore),
      0,
      0,
      GatedInt(ac.englishProficiencyTest, "TOEFL iBT", ac.englishTestScore))
  }

  /** `handleSaveProfile`: the numbers above, the text fields, both lists and the checklist as they stand. */
  function SaveProfile(ac: AcademicData, non: NonAcademicData, activities: seq<Activity>, letters: seq<Letter>,
                       components: ApplicationComponents): (p: ProfileData)
    ensures p.numbers == SavedNumbers(ac)
    ensures p.intendedMajor == ac.intendedMajor
    ensures p.personalStatement == non.personalStatement && p.legacyStatus == non.legacyStatus
    ensures p.citizenship == non.citizenship
    ensures p.extracurriculars == activities && p.recommendationLetters == letters
    ensures p.applicationComponents == components
  {
    ProfileData(SavedNumbers(ac), ac.intendedMajor, non.personalStatement, non.legacyStatus, non.citizenship,
                activities, letters, components)
  }

  /** The score input, written out as the page writes it, next to the save handler. */
  function ScoreInput(ac: AcademicData, non: NonAcademicData, activities: seq<Activity>, letters: seq<Letter>)
    : (s: ScoreInputData)
    ensures s.personalStatement == non.personalStatement && s.legacyStatus == non.legacyStatus
    ensures s.citizenship == non.citizenship
    ensures s.extracurriculars == activities && s.recommendationLetters == letters
  {
    ScoreInputData(
      Numbers(
        FloatOrZero(ac.gpa),
        if ac.standardizedTest == "SAT" then IntOrZero(ac.satEBRW) else 0,
        if ac.standardizedTest == "SAT" then IntOrZero(ac.satMath) else 0,
        if ac.standardizedTest == "ACT" then IntOrZero(ac.actScore) else 0,
        0,
        0,
        if ac.englishProficiencyTest == "TOEFL iBT" then IntOrZero(ac.englishTestScore) else 0),
      non.personalStatement, non.legacyStatus, non.citizenship, activities, letters)
  }

  /** The live score is computed from exactly the numbers a save would store. */
  lemma ScoreInputMatchesSave(ac: AcademicData, non: NonAcademicData, activities: seq<Activity>,
                              letters: seq<Letter>, components: ApplicationComponents)
    ensures ScoreInput(ac, non, activities, letters).numbers == SaveProfile(ac, non, activities, letters, components).numbers
  {
  }

  /** At most one of the SAT and ACT scores is saved as non-zero. */
  lemma AtMostOneTestSaved(ac: AcademicData)
    ensures SavedNumbers(ac).actScore == 0 || (SavedNumbers(ac).satEBRW == 0 && SavedNumbers(ac).satMath == 0)
  {
  }

  /** A SAT section typed as a natural number is saved as that number when SAT is chosen. */
  lemma SavedSatOfNumber(ac: AcademicData, n: nat)
    requires ac.standardizedTest == "SAT" && ac.satMath == NatToString(n)
    ensures SavedNumbers(ac).satMath == n
  {
    IntOrZeroOfNumber(n);
  }
}
