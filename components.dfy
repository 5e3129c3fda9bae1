/**
 * The application-components checklist shared by the calculator and the student profile: eight flags, one
 * per part of an application, updated one key at a time with an object spread.
 */
module Components {

  /** The eight checklist keys. */
  datatype Component =
    | SecondarySchoolGPA | SecondarySchoolRank | SecondarySchoolRecord | CollegePrepProgram
    | Recommendations | ExtracurricularActivities | Essay | TestScores

  datatype ApplicationComponents = ApplicationComponents(
    secondarySchoolGPA: bool,
    secondarySchoolRank: bool,
    secondarySchoolRecord: bool,
    collegePrepProgram: bool,
    recommendations: bool,
    extracurricularActivities: bool,
    essay: bool,
    testScores: bool)

  /** The initial checklist: nothing checked. */
  function NoneChecked(): ApplicationComponents {
    ApplicationComponents(false, false, false, false, false, false, false, false)
  }

  /** `components[key]`. */
  function Get(c: ApplicationComponents, key: Component): bool {
    match key
    case SecondarySchoolGPA => c.secondarySchoolGPA
    case SecondarySchoolRank => c.secondarySchoolRank
    case SecondarySchoolRecord => c.secondarySchoolRecord
    case CollegePrepProgram => c.collegePrepProgram
    case Recommendations => c.recommendations
    case ExtracurricularActivities => c.extracurricularActivities
    case Essay => c.essay
    case TestScores => c.testScores
  }

  /**
   * `{ ...prev, [key]: value }` (`handleApplicationComponentChange`): the named flag takes the value and
   * every other flag keeps its own.
   */
  function Set(c: ApplicationComponents, key: Component, value: bool): (r: ApplicationComponents)
    ensures Get(r, key) == value
    ensures forall other :: other != key ==> Get(r, other) == Get(c, other)
  {
    match key
    case SecondarySchoolGPA => c.(secondarySchoolGPA := value)
    case SecondarySchoolRank => c.(secondarySchoolRank := value)
    case SecondarySchoolRecord => c.(secondarySchoolRecord := value)
    case CollegePrepProgram => c.(collegePrepProgram := value)
    case Recommendations => c.(recommendations := value)
    case ExtracurricularActivities => c.(extracurricularActivities := value)
    case Essay => c.(essay := value)
    case TestScores => c.(testScores := value)
  }

  /** Two checklists that agree on every key are the same checklist. */
  lemma Extensionality(a: ApplicationComponents, b: ApplicationComponents)
    requires forall key :: Get(a, key) == Get(b, key)
    ensures a == b
  {
    assert Get(a, SecondarySchoolGPA) == Get(b, SecondarySchoolGPA);
    assert Get(a, SecondarySchoolRank) == Get(b, SecondarySchoolRank);
    assert Get(a, SecondarySchoolRecord) == Get(b, SecondarySchoolRecord);
    assert Get(a, CollegePrepProgram) == Get(b, CollegePrepProgram);
    assert Get(a, Recommendations) == Get(b, Recommendations);
    assert Get(a, ExtracurricularActivities) == Get(b, ExtracurricularActivities);
    assert Get(a, Essay) == Get(b, Essay);
    assert Get(a, TestScores) == Get(b, TestScores);
  }

  /** Setting a flag to the value it already has changes nothing. */
  lemma SetSameValue(c: ApplicationComponents, key: Component)
    ensures Set(c, key, Get(c, key)) == c
  {
    Extensionality(Set(c, key, Get(c, key)), c);
  }

  /** A card click passes the negation of the shown flag: it flips exactly that one flag. */
  function Toggle(c: ApplicationComponents, key: Component): (r: ApplicationComponents)
    ensures Get(r, key) == !Get(c, key)
    ensures forall other :: other != key ==> Get(r, other) == Get(c, other)
  {
    Set(c, key, !Get(c, key))
  }

  /** The second of two writes to the same flag wins. */
  lemma SetTwice(c: ApplicationComponents, key: Component, v: bool, w: bool)
    ensures Set(Set(c, key, v), key, w) == Set(c, key, w)
  {
    match key {
      case SecondarySchoolGPA =>
      case SecondarySchoolRank =>
      case SecondarySchoolRecord =>
      case CollegePrepProgram =>
      case Recommendations =>
      case ExtracurricularActivities =>
      case Essay =>
      case TestScores =>
    }
  }

  /** Clicking the same card twice restores the checklist. */
  lemma ToggleTwice(c: ApplicationComponents, key: Component)
    ensures Toggle(Toggle(c, key), key) == c
  {
    SetTwice(c, key, !Get(c, key), Get(c, key));
    SetSameValue(c, key);
  }
}
