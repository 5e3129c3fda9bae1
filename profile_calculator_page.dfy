/**
 * The quick profile calculator: a score out of 80 built from the GPA and one standardized test. The
 * application-components checklist the page keeps beside it is `Components.Toggle`: a card click passes the
 * negated flag to the handler.
 *
 * Form fields hold the text of their inputs. JavaScript numbers are modelled as `Option<real>`, where
 * `None` stands for `NaN`; arithmetic on `NaN` gives `NaN`.
 */
module ProfileCalculatorPage {
  import opened Wrappers
  import opened Text

  /** The test selector's three options: none chosen, SAT or ACT. */
  datatype TestType = NoTest | Sat | Act

  /** The inputs `calculateScore` reads. */
  datatype ScoreForm = ScoreForm(gpa: string, testType: TestType, satMath: string, satEBRW: string, actScore: string)

  /** The points each part is worth at its maximum. */
  const PartPoints: real := 40.0

  /** `Math.round`: the nearest integer, halves rounded up. */
  function Round(x: real): (n: int)
    ensures n as real - 0.5 <= x < n as real + 0.5
  {
    (x + 0.5).Floor
  }

  lemma RoundMonotone(x: real, y: real)
    requires x <= y
    ensures Round(x) <= Round(y)
  {
  }

  /** `a + b` where either may be `NaN`. */
  function Plus(a: Option<real>, b: Option<real>): (r: Option<real>)
    ensures r.Some? <==> a.Some? && b.Some?
  {
    if a.Some? && b.Some? then Some(a.value + b.value) else None
  }

  /** `v / max * 40`. */
  function Scaled(v: Option<real>, max: real): Option<real>
    requires max > 0.0
  {
    if v.Some? then Some(v.value / max * PartPoints) else None
  }

  function IntToNumber(v: Option<int>): Option<real> {
    if v.Some? then Some(v.value as real) else None
  }

  // ---------------------------------------------------------------------------------------------
  // The formula

  /** What `parseFloat` and `parseInt` make of each field's text. */
  datatype Readings = Readings(gpa: Option<real>, satMath: Option<int>, satEBRW: Option<int>, act: Option<int>)

  function Read(f: ScoreForm): (r: Readings)
    ensures r.gpa.None? <==> DigitPrefix(Unsigned(f.gpa)) == [] && FractionDigits(Unsigned(f.gpa)) == []
    ensures r.act.None? <==> DigitPrefix(Unsigned(f.actScore)) == []
  {
    Readings(ParseFloat(f.gpa), ParseInt(f.satMath), ParseInt(f.satEBRW), ParseInt(f.actScore))
  }

  /** GPA points: nothing for an empty field, otherwise the GPA as a share of 4.0, times 40. */
  function GpaPoints(f: ScoreForm, r: Readings): Option<real> {
    if f.gpa == [] then Some(0.0)
    else
      match r.gpa
      case None => None
      case Some(g) => Some(g / 4.0 * PartPoints)
  }

  /** Whether the SAT term applies: SAT chosen and both section fields filled in. */
  predicate UsesSat(f: ScoreForm) {
    f.testType == Sat && f.satMath != [] && f.satEBRW != []
  }

  /** Whether the ACT term applies: ACT chosen and its field filled in. */
  predicate UsesAct(f: ScoreForm) {
    f.testType == Act && f.actScore != []
  }

  /**
   * Test points: the SAT total as a share of 1600, or the ACT score as a share of 36, times 40; nothing
   * when no test term applies.
   */
  function TestPoints(f: ScoreForm, r: Readings): Option<real> {
    if UsesSat(f) then
      match (r.satMath, r.satEBRW)
      case (Some(m), Some(e)) => Some((m + e) as real / 1600.0 * PartPoints)
      case _ => None
    else if UsesAct(f) then
      match r.act
      case Some(a) => Some(a as real / 36.0 * PartPoints)
      case None => None
    else Some(0.0)
  }

  /** `Math.round` on a number that may be `NaN`. */
  function RoundNumber(x: Option<real>): (r: Option<int>)
    ensures r.Some? <==> x.Some?
    ensures r.Some? ==> r.value as real - 0.5 <= x.value < r.value as real + 0.5
  {
    if x.Some? then Some(Round(x.value)) else None
  }

  /** The score for given readings: the two parts added and rounded. */
  function ScoreOf(f: ScoreForm, r: Readings): Option<int> {
    RoundNumber(Plus(GpaPoints(f, r), TestPoints(f, r)))
  }

  /** The profile score; `None` when a field in use does not parse. */
  function Score(f: ScoreForm): Option<int> {
    ScoreOf(f, Read(f))
  }

  /** `calculateScore`: start from 0, add the GPA term, add at most one test term, round. */
  method CalculateScore(f: ScoreForm) returns (result: Option<int>)
    ensures result == Score(f)
  {
    var score: Option<real> := Some(0.0);
    if f.gpa != [] {
      score := Plus(score, Scaled(ParseFloat(f.gpa), 4.0));
    }
    if f.testType == Sat && f.satMath != [] && f.satEBRW != [] {
      var satTotal := Plus(IntToNumber(ParseInt(f.satMath)), IntToNumber(ParseInt(f.satEBRW)));
      score := Plus(score, Scaled(satTotal, 1600.0));
    } else if f.testType == Act && f.actScore != [] {
      score := Plus(score, Scaled(IntToNumber(ParseInt(f.actScore)), 36.0));
    }
    result := RoundNumber(score);
    GpaStep(f, Read(f));
    TestStep(f, Read(f), if f.gpa != [] then Plus(Some(0.0), Scaled(ParseFloat(f.gpa), 4.0)) else Some(0.0));
  }

  /** The GPA step of `calculateScore` yields the GPA points. */
  lemma GpaStep(f: ScoreForm, r: Readings)
    ensures (if f.gpa != [] then Plus(Some(0.0), Scaled(r.gpa, 4.0)) else Some(0.0)) == GpaPoints(f, r)
  {
  }

  /** The test step of `calculateScore` adds the test points. */
  lemma TestStep(f: ScoreForm, r: Readings, before: Option<real>)
    ensures (if UsesSat(f) then Plus(before, Scaled(Plus(IntToNumber(r.satMath), IntToNumber(r.satEBRW)), 1600.0))
             else if UsesAct(f) then Plus(before, Scaled(IntToNumber(r.act), 36.0))
             else before)
            == Plus(before, TestPoints(f, r))
  {
  }

  // ---------------------------------------------------------------------------------------------
  // What the formula promises

  /** An untouched form scores 0, whatever the hidden test fields hold. */
  lemma EmptyFormScoresZero(f: ScoreForm, r: Readings)
    requires f.gpa == [] && f.testType == NoTest
    ensures ScoreOf(f, r) == Some(0)
  {
  }

  /** The declared input ranges: GPA 0–4.0, each SAT section 200–800, ACT 1–36, for the fields in use. */
  predicate InDeclaredRanges(f: ScoreForm, r: Readings) {
    && (f.gpa != [] ==> r.gpa.Some? && 0.0 <= r.gpa.value <= 4.0)
    && (UsesSat(f) ==>
          && r.satMath.Some? && 200 <= r.satMath.value <= 800
          && r.satEBRW.Some? && 200 <= r.satEBRW.value <= 800)
    && (UsesAct(f) ==> r.act.Some? && 1 <= r.act.value <= 36)
  }

  /** Within the declared ranges the score is a number between 0 and 80. */
  lemma ScoreBounds(f: ScoreForm, r: Readings)
    requires InDeclaredRanges(f, r)
    ensures ScoreOf(f, r).Some? && 0 <= ScoreOf(f, r).value <= 80
  {
    var g, t := GpaPoints(f, r).value, TestPoints(f, r).value;
    assert 0.0 <= g <= 40.0;
    assert 0.0 <= t <= 40.0;
    RoundMonotone(0.0, g + t);
    RoundMonotone(g + t, 80.0);
  }

  /** A perfect GPA with a perfect SAT scores the full 80. */
  lemma PerfectScore(f: ScoreForm, r: Readings)
    requires f.gpa != [] && r.gpa == Some(4.0)
    requires UsesSat(f) && r.satMath == Some(800) && r.satEBRW == Some(800)
    ensures ScoreOf(f, r) == Some(80)
  {
  }

  /** The same, for the text a student would type. */
  lemma PerfectScoreExample(f: ScoreForm)
    requires f == ScoreForm("4", Sat, "800", "800", "")
    ensures Score(f) == Some(80)
  {
    ParseFloatOfNatToString(4);
    assert NatToString(4) == "4";
    ParseIntOfNatToString(800, []);
    EightHundredDigits();
    assert NatToString(800) + [] == "800";
    PerfectScore(f, Read(f));
  }

  /** The decimal digits of 800. */
  lemma EightHundredDigits()
    ensures NatToString(800) == "800"
  {
    assert NatToString(8) == ['8'];
    assert DigitChar(0) == '0';
    assert NatToString(80) == NatToString(8) + [DigitChar(0)];
    assert NatToString(800) == NatToString(80) + [DigitChar(0)];
  }

  /** More points in each part never lower the score. */
  lemma ScoreMonotone(f1: ScoreForm, r1: Readings, f2: ScoreForm, r2: Readings)
    requires GpaPoints(f1, r1).Some? && GpaPoints(f2, r2).Some?
    requires GpaPoints(f1, r1).value <= GpaPoints(f2, r2).value
    requires TestPoints(f1, r1).Some? && TestPoints(f2, r2).Some?
    requires TestPoints(f1, r1).value <= TestPoints(f2, r2).value
    ensures ScoreOf(f1, r1).Some? && ScoreOf(f2, r2).Some? && ScoreOf(f1, r1).value <= ScoreOf(f2, r2).value
  {
    RoundMonotone(GpaPoints(f1, r1).value + TestPoints(f1, r1).value,
                  GpaPoints(f2, r2).value + TestPoints(f2, r2).value);
  }

  /** A higher GPA reading never lowers the score. */
  lemma ScoreMonotoneInGpa(f: ScoreForm, r: Readings, lower: real, higher: real)
    requires f.gpa != [] && lower <= higher && TestPoints(f, r).Some?
    ensures ScoreOf(f, r.(gpa := Some(lower))).Some? && ScoreOf(f, r.(gpa := Some(higher))).Some?
    ensures ScoreOf(f, r.(gpa := Some(lower))).value <= ScoreOf(f, r.(gpa := Some(higher))).value
  {
    ScoreMonotone(f, r.(gpa := Some(lower)), f, r.(gpa := Some(higher)));
  }

  /** Higher SAT section readings never lower the score. */
  lemma ScoreMonotoneInSat(f: ScoreForm, r: Readings, math1: int, ebrw1: int, math2: int, ebrw2: int)
    requires UsesSat(f) && math1 <= math2 && ebrw1 <= ebrw2 && GpaPoints(f, r).Some?
    ensures ScoreOf(f, r.(satMath := Some(math1), satEBRW := Some(ebrw1))).Some?
    ensures ScoreOf(f, r.(satMath := Some(math2), satEBRW := Some(ebrw2))).Some?
    ensures ScoreOf(f, r.(satMath := Some(math1), satEBRW := Some(ebrw1))).value
         <= ScoreOf(f, r.(satMath := Some(math2), satEBRW := Some(ebrw2))).value
  {
    ScoreMonotone(f, r.(satMath := Some(math1), satEBRW := Some(ebrw1)),
                  f, r.(satMath := Some(math2), satEBRW := Some(ebrw2)));
  }

  /** A higher ACT reading never lowers the score. */
  lemma ScoreMonotoneInAct(f: ScoreForm, r: Readings, act1: int, act2: int)
    requires UsesAct(f) && act1 <= act2 && GpaPoints(f, r).Some?
    ensures ScoreOf(f, r.(act := Some(act1))).Some? && ScoreOf(f, r.(act := Some(act2))).Some?
    ensures ScoreOf(f, r.(act := Some(act1))).value <= ScoreOf(f, r.(act := Some(act2))).value
  {
    ScoreMonotone(f, r.(act := Some(act1)), f, r.(act := Some(act2)));
  }

  /** At most one test counts: the fields of the test not chosen never affect the score. */
  lemma OnlyChosenTestCounts(f: ScoreForm, r: Readings, math: string, ebrw: string, act: string,
                             m: Option<int>, e: Option<int>, a: Option<int>)
    ensures f.testType == Sat ==> ScoreOf(f.(actScore := act), r.(act := a)) == ScoreOf(f, r)
    ensures f.testType == Act ==> ScoreOf(f.(satMath := math, satEBRW := ebrw), r.(satMath := m, satEBRW := e)) == ScoreOf(f, r)
    ensures f.testType == NoTest ==>
      ScoreOf(f.(satMath := math, satEBRW := ebrw, actScore := act), r.(satMath := m, satEBRW := e, act := a)) == ScoreOf(f, r)
  {
  }

  /** Each reading depends on its own field only. */
  lemma ReadFieldwise(f: ScoreForm, math: string, ebrw: string, act: string)
    ensures Read(f.(actScore := act)) == Read(f).(act := ParseInt(act))
    ensures Read(f.(satMath := math, satEBRW := ebrw)) == Read(f).(satMath := ParseInt(math), satEBRW := ParseInt(ebrw))
  {
  }

  /** With SAT chosen, whatever is typed in the ACT field leaves the score as it is. */
  lemma ActFieldIgnoredUnderSat(f: ScoreForm, act: string)
    requires f.testType == Sat
    ensures Score(f.(actScore := act)) == Score(f)
  {
    ReadFieldwise(f, f.satMath, f.satEBRW, act);
    OnlyChosenTestCounts(f, Read(f), f.satMath, f.satEBRW, act, None, None, ParseInt(act));
  }

  /** With ACT chosen, whatever is typed in the SAT fields leaves the score as it is. */
  lemma SatFieldsIgnoredUnderAct(f: ScoreForm, math: string, ebrw: string)
    requires f.testType == Act
    ensures Score(f.(satMath := math, satEBRW := ebrw)) == Score(f)
  {
    ReadFieldwise(f, math, ebrw, f.actScore);
    OnlyChosenTestCounts(f, Read(f), math, ebrw, f.actScore, ParseInt(math), ParseInt(ebrw), None);
  }
}
