/**
 * The catalog page: the filter over the read-only catalog, the five orderings of the result, the type
 * toggle and the filter reset.
 */
module UniversitiesPage {
  import opened Wrappers
  import opened Text
  import opened Seqs
  import opened Catalog
  import StableSort

  /** The values of the sort selector; `Default` is the empty string. */
  datatype SortBy = Default | NameAsc | NameDesc | SatAsc | SatDesc

  /** An inclusive `[lo, hi]` pair from a range slider. */
  datatype Range = Range(lo: int, hi: int)

  datatype Filters = Filters(types: seq<string>, sortBy: SortBy, tuitionRange: Range, satRange: Range)

  /** The filter state the page starts with, and the one the reset button restores (the search term is kept). */
  function DefaultFilters(): Filters {
    Filters([], Default, Range(0, 60000), Range(800, 1600))
  }

  // ---------------------------------------------------------------------------------------------
  // Filtering

  /** `parts[i] || fallback` after `parseInt`: a missing part, `NaN` and `0` all give the fallback. */
  function PartOr(parts: seq<string>, i: nat, fallback: int): int {
    if i < |parts| then
      match ParseInt(parts[i])
      case Some(v) => if v == 0 then fallback else v
      case None => fallback
    else fallback
  }

  /**
   * The SAT bounds of a record: its `"min-max"` text split at `'-'`, each half read with `parseInt`, with
   * 800 and 1600 replacing a missing, non-numeric or zero half.
   */
  function SatBounds(satRange: string): (b: (int, int))
    ensures b.0 != 0 && b.1 != 0
    ensures ParseInt(Split(satRange, '-')[0]) in {None, Some(0)} ==> b.0 == 800
    ensures ParseInt(Split(satRange, '-')[0]).Some? && ParseInt(Split(satRange, '-')[0]).value != 0 ==>
      b.0 == ParseInt(Split(satRange, '-')[0]).value
    ensures |Split(satRange, '-')| < 2 ==> b.1 == 1600
    ensures |Split(satRange, '-')| >= 2 && ParseInt(Split(satRange, '-')[1]) in {None, Some(0)} ==> b.1 == 1600
    ensures |Split(satRange, '-')| >= 2 && ParseInt(Split(satRange, '-')[1]).Some? && ParseInt(Split(satRange, '-')[1]).value != 0 ==>
      b.1 == ParseInt(Split(satRange, '-')[1]).value
  {
    var parts := Split(satRange, '-');
    (PartOr(parts, 0, 800), PartOr(parts, 1, 1600))
  }

  /** The bounds of a text that splits into exactly two parts are those parts read with `parseInt`. */
  lemma SatBoundsOfTwoParts(satRange: string, a: string, b: string, lo: int, hi: int)
    requires Split(satRange, '-') == [a, b]
    requires ParseInt(a) == Some(lo) && ParseInt(b) == Some(hi) && lo != 0 && hi != 0
    ensures SatBounds(satRange) == (lo, hi)
  {
  }

  /** A well-formed `"min-max"` text is read back as its two numbers. */
  lemma SatBoundsRoundTrip(lo: nat, hi: nat)
    requires lo > 0 && hi > 0
    ensures SatBounds(NatToString(lo) + "-" + NatToString(hi)) == (lo, hi)
  {
    var a, b := NatToString(lo), NatToString(hi);
    assert Split(a + "-" + b, '-') == [a, b] by {
      NoDashInDigits(a);
      NoDashInDigits(b);
      SplitAtFirst(a, b, '-');
      SplitNoSep(b, '-');
      assert a + "-" + b == a + ['-'] + b;
    }
    assert ParseInt(a) == Some(lo) by {
      ParseIntOfNatToString(lo, []);
      assert a + [] == a;
    }
    assert ParseInt(b) == Some(hi) by {
      ParseIntOfNatToString(hi, []);
      assert b + [] == b;
    }
    SatBoundsOfTwoParts(a + "-" + b, a, b, lo, hi);
  }

  lemma NoDashInDigits(d: string)
    requires forall i :: 0 <= i < |d| ==> IsDigit(d[i])
    ensures '-' !in d
  {
  }

  /** A text with no digits at all falls back to the full scale on both sides. */
  lemma SatBoundsWithoutDigits(satRange: string)
    requires forall i :: 0 <= i < |satRange| ==> !IsDigit(satRange[i])
    ensures SatBounds(satRange) == (800, 1600)
  {
    var parts := Split(satRange, '-');
    JoinSplit(satRange, '-');
    forall k | 0 <= k < |parts| ensures ParseInt(parts[k]) == None {
      NoDigitsInParts(parts, k, satRange);
    }
  }

  lemma {:induction false} NoDigitsInParts(parts: seq<string>, k: nat, s: string)
    requires k < |parts| && Join(parts, "-") == s
    requires forall i :: 0 <= i < |s| ==> !IsDigit(s[i])
    ensures ParseInt(parts[k]) == None
    decreases |parts|
  {
    if k == 0 {
      assert |parts| > 1 ==> s == parts[0] + "-" + Join(parts[1..], "-");
      assert forall i :: 0 <= i < |parts[0]| ==> parts[0][i] == s[i];
      var t := TrimStart(parts[0]);
      assert forall i :: 0 <= i < |t| ==> t[i] == parts[0][|parts[0]| - |t| + i];
    } else {
      var rest := Join(parts[1..], "-");
      assert s == parts[0] + "-" + rest;
      assert forall i :: 0 <= i < |rest| ==> rest[i] == s[|parts[0]| + 1 + i];
      NoDigitsInParts(parts[1..], k - 1, rest);
    }
  }

  predicate MatchesType(u: University, types: seq<string>) {
    |types| == 0 || u.schoolType in types
  }

  predicate MatchesTuition(u: University, r: Range) {
    u.tuition >= r.lo as real && u.tuition <= r.hi as real
  }

  predicate MatchesSat(u: University, r: Range) {
    var b := SatBounds(u.satRange);
    b.1 >= r.lo && b.0 <= r.hi
  }

  /** The four tests every kept record passes. */
  predicate Matches(u: University, f: Filters, term: string) {
    MatchesSearch(u, term) && MatchesType(u, f.types) && MatchesTuition(u, f.tuitionRange) && MatchesSat(u, f.satRange)
  }

  /**
   * The filtered catalog: a subsequence of the catalog (order kept) that holds every record passing all
   * four tests and nothing else.
   */
  function FilterUniversities(catalog: seq<University>, f: Filters, term: string): (r: seq<University>)
    ensures IsSubseq(r, catalog)
    ensures forall u :: u in r ==> u in catalog && Matches(u, f, term)
    ensures forall u :: u in catalog && Matches(u, f, term) ==> u in r
    ensures forall u :: u in catalog ==> multiset(r)[u] == if Matches(u, f, term) then multiset(catalog)[u] else 0
  {
    var keep := (u: University) => Matches(u, f, term);
    FilterCounts(catalog, keep);
    Filter(catalog, keep)
  }

  /** With no search term and no type selected, only the tuition and SAT tests decide. */
  lemma UnconstrainedSearchAndType(u: University, f: Filters)
    requires f.types == []
    ensures Matches(u, f, "") <==> MatchesTuition(u, f.tuitionRange) && MatchesSat(u, f.satRange)
  {
    EmptySearchMatchesAll(u);
  }

  ghost predicate InRange(x: int, lo: int, hi: int) {
    lo <= x <= hi
  }

  /**
   * For a record whose SAT text is `"lo-hi"`, the SAT test holds exactly when the record's interval and
   * the filter's interval share a score: overlap, not containment.
   */
  lemma SatTestIsOverlap(u: University, lo: nat, hi: nat, r: Range)
    requires 0 < lo <= hi && r.lo <= r.hi
    requires u.satRange == NatToString(lo) + "-" + NatToString(hi)
    ensures MatchesSat(u, r) <==> exists x :: InRange(x, lo, hi) && InRange(x, r.lo, r.hi)
  {
    SatBoundsRoundTrip(lo, hi);
    if MatchesSat(u, r) {
      var x := if lo >= r.lo then lo else r.lo;
      assert InRange(x, lo, hi) && InRange(x, r.lo, r.hi);
    }
  }

  /** `"1460-1570"` passes the SAT filter [1500, 1600] but not [1580, 1600]. */
  lemma SatOverlapExample(u: University)
    requires u.satRange == "1460-1570"
    ensures MatchesSat(u, Range(1500, 1600))
    ensures !MatchesSat(u, Range(1580, 1600))
  {
    assert NatToString(1460) + "-" + NatToString(1570) == "1460-1570";
    SatBoundsRoundTrip(1460, 1570);
  }

  /** After a reset only the search term, the tuition slider range and the full SAT scale constrain a record. */
  lemma ResetFiltersKeep(u: University, term: string)
    ensures Matches(u, DefaultFilters(), term) <==>
      MatchesSearch(u, term) && 0.0 <= u.tuition <= 60000.0 && SatBounds(u.satRange).1 >= 800 && SatBounds(u.satRange).0 <= 1600
  {
  }

  /** In particular a reset never hides a record for having a SAT text with no number in it. */
  lemma ResetKeepsUnparsableSat(u: University)
    requires forall i :: 0 <= i < |u.satRange| ==> !IsDigit(u.satRange[i])
    requires 0.0 <= u.tuition <= 60000.0
    ensures Matches(u, DefaultFilters(), "")
  {
    SatBoundsWithoutDigits(u.satRange);
    EmptySearchMatchesAll(u);
  }

  // ---------------------------------------------------------------------------------------------
  // Type toggle

  /** `types.filter(t => t !== type)`. */
  function RemoveType(types: seq<string>, t: string): seq<string> {
    Filter(types, x => x != t)
  }

  /** A type button: a selected type is removed (every copy), an unselected one is appended. */
  function ToggleType(types: seq<string>, t: string): (r: seq<string>)
    ensures t !in types ==> r == types + [t]
    ensures t in types ==> t !in r && IsSubseq(r, types)
    ensures forall x :: x != t ==> (x in r <==> x in types)
  {
    if t in types then RemoveType(types, t) else types + [t]
  }

  /** Toggling the same type twice restores the membership, and the very list when the type was absent. */
  lemma ToggleTwice(types: seq<string>, t: string)
    ensures forall x :: x in ToggleType(ToggleType(types, t), t) <==> x in types
    ensures t !in types ==> ToggleType(ToggleType(types, t), t) == types
  {
    if t !in types {
      FilterAppend(types, [t], x => x != t);
      FilterAll(types, x => x != t);
      assert Filter([t], x => x != t) == [];
    }
  }

  // ---------------------------------------------------------------------------------------------
  // Sorting

  /** Images from one of the two listed logo hosts. */
  predicate HasLogo(u: University) {
    Contains(u.image, "upload.wikimedia.org") || Contains(u.image, "logos-world.net")
  }

  predicate LacksLogo(u: University) {
    !HasLogo(u)
  }

  /** `parseInt(satRange.split('-')[0])`; no fallback here. */
  function SatMin(u: University): Option<int> {
    ParseInt(Split(u.satRange, '-')[0])
  }

  /** `parseInt(satRange.split('-')[1])`; a missing half is `parseInt(undefined)`, which is `NaN`. */
  function SatMax(u: University): Option<int> {
    var parts := Split(u.satRange, '-');
    if |parts| > 1 then ParseInt(parts[1]) else None
  }

  /**
   * The comparator handed to `sort`. A `NaN` difference is read as 0, as the sort's SortCompare step does
   * (ECMA-262 10th edition, section 22.1.3.27.1).
   */
  function Compare(order: SortBy, lang: Lang, a: University, b: University): int {
    match order
    case NameAsc => CompareText(DisplayName(a, lang), DisplayName(b, lang))
    case NameDesc => CompareText(DisplayName(b, lang), DisplayName(a, lang))
    case SatAsc =>
      if SatMin(a).Some? && SatMin(b).Some? then SatMin(a).value - SatMin(b).value else 0
    case SatDesc =>
      if SatMax(a).Some? && SatMax(b).Some? then SatMax(b).value - SatMax(a).value else 0
    case Default =>
      if HasLogo(a) && !HasLogo(b) then -1
      else if !HasLogo(a) && HasLogo(b) then 1
      else 0
  }

  /** The comparator as the function value handed to `sort`. */
  function Comparator(order: SortBy, lang: Lang): (University, University) -> int {
    (a, b) => Compare(order, lang, a, b)
  }

  /** `[...list].sort(comparator)`: a permutation of the list. */
  function SortUniversities(list: seq<University>, order: SortBy, lang: Lang): (r: seq<University>)
    ensures multiset(r) == multiset(list)
  {
    StableSort.Sort(list, Comparator(order, lang))
  }

  /** Both name orders and the logo order are total preorders on any records. */
  lemma AlwaysConsistent(elems: set<University>, order: SortBy, lang: Lang)
    requires order in {Default, NameAsc, NameDesc}
    ensures StableSort.Consistent(elems, Comparator(order, lang))
  {
    var cmp := Comparator(order, lang);
    forall a, b | a in elems && b in elems ensures cmp(a, b) <= 0 || cmp(b, a) <= 0 {
      CompareTextAntisymmetric(DisplayName(a, lang), DisplayName(b, lang));
    }
    forall a, b, c | a in elems && b in elems && c in elems && cmp(a, b) <= 0 && cmp(b, c) <= 0
      ensures cmp(a, c) <= 0
    {
      if order == NameAsc {
        CompareTextTransitive(DisplayName(a, lang), DisplayName(b, lang), DisplayName(c, lang));
      } else if order == NameDesc {
        CompareTextTransitive(DisplayName(c, lang), DisplayName(b, lang), DisplayName(a, lang));
      }
    }
  }

  /** The SAT orders are total preorders on records whose sort key parses. */
  lemma SatConsistent(elems: set<University>, order: SortBy, lang: Lang)
    requires order in {SatAsc, SatDesc}
    requires order == SatAsc ==> forall u :: u in elems ==> SatMin(u).Some?
    requires order == SatDesc ==> forall u :: u in elems ==> SatMax(u).Some?
    ensures StableSort.Consistent(elems, Comparator(order, lang))
  {
  }

  /**
   * Every name order and the default order put the list in order, and so do the SAT orders when every
   * record's SAT key parses; sorting the result again changes nothing.
   */
  lemma SortedAndIdempotent(list: seq<University>, order: SortBy, lang: Lang)
    requires order == SatAsc ==> forall u :: u in list ==> SatMin(u).Some?
    requires order == SatDesc ==> forall u :: u in list ==> SatMax(u).Some?
    ensures StableSort.Sorted(SortUniversities(list, order, lang), Comparator(order, lang))
    ensures SortUniversities(SortUniversities(list, order, lang), order, lang) == SortUniversities(list, order, lang)
  {
    var elems := set u | u in list;
    if order in {SatAsc, SatDesc} {
      SatConsistent(elems, order, lang);
    } else {
      AlwaysConsistent(elems, order, lang);
    }
    StableSort.SortSorted(list, Comparator(order, lang), elems);
    StableSort.SortIdempotent(list, Comparator(order, lang));
  }

  /**
   * Stability under every order: the records the comparator ranks level with a listed record `y` (equal
   * names, equal SAT bounds, or the same logo group) keep their filtered order.
   */
  lemma SortKeepsTies(list: seq<University>, order: SortBy, lang: Lang, y: University)
    requires y in list
    requires order == SatAsc ==> forall u :: u in list ==> SatMin(u).Some?
    requires order == SatDesc ==> forall u :: u in list ==> SatMax(u).Some?
    ensures Filter(SortUniversities(list, order, lang), StableSort.TiesWith(Comparator(order, lang), y))
         == Filter(list, StableSort.TiesWith(Comparator(order, lang), y))
  {
    var elems := set u | u in list;
    if order in {SatAsc, SatDesc} {
      SatConsistent(elems, order, lang);
    } else {
      AlwaysConsistent(elems, order, lang);
    }
    StableSort.SortKeepsTies(list, Comparator(order, lang), elems, y);
  }

  /**
   * The default order is a stable partition: the records with a logo-host image, in their filtered order,
   * followed by the others, in their filtered order.
   */
  lemma DefaultSortIsStablePartition(list: seq<University>, lang: Lang)
    ensures SortUniversities(list, Default, lang) == Filter(list, HasLogo) + Filter(list, LacksLogo)
  {
    StableSort.SortIsStablePartition(list, Comparator(Default, lang), HasLogo, LacksLogo);
  }

  /** What the page lists: the filtered catalog in the selected order, a permutation of the filtered catalog. */
  function Visible(catalog: seq<University>, f: Filters, term: string, lang: Lang): (r: seq<University>)
    ensures multiset(r) == multiset(FilterUniversities(catalog, f, term))
    ensures forall u :: u in r <==> u in catalog && Matches(u, f, term)
  {
    var kept := FilterUniversities(catalog, f, term);
    var r := SortUniversities(kept, f.sortBy, lang);
    assert forall u :: u in r <==> u in multiset(kept);
    r
  }
}
