/**
 * The read-only university catalog shared by all pages: the record shape (the union of the interfaces the
 * pages declare), lookup by id and the three-field search test.
 */
module Catalog {
  import opened Wrappers
  import opened Text
  import Seqs

  /** The two display locales. */
  datatype Lang = Ko | En

  datatype DegreeTypes = DegreeTypes(bachelors: bool, masters: bool, doctoral: bool)

  datatype AcademicInfo = AcademicInfo(graduationRate: Option<real>, degreeTypes: Option<DegreeTypes>)

  /** One catalog record; `schoolType` is the JSON field `type`. Tuition is any finite number. */
  datatype University = University(
    id: string,
    name: string,
    englishName: string,
    location: string,
    tuition: real,
    acceptanceRate: real,
    satRange: string,
    actRange: string,
    image: string,
    schoolType: string,
    size: string,
    estimatedGPA: Option<real>,
    academicInfo: Option<AcademicInfo>,
    programs: Option<seq<string>>)

  function IdOf(u: University): string {
    u.id
  }

  /** `list.map(u => u.id)`. */
  function IdsOf(list: seq<University>): (ids: seq<string>)
    ensures |ids| == |list|
    ensures forall i :: 0 <= i < |list| ==> ids[i] == list[i].id
  {
    Seqs.KeysOf(list, IdOf)
  }

  lemma IdsOfAppend(list: seq<University>, u: University)
    ensures IdsOf(list + [u]) == IdsOf(list) + [u.id]
  {
  }

  /** `catalog.find(u => u.id === id)`: the first record with that id, or `undefined`. */
  function FindById(catalog: seq<University>, id: string): (r: Option<University>)
    ensures r.None? <==> id !in IdsOf(catalog)
    ensures r.Some? ==> r.value in catalog && r.value.id == id
    decreases |catalog|
  {
    if catalog == [] then None
    else if catalog[0].id == id then Some(catalog[0])
    else
      assert IdsOf(catalog) == [catalog[0].id] + IdsOf(catalog[1..]);
      FindById(catalog[1..], id)
  }

  /** The record found is the first one with that id: no record before it carries the id. */
  lemma {:induction false} FindByIdFirst(catalog: seq<University>, id: string)
    requires FindById(catalog, id).Some?
    ensures exists k :: 0 <= k < |catalog| && catalog[k] == FindById(catalog, id).value
                        && forall i :: 0 <= i < k ==> catalog[i].id != id
    decreases |catalog|
  {
    if catalog[0].id == id {
      assert catalog[0] == FindById(catalog, id).value;
    } else {
      var rest := catalog[1..];
      assert FindById(catalog, id) == FindById(rest, id);
      FindByIdFirst(rest, id);
      var k :| 0 <= k < |rest| && rest[k] == FindById(rest, id).value && forall i :: 0 <= i < k ==> rest[i].id != id;
      assert catalog[k + 1] == rest[k];
      assert forall i :: 0 <= i < k + 1 ==> catalog[i].id != id by {
        forall i | 0 <= i < k + 1 ensures catalog[i].id != id {
          if i > 0 {
            assert catalog[i] == rest[i - 1];
          }
        }
      }
    }
  }

  /** When ids are unique in the catalog, looking up the id of a catalog record finds that record. */
  lemma FindByIdUnique(catalog: seq<University>, u: University)
    requires DistinctIds(catalog) && u in catalog
    ensures FindById(catalog, u.id) == Some(u)
  {
    var j :| 0 <= j < |catalog| && catalog[j] == u;
    assert IdsOf(catalog)[j] == u.id;
    var r := FindById(catalog, u.id);
    var k :| 0 <= k < |catalog| && catalog[k] == r.value;
    assert catalog[k].id == catalog[j].id;
  }

  /** No two catalog records share an id. */
  ghost predicate DistinctIds(list: seq<University>) {
    forall i, j :: 0 <= i < j < |list| ==> list[i].id != list[j].id
  }

  /** The name shown in the given locale. */
  function DisplayName(u: University, lang: Lang): string {
    if lang == Ko then u.name else u.englishName
  }

  /**
   * The search test shared by the catalog page and the comparison search: the lower-cased term occurs in
   * the lower-cased name, English name or location.
   */
  predicate MatchesSearch(u: University, term: string) {
    var t := Lower(term);
    Contains(Lower(u.name), t) || Contains(Lower(u.englishName), t) || Contains(Lower(u.location), t)
  }

  /** An empty search term matches every record. */
  lemma EmptySearchMatchesAll(u: University)
    ensures MatchesSearch(u, "")
  {
    assert StartsWith(Lower(u.name), Lower(""));
  }
}
