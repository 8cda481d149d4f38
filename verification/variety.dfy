/** `Variety`: a regional variety of English (British, American, Australian, ...).

    The known varieties are read from the database at start-up; the model takes
    that array as the parameter `known`. Java's `equals` compares id, proper name
    and abbreviation, which is what datatype equality does. */
module Varieties {
  import opened Wrappers
  import opened JavaText

  datatype Variety = Variety(id: int, properName: string, abbreviation: string)

  /** What `getVariety(String)` accepts for `v`, given the already trimmed text `t`. */
  predicate NamedBy(v: Variety, t: string) {
    EqualsIgnoreCase(v.abbreviation, t) || v.properName == t
  }

  /** `getVariety(String)`: the first known variety whose abbreviation matches the
      trimmed text ignoring letter case, or whose proper name matches it exactly. */
  function GetVarietyByName(known: seq<Variety>, name: string): (r: Result<Variety>)
    ensures r.Success? <==> exists v :: v in known && NamedBy(v, Trim(name))
    ensures r.Success? ==> r.value in known && NamedBy(r.value, Trim(name))
    ensures r.Success? ==> exists i :: 0 <= i < |known| && known[i] == r.value
                                      && forall j :: 0 <= j < i ==> !NamedBy(known[j], Trim(name))
    ensures r.Failure? ==> r.error == NoSuchElement
  {
    var t := Trim(name);
    Lookup(known, (v: Variety) => NamedBy(v, t), NoSuchElement)
  }

  /** `getVariety(int)`: the first known variety with the given id. */
  function GetVarietyById(known: seq<Variety>, id: int): (r: Result<Variety>)
    ensures r.Success? <==> exists v :: v in known && v.id == id
    ensures r.Success? ==> r.value in known && r.value.id == id
    ensures r.Failure? ==> r.error == NoSuchElement
  {
    Lookup(known, (v: Variety) => v.id == id, NoSuchElement)
  }

  /** `getPreferredVariety()`: the variety named by the "variety.preferred" setting. */
  function GetPreferredVariety(known: seq<Variety>, setting: string): (r: Result<Variety>)
    ensures r.Success? ==> r.value in known && NamedBy(r.value, Trim(setting))
    ensures r.Failure? <==> forall v :: v in known ==> !NamedBy(v, Trim(setting))
  {
    GetVarietyByName(known, setting)
  }

  /** `compareTo`: varieties are ordered by id. */
  function CompareTo(a: Variety, b: Variety): (r: int)
    ensures r == -1 <==> a.id < b.id
    ensures r == 0 <==> a.id == b.id
    ensures r == 1 <==> a.id > b.id
  {
    CompareIds(a.id, b.id)
  }

  /** With distinct ids, a lookup by a registered variety's id finds that variety. */
  lemma GetVarietyByIdFindsRegistered(known: seq<Variety>, v: Variety)
    requires v in known
    requires forall i, j :: 0 <= i < j < |known| ==> known[i].id != known[j].id
    ensures GetVarietyById(known, v.id) == Success(v)
  {
  }

  /** Padding the name with whitespace never changes the lookup. */
  lemma GetVarietyByNameIgnoresPadding(known: seq<Variety>, name: string)
    ensures GetVarietyByName(known, Trim(name)) == GetVarietyByName(known, name)
  {
    TrimTwice(name);
  }

  /** The lookup by name returns the first registered variety the name fits. */
  lemma GetVarietyByNameFirst(known: seq<Variety>, k: nat, name: string)
    requires k < |known| && NamedBy(known[k], Trim(name))
    requires forall j :: 0 <= j < k ==> !NamedBy(known[j], Trim(name))
    ensures GetVarietyByName(known, name) == Success(known[k])
  {
    var r := GetVarietyByName(known, name);
    assert known[k] in known;
    var i :| 0 <= i < |known| && known[i] == r.value
             && forall j :: 0 <= j < i ==> !NamedBy(known[j], Trim(name));
    assert i <= k;
  }
}
