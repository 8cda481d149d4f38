/** `WordClass`: a part of speech (adjective, determiner, lexical verb, ...).

    The known word classes are read from the database at start-up; the model
    takes that array as the parameter `known`. Java does not override `equals`
    here, so classes compare by identity; since every class is loaded exactly
    once per id, datatype equality stands in for identity. */
module WordClasses {
  import opened Wrappers
  import opened JavaText

  datatype WordClass = WordClass(id: int, properName: string, abbreviation: string, contentWord: bool)

  /** What `getWordClass(String)` accepts for `w`, given the already trimmed text `t`. */
  predicate NamedBy(w: WordClass, t: string) {
    EqualsIgnoreCase(w.abbreviation, t) || w.properName == t
  }

  /** `getWordClass(String)`: the first known class whose abbreviation matches the
      trimmed text ignoring letter case, or whose proper name matches it exactly. */
  function GetWordClassByName(known: seq<WordClass>, name: string): (r: Result<WordClass>)
    ensures r.Success? <==> exists w :: w in known && NamedBy(w, Trim(name))
    ensures r.Success? ==> r.value in known && NamedBy(r.value, Trim(name))
    ensures r.Success? ==> exists i :: 0 <= i < |known| && known[i] == r.value
                                      && forall j :: 0 <= j < i ==> !NamedBy(known[j], Trim(name))
    ensures r.Failure? ==> r.error == NoSuchElement
  {
    var t := Trim(name);
    Lookup(known, (w: WordClass) => NamedBy(w, t), NoSuchElement)
  }

  /** `getWordClass(int)`: the first known class with the given id. */
  function GetWordClassById(known: seq<WordClass>, id: int): (r: Result<WordClass>)
    ensures r.Success? <==> exists w :: w in known && w.id == id
    ensures r.Success? ==> r.value in known && r.value.id == id
    ensures r.Failure? ==> r.error == NoSuchElement
  {
    Lookup(known, (w: WordClass) => w.id == id, NoSuchElement)
  }

  /** `compareTo`: word classes are ordered by id. */
  function CompareTo(a: WordClass, b: WordClass): (r: int)
    ensures r == -1 <==> a.id < b.id
    ensures r == 0 <==> a.id == b.id
    ensures r == 1 <==> a.id > b.id
  {
    CompareIds(a.id, b.id)
  }

  /** Padding the name with whitespace never changes the lookup. */
  lemma GetWordClassByNameIgnoresPadding(known: seq<WordClass>, name: string)
    ensures GetWordClassByName(known, Trim(name)) == GetWordClassByName(known, name)
  {
    TrimTwice(name);
  }

  /** The lookup by name returns the first registered class the name fits. */
  lemma GetWordClassByNameFirst(known: seq<WordClass>, k: nat, name: string)
    requires k < |known| && NamedBy(known[k], Trim(name))
    requires forall j :: 0 <= j < k ==> !NamedBy(known[j], Trim(name))
    ensures GetWordClassByName(known, name) == Success(known[k])
  {
    var r := GetWordClassByName(known, name);
    assert known[k] in known;
    var i :| 0 <= i < |known| && known[i] == r.value
             && forall j :: 0 <= j < i ==> !NamedBy(known[j], Trim(name));
    assert i <= k;
  }

  /** With distinct ids, a lookup by a registered class's id finds that class. */
  lemma GetWordClassByIdFindsRegistered(known: seq<WordClass>, w: WordClass)
    requires w in known
    requires forall i, j :: 0 <= i < j < |known| ==> known[i].id != known[j].id
    ensures GetWordClassById(known, w.id) == Success(w)
  {
  }
}
