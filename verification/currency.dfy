/** `CurrencyCharacter`: a currency sign with the lemmas to read it as, in the
    singular ("dollar") and in the plural ("dollars").

    The known signs are read from the database at start-up; the model takes that
    array as the parameter `known`. */
module Currency {
  import opened Wrappers
  import opened JavaText

  datatype CurrencyCharacter = CurrencyCharacter(character: char, singularLemma: string, pluralLemma: string)

  /** `getCurrencyChar(char)`: the first known sign equal to `c`. */
  function GetCurrencyChar(known: seq<CurrencyCharacter>, c: char): (r: Result<CurrencyCharacter>)
    ensures r.Success? <==> exists k :: k in known && k.character == c
    ensures r.Success? ==> r.value in known && r.value.character == c
    ensures r.Success? ==> exists i :: 0 <= i < |known| && known[i] == r.value
                                      && forall j :: 0 <= j < i ==> known[j].character != c
    ensures r.Failure? ==> r.error == NoSuchElement
  {
    Lookup(known, (k: CurrencyCharacter) => k.character == c, NoSuchElement)
  }

  /** `getCurrencyChar(String)`: the text must be a single Java character. */
  function GetCurrencyCharOfString(known: seq<CurrencyCharacter>, s: string): (r: Result<CurrencyCharacter>)
    ensures JavaLength(s) != 1 ==> r == Failure(IllegalArgument)
    ensures JavaLength(s) == 1 ==> |s| == 1 && r == GetCurrencyChar(known, s[0])
  {
    JavaLengthOne(s);
    if JavaLength(s) != 1 then Failure(IllegalArgument) else GetCurrencyChar(known, s[0])
  }

  /** `isCurrencyCharacter(char)`. */
  predicate IsCurrencyChar(known: seq<CurrencyCharacter>, c: char) {
    GetCurrencyChar(known, c).Success?
  }

  /** `isCurrencyCharacter(String)`: both exceptions are swallowed into `false`. */
  function IsCurrencyCharacter(known: seq<CurrencyCharacter>, s: string): (b: bool)
    ensures b <==> |s| == 1 && IsBmp(s[0]) && exists k :: k in known && k.character == s[0]
  {
    JavaLengthOne(s);
    GetCurrencyCharOfString(known, s).Success?
  }

  /** The `CurrencyCharacter(String, String, String)` constructor: the sign must be a single Java character. */
  function NewCurrencyCharacter(s: string, singular: string, plural: string): (r: Result<CurrencyCharacter>)
    ensures r.Success? <==> |s| == 1 && IsBmp(s[0])
    ensures r.Success? ==> r.value == CurrencyCharacter(s[0], singular, plural)
    ensures r.Failure? ==> r.error == IllegalArgument
  {
    JavaLengthOne(s);
    if JavaLength(s) != 1 then Failure(IllegalArgument)
    else Success(CurrencyCharacter(s[0], singular, plural))
  }

  /** The lemma a sign is read as: the singular one after a singular expression. */
  function LemmaFor(c: CurrencyCharacter, singular: bool): (l: string)
    ensures l == c.singularLemma || l == c.pluralLemma
    ensures singular ==> l == c.singularLemma
    ensures !singular ==> l == c.pluralLemma
  {
    if singular then c.singularLemma else c.pluralLemma
  }

  /** The lookup returns the first registered sign carrying the character. */
  lemma GetCurrencyCharFirst(known: seq<CurrencyCharacter>, k: nat)
    requires k < |known|
    requires forall j :: 0 <= j < k ==> known[j].character != known[k].character
    ensures GetCurrencyChar(known, known[k].character) == Success(known[k])
  {
    var r := GetCurrencyChar(known, known[k].character);
    assert known[k] in known;
    var i :| 0 <= i < |known| && known[i] == r.value
             && forall j :: 0 <= j < i ==> known[j].character != known[k].character;
    assert i <= k;
  }
}
