/** The SQLite bridge: the seed contents of the registry tables and the lemma
    query that turns database rows into a `DatabaseEntry`.

    The database is a value holding its tables as row sequences in table order.
    The query follows the desktop bridge: the lemma is lower-cased, looked up in
    `lemmas`, and every row of `transItems` carrying that lemma's id becomes an
    item inserted into a fresh entry. */
module SQLiteBridge {
  import opened Wrappers
  import opened JavaText
  import opened TranscriptionTypes
  import opened WordClasses
  import opened Varieties
  import opened Punctuation
  import opened Currency
  import opened TranscriptionItems
  import opened Entries

  /** A row of `lemmas`. */
  datatype LemmaRow = LemmaRow(id: int, word: string)

  /** A row of `transItems`; `transType` is 0 where the column is NULL, as `getInt` reads it. */
  datatype TransRow = TransRow(transId: int, lemmaId: int, transcription: string,
                               transType: int, wordClassId: int, varietyId: int)

  datatype Database = Database(
    lemmas: seq<LemmaRow>,
    transItems: seq<TransRow>,
    wordClasses: seq<WordClass>,
    varieties: seq<Variety>,
    punctChars: seq<PunctuationCharacter>,
    currencyChars: seq<CurrencyCharacter>)

  /** The `wordClasses` seed rows; AUTOINCREMENT numbers them from 1 in insertion order. */
  const SeedWordClasses: seq<WordClass> := [
    WordClass(1, "Adjective", "adj", true),
    WordClass(2, "Adverb", "rb", true),
    WordClass(3, "Conjunction", "conj", false),
    WordClass(4, "Determiner", "det", false),
    WordClass(5, "Exclamation", "excl", true),
    WordClass(6, "Negator", "neg", false),
    WordClass(7, "Proper Noun", "propN", true),
    WordClass(8, "Common Noun", "comN", true),
    WordClass(9, "Pronoun", "proN", false),
    WordClass(10, "Numeral", "num", false),
    WordClass(11, "Preposition", "prep", false),
    WordClass(12, "To-Infinitive Marker", "to-inf", false),
    WordClass(13, "Lexical Verb", "lexV", true),
    WordClass(14, "Modal Auxiliary", "modAux", false),
    WordClass(15, "Primary Auxiliary", "primAux", false),
    WordClass(16, "Catenative Verbs", "catV", false)
  ]

  /** The `varieties` seed rows. */
  const SeedVarieties: seq<Variety> := [
    Variety(1, "British English", "BrE"),
    Variety(2, "American English", "AmE"),
    Variety(3, "Australian English", "AuE")
  ]

  /** The `punctChars` seed rows: the hyphen-minus and the minus sign draw no bar,
      the sentence-final marks the major bar, all other marks the minor bar. */
  const SeedPunctuation: seq<PunctuationCharacter> := [
    PunctuationCharacter(',', 1),
    PunctuationCharacter(':', 1),
    PunctuationCharacter('"', 1),
    PunctuationCharacter('-', 0),
    PunctuationCharacter('\U{2010}', 1),  // hyphen
    PunctuationCharacter('\U{2011}', 1),  // non-breaking hyphen
    PunctuationCharacter('\U{2012}', 1),  // figure dash
    PunctuationCharacter('\U{2013}', 1),  // en dash
    PunctuationCharacter('\U{2014}', 1),  // em dash
    PunctuationCharacter('\U{2015}', 1),  // horizontal bar
    PunctuationCharacter('\U{2212}', 0),  // minus sign
    PunctuationCharacter('.', 2),
    PunctuationCharacter('!', 2),
    PunctuationCharacter('?', 2)
  ]

  /** The `currencyChars` seed rows. */
  const SeedCurrency: seq<CurrencyCharacter> := [
    CurrencyCharacter('$', "dollar", "dollars"),
    CurrencyCharacter('\U{20AC}', "euro", "euros"),   // euro sign
    CurrencyCharacter('\U{A3}', "pound", "pounds")    // pound sign
  ]

  /** The seed ids are 1, 2, 3, ... in insertion order. */
  lemma SeedIdsInOrder()
    ensures forall i :: 0 <= i < |SeedWordClasses| ==> SeedWordClasses[i].id == i + 1
    ensures forall i :: 0 <= i < |SeedVarieties| ==> SeedVarieties[i].id == i + 1
  {
  }

  /** The seed signs are consistent registries: punctuation and currency signs are
      single BMP characters, no sign is listed twice, and every delimiter mode is
      0, 1 or 2. */
  lemma SeedSignsWellFormed()
    ensures forall i, j :: 0 <= i < j < |SeedPunctuation| ==> SeedPunctuation[i].character != SeedPunctuation[j].character
    ensures forall i :: 0 <= i < |SeedPunctuation| ==>
              IsBmp(SeedPunctuation[i].character) && 0 <= SeedPunctuation[i].delimiterMode <= 2
    ensures forall i, j :: 0 <= i < j < |SeedCurrency| ==> SeedCurrency[i].character != SeedCurrency[j].character
    ensures forall i :: 0 <= i < |SeedCurrency| ==> IsBmp(SeedCurrency[i].character)
    ensures forall i, j :: 0 <= i < |SeedPunctuation| && 0 <= j < |SeedCurrency| ==>
              SeedPunctuation[i].character != SeedCurrency[j].character
  {
  }

  /** A word class resolves by its abbreviation in the seed table. */
  lemma SeedWordClassLookup()
    ensures GetWordClassByName(SeedWordClasses, "det") == Success(WordClass(4, "Determiner", "det", false))
  {
    DetIsFourth();
    GetWordClassByNameFirst(SeedWordClasses, 3, "det");
  }

  /** "det" names the fourth seed class and none before it. */
  lemma DetIsFourth()
    ensures SeedWordClasses[3] == WordClass(4, "Determiner", "det", false)
    ensures WordClasses.NamedBy(SeedWordClasses[3], Trim("det"))
    ensures forall j :: 0 <= j < 3 ==> !WordClasses.NamedBy(SeedWordClasses[j], Trim("det"))
  {
    TrimUnpadded("det");
    assert LowerAscii("det") == "det";
    assert LowerAscii("adj") == "adj";
    assert LowerAscii("rb") == "rb";
    assert LowerAscii("conj") == "conj";
  }

  /** A variety resolves by its abbreviation, ignoring letter case. */
  lemma SeedVarietyLookup()
    ensures GetVarietyByName(SeedVarieties, "bre") == Success(Variety(1, "British English", "BrE"))
  {
    TrimUnpadded("bre");
    assert LowerAscii("BrE") == "bre";
    assert LowerAscii("bre") == "bre";
    GetVarietyByNameFirst(SeedVarieties, 0, "bre");
  }

  /** Every seed class and variety is found by its own id. */
  lemma SeedIdLookups(i: nat)
    ensures i < |SeedWordClasses| ==> GetWordClassById(SeedWordClasses, i + 1) == Success(SeedWordClasses[i])
    ensures i < |SeedVarieties| ==> GetVarietyById(SeedVarieties, i + 1) == Success(SeedVarieties[i])
  {
    SeedIdsInOrder();
    if i < |SeedWordClasses| {
      WordClassByPosition(SeedWordClasses, i);
    }
    if i < |SeedVarieties| {
      VarietyByPosition(SeedVarieties, i);
    }
  }

  /** In a registry numbered 1, 2, 3, ... id i + 1 finds entry i. */
  lemma WordClassByPosition(known: seq<WordClass>, i: nat)
    requires i < |known| && forall k :: 0 <= k < |known| ==> known[k].id == k + 1
    ensures GetWordClassById(known, i + 1) == Success(known[i])
  {
    GetWordClassByIdFindsRegistered(known, known[i]);
  }

  lemma VarietyByPosition(known: seq<Variety>, i: nat)
    requires i < |known| && forall k :: 0 <= k < |known| ==> known[k].id == k + 1
    ensures GetVarietyById(known, i + 1) == Success(known[i])
  {
    GetVarietyByIdFindsRegistered(known, known[i]);
  }

  /** The sentence-final full stop draws the major bar, the hyphen-minus none, and
      the dollar sign is a currency sign rather than a punctuation mark. */
  lemma SeedSignLookups()
    ensures GetPunctChar(SeedPunctuation, '.') == Success(PunctuationCharacter('.', 2))
    ensures GetPunctChar(SeedPunctuation, '-') == Success(PunctuationCharacter('-', 0))
    ensures GetCurrencyChar(SeedCurrency, '$') == Success(CurrencyCharacter('$', "dollar", "dollars"))
    ensures GetPunctChar(SeedPunctuation, '$').Failure?
  {
    assert SeedPunctuation[11] == PunctuationCharacter('.', 2);
    SeedPunctAt(11);
    assert SeedPunctuation[3] == PunctuationCharacter('-', 0);
    SeedPunctAt(3);
    SeedCurrencyAt(0);
    DollarIsNoPunctuation();
  }

  lemma SeedPunctAt(k: nat)
    requires k < |SeedPunctuation|
    ensures GetPunctChar(SeedPunctuation, SeedPunctuation[k].character) == Success(SeedPunctuation[k])
  {
    SeedSignsWellFormed();
    PunctByPosition(SeedPunctuation, k);
  }

  lemma SeedCurrencyAt(k: nat)
    requires k < |SeedCurrency|
    ensures GetCurrencyChar(SeedCurrency, SeedCurrency[k].character) == Success(SeedCurrency[k])
  {
    SeedSignsWellFormed();
    CurrencyByPosition(SeedCurrency, k);
  }

  lemma DollarIsNoPunctuation()
    ensures GetPunctChar(SeedPunctuation, '$').Failure?
  {
    assert forall i :: 0 <= i < |SeedPunctuation| ==> SeedPunctuation[i].character != '$';
  }

  /** In a registry without repeated signs, entry k is found by its sign. */
  lemma PunctByPosition(known: seq<PunctuationCharacter>, k: nat)
    requires k < |known|
    requires forall i, j :: 0 <= i < j < |known| ==> known[i].character != known[j].character
    ensures GetPunctChar(known, known[k].character) == Success(known[k])
  {
    GetPunctCharFirst(known, k);
  }

  lemma CurrencyByPosition(known: seq<CurrencyCharacter>, k: nat)
    requires k < |known|
    requires forall i, j :: 0 <= i < j < |known| ==> known[i].character != known[j].character
    ensures GetCurrencyChar(known, known[k].character) == Success(known[k])
  {
    GetCurrencyCharFirst(known, k);
  }

  /** Converts one `transItems` row as the query loop does; the three registry
      lookups may fail, and the failure ends the query. */
  function ConvertRow(db: Database, word: string, row: TransRow): (r: Result<Item>)
    ensures r.Success? ==> IsComplete(r.value)
    ensures r.Success? ==> r.value.id == row.transId && r.value.word == word
                           && r.value.phonetic == Some(row.transcription)
                           && r.value.transType.value.Id() == row.transType
                           && r.value.wordClass.value in db.wordClasses
                           && r.value.wordClass.value.id == row.wordClassId
                           && r.value.variety.value in db.varieties
                           && r.value.variety.value.id == row.varietyId
    ensures r.Failure? <==>
              || GetTranscriptionType(row.transType).Failure?
              || GetWordClassById(db.wordClasses, row.wordClassId).Failure?
              || GetVarietyById(db.varieties, row.varietyId).Failure?
  {
    match GetTranscriptionType(row.transType)
    case Failure(err) => Failure(err)
    case Success(t) =>
      match GetWordClassById(db.wordClasses, row.wordClassId)
      case Failure(err) => Failure(err)
      case Success(wc) =>
        match GetVarietyById(db.varieties, row.varietyId)
        case Failure(err) => Failure(err)
        case Success(v) => Success(Item(row.transId, word, Some(row.transcription), Some(t), Some(wc), Some(v)))
  }

  /** Converts rows in order; the first row that fails ends the query with its exception. */
  function ConvertRows(db: Database, word: string, rows: seq<TransRow>): (r: Result<seq<Item>>)
    ensures r.Success? ==> |r.value| == |rows|
    ensures r.Success? ==> forall i :: 0 <= i < |rows| ==> ConvertRow(db, word, rows[i]) == Success(r.value[i])
    ensures r.Failure? ==> exists i :: 0 <= i < |rows| && ConvertRow(db, word, rows[i]) == Failure(r.error)
                                       && forall j :: 0 <= j < i ==> ConvertRow(db, word, rows[j]).Success?
  {
    MapResults(rows, (row: TransRow) => ConvertRow(db, word, row))
  }

  /** The `transItems` rows of lemma id `id`, in table order. */
  function RowsOf(rows: seq<TransRow>, id: int): (r: seq<TransRow>)
    ensures forall x :: x in r <==> x in rows && x.lemmaId == id
  {
    if |rows| == 0 then []
    else RowsOf(rows[..|rows| - 1], id) + (if rows[|rows| - 1].lemmaId == id then [rows[|rows| - 1]] else [])
  }

  /** `queryDatabase`: never a missing entry; an empty one when the lower-cased
      lemma has no row; otherwise the entry built from the lemma's rows. A failed
      registry lookup while converting a row surfaces as the failure. */
  function QueryDatabase(db: Database, pref: Variety, token: string): (r: Result<Entry>)
    ensures r.Success? ==> r.value.word == LowerAscii(token) && Valid(r.value)
    ensures (forall i :: 0 <= i < |db.lemmas| ==> db.lemmas[i].word != LowerAscii(token))
            ==> r == Success(NewEntry(token))
  {
    var word := LowerAscii(token);
    match FindFirst(db.lemmas, (l: LemmaRow) => l.word == word)
    case None => Success(NewEntry(token))
    case Some(i) =>
      match ConvertRows(db, word, RowsOf(db.transItems, db.lemmas[i].id))
      case Failure(err) => Failure(err)
      case Success(items) =>
        BuildEntryValid(word, items, pref);
        LowerAsciiTwice(token);
        Success(BuildEntry(word, items, pref))
  }

  /** A found lemma yields one item per row of its id, and those items are what the
      entry's lists and selection are built from. */
  lemma QueryDatabaseFound(db: Database, pref: Variety, token: string, i: nat)
    requires i < |db.lemmas| && db.lemmas[i].word == LowerAscii(token)
    requires forall j :: 0 <= j < i ==> db.lemmas[j].word != LowerAscii(token)
    requires ConvertRows(db, LowerAscii(token), RowsOf(db.transItems, db.lemmas[i].id)).Success?
    ensures var items := ConvertRows(db, LowerAscii(token), RowsOf(db.transItems, db.lemmas[i].id)).value;
            && QueryDatabase(db, pref, token).Success?
            && QueryDatabase(db, pref, token).value.selected == ExpectedSelection(items, pref)
            && forall wc, v :: ItemsOf(QueryDatabase(db, pref, token).value.matched, wc, v) == Filter(items, wc, v)
  {
    var word := LowerAscii(token);
    var items := ConvertRows(db, word, RowsOf(db.transItems, db.lemmas[i].id)).value;
    assert FindFirst(db.lemmas, (l: LemmaRow) => l.word == word) == Some(i);
    BuildEntrySelection(word, items, pref);
    forall wc, v
      ensures ItemsOf(BuildEntry(word, items, pref).matched, wc, v) == Filter(items, wc, v)
    {
      BuildEntryLists(word, items, pref, wc, v);
    }
  }

  /** The query does not depend on the letter case of the lemma. */
  lemma QueryDatabaseCaseInsensitive(db: Database, pref: Variety, token: string)
    ensures QueryDatabase(db, pref, LowerAscii(token)) == QueryDatabase(db, pref, token)
  {
    LowerAsciiTwice(token);
  }
}
