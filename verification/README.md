# Text2Transcription: the transcriber core in Dafny

Text2Transcription turns an English sentence into a phonetic transcription. It
shows one segment per token. Each segment has buttons for the lexicon entries
the token was read as, plus "/", "|" and "||" delimiter buttons. This project
models the engine behind that display:

- **Tokenising.** The sentence is trimmed, runs of whitespace are collapsed,
  and the result is split at whitespace (`Dissection`).
- **Scanning.** Each token is scanned with the two regular expressions
  `[\w&&[^_]]+` and `[\W_]` (`Statics`). It is then cut into leading
  characters, a core and trailing characters (`Dissection`).
- **Reading the core.** A core with digits is parsed as a numeral, with commas
  removed, an optional decimal part and a `long` range check. The numeral is
  read out as number words. A year between 100 and 2000 also gets its year
  reading (`Numerals`).
- **Delimiters and currency.** Leading and trailing punctuation draws
  delimiter bars, the highest delimiter mode winning. Currency signs are read
  in the singular or plural after the lemma (`Resolver`).
- **Lexicon lookup.** Every lookup key goes to the SQLite bridge. The bridge
  lower-cases it and builds a `DatabaseEntry` from the rows of that lemma
  (`SQLiteBridge`, `Entries`).
- **The post-pass.** It marks word-class conflicts. It selects the weak form
  of "the" that fits the next sound. It chooses the button that receives the
  keyboard focus (`PostProcessing`).
- **The whole run.** `Transcription.Transcribe` ties all of this together.

The post-pass reads "the next sound" in a way that contradicts its own comment
(see "## Findings"). Both behaviours are modelled, and a `Reading` value chooses
between them: `AsWritten` is what the code does and `Intended` is what the
comment asks for. Every property of the pass and of the whole run is proved for
both readings. `PostProcessing.PostProcessReadingsAgree` says when they agree,
and `PostProcessing.PostProcessTheEightyOne` gives an input where they differ.

The registries `PunctuationCharacter`, `CurrencyCharacter`, `Variety`,
`WordClass` and `TranscriptionType` are sequences of records. Each static
lookup is a function returning `Result`, whose `Failure` carries the Java
exception kind. `TranscriptionItem`, `DatabaseEntry` and
`TranscriptionSegment` are immutable datatypes, and their mutators return
updated values.

Token resolution only decides which keys to look up; no decision depends on
what the database returns. The model therefore builds segments whose word
buttons hold lookup keys (the *plan*), then maps every key through the lexicon,
then runs the post-pass.

Characters are Unicode code points, which is also what Java's regex engine
matches. Java's `String.length()` counts UTF-16 units; `JavaText.JavaLength`
models this for the registry lookups that take a `String`. Without the
UNICODE_CHARACTER_CLASS flag, `\w` is ASCII-only. So the word characters are
exactly the ASCII letters and digits.

## Model

| member | source | states |
|---|---|---|
| `JavaText.JavaLengthOne` | src/main/java/de/upb/t2t/model/PunctuationCharacter.java:124-131 | The Java length of a string is 1 exactly when the string is one character of the Basic Multilingual Plane; a supplementary character fails the single-character test |
| `JavaText.Trim` | src/main/java/de/upb/t2t/control/Statics.java:40 | The trimmed string is a contiguous slice of the input; everything cut off at either end is a character up to U+0020, and a non-empty result starts and ends with a character that is not |
| `JavaText.TrimTwice` | src/main/java/de/upb/t2t/control/Transcriber.java:240 | Trimming is idempotent |
| `JavaText.LowerAsciiTwice` | src/main/java/de/upb/t2t/model/DatabaseEntry.java:55 | Lower-casing a lemma is idempotent, so an entry's stored lemma lower-cases to itself |
| `JavaText.RemoveCommas` | src/main/java/de/upb/t2t/control/Transcriber.java:484 | The result holds no comma and contains exactly the non-comma characters of the input |
| `JavaText.RemoveCommasMultiset` | src/main/java/de/upb/t2t/control/Transcriber.java:484 | Removing commas keeps every other character as often as it occurred and leaves no comma (as multisets) |
| `JavaText.RemoveCommasAppend` | src/main/java/de/upb/t2t/control/Transcriber.java:484 | Comma removal distributes over concatenation, so commas are dropped wherever they stand |
| `JavaText.RemoveCommasNoComma` | src/main/java/de/upb/t2t/control/Transcriber.java:484 | A string without commas is unchanged by the comma removal |
| `Statics.ParseBoolean` | src/main/java/de/upb/t2t/control/Statics.java:39-42 | A string parses as true exactly when, trimmed, it is "1" or "true" in any letter case; a true string is 1 or 4 characters long once trimmed |
| `Statics.ParseBooleanIgnoresPadding` | src/main/java/de/upb/t2t/control/Statics.java:39-42 | Surrounding whitespace never changes the parsed value |
| `Statics.RunEnd` | src/main/java/de/upb/t2t/control/Statics.java:54-61 | The run of word characters starting at a position ends at the first non-word character or at the end of the input |
| `Statics.WordRunsFromMaximal` | src/main/java/de/upb/t2t/control/Statics.java:54-61 | Every match the scan for `[\w&&[^_]]+` reports is a maximal run of word characters |
| `Statics.WordRunsFromOrdered` | src/main/java/de/upb/t2t/control/Statics.java:54-61 | The scan's matches are non-empty, left to right and non-overlapping |
| `Statics.WordRunsFromEmpty` | src/main/java/de/upb/t2t/control/Statics.java:54-61 | The scan finds nothing exactly when no word character follows the start position |
| `Statics.WordRunsFromFirst` | src/main/java/de/upb/t2t/control/Statics.java:54-61 | No word character lies before the first match |
| `Statics.WordRunsFromLast` | src/main/java/de/upb/t2t/control/Statics.java:54-61 | No word character lies after the last match |
| `Statics.WordRunsShape` | src/main/java/de/upb/t2t/control/Transcriber.java:291 | The word-group matches of a token are maximal word runs in left-to-right order |
| `Statics.WordRunsEnds` | src/main/java/de/upb/t2t/control/Transcriber.java:291-299 | A token has word groups exactly when it has a word character, and no word character lies outside the span from the first group to the last |
| `Statics.NonWordInElements` | src/main/java/de/upb/t2t/control/Statics.java:54-61 | Every match of the scan for `[\W_]` is a single non-word character inside the scanned range |
| `Statics.NonWordInOrdered` | src/main/java/de/upb/t2t/control/Statics.java:54-61 | The non-word matches come left to right |
| `Statics.NonWordInComplete` | src/main/java/de/upb/t2t/control/Statics.java:54-61 | Every non-word character of the range is reported as a match |
| `Statics.NonWordCharsFacts` | src/main/java/de/upb/t2t/control/Transcriber.java:292 | The non-word matches of a token are exactly its non-word characters, one single-character match each, in order |
| `Statics.NonWordSplit` | src/main/java/de/upb/t2t/control/Statics.java:54-61 | Scanning a range in two pieces yields the concatenation of the two scans |
| `Statics.NonWordStretch` | src/main/java/de/upb/t2t/control/Statics.java:54-61 | Over a stretch of non-word characters the scan reports every position in turn |
| `Statics.NonWordNone` | src/main/java/de/upb/t2t/control/Statics.java:54-61 | Over a stretch of word characters the scan reports nothing |
| `Statics.NonWordCharsOfNonWordString` | src/main/java/de/upb/t2t/control/Transcriber.java:299-309 | In a token without word characters there is one non-word match per character, so "a single non-word match" means "a one-character token" |
| `Dissection.DropWhitespace` | src/main/java/de/upb/t2t/control/Transcriber.java:241 | Dropping a leading whitespace run leaves a suffix that starts with a non-whitespace character, and only whitespace was dropped |
| `Dissection.CollapseKeeps` | src/main/java/de/upb/t2t/control/Transcriber.java:241 | Collapsing whitespace runs keeps every non-whitespace character, in order |
| `Dissection.CollapseEnds` | src/main/java/de/upb/t2t/control/Transcriber.java:241 | Collapsing keeps the string non-empty, keeps whether it starts with whitespace, and keeps a non-whitespace last character |
| `Dissection.CollapseNoDoubles` | src/main/java/de/upb/t2t/control/Transcriber.java:241 | After collapsing, no two whitespace characters stand side by side |
| `Dissection.CollapseTrimmed` | src/main/java/de/upb/t2t/control/Transcriber.java:240-241 | A trimmed non-empty sentence collapses to a non-empty string with no whitespace at either end, no double whitespace, and the same non-whitespace characters |
| `Dissection.DropTrailingEmpty` | src/main/java/de/upb/t2t/control/Transcriber.java:269 | `split` drops only trailing empty pieces: the result is a prefix of the raw pieces whose last element is non-empty, and everything dropped is empty |
| `Dissection.RawSplitWellSpaced` | src/main/java/de/upb/t2t/control/Transcriber.java:269 | Splitting a string with single inner whitespace gives non-empty, whitespace-free pieces that concatenate to its non-whitespace characters |
| `Dissection.SplitWellSpaced` | src/main/java/de/upb/t2t/control/Transcriber.java:269 | The same holds for `split("\\s")`, including the case of a string without whitespace; in addition, the pieces joined by the string's whitespace characters give the string back |
| `Dissection.RawSplitInterleave` | src/main/java/de/upb/t2t/control/Transcriber.java:269 | Splitting at each single whitespace character cuts the string exactly there: one more piece than separators, and the pieces interleaved with the separators rebuild the string |
| `Dissection.TokeniseShape` | src/main/java/de/upb/t2t/control/Transcriber.java:240-269 | A blank sentence gives the single token ""; otherwise every token is non-empty and whitespace-free, the tokens together are the sentence's non-whitespace characters in order, and joined by the whitespace characters left after trimming and collapsing (one per gap) they give the collapsed sentence back, so every token is a whole word of it |
| `Dissection.FirstWordIndex` | src/main/java/de/upb/t2t/control/Transcriber.java:407-415 | The index found is that of the first word character, or the length when there is none |
| `Dissection.TrailingNonWord` | src/main/java/de/upb/t2t/control/Transcriber.java:418-426 | The count found is the number of non-word characters after the last word character |
| `Dissection.DissectShape` | src/main/java/de/upb/t2t/control/Transcriber.java:404-433 | The cut puts the token back together; neither the leading nor the trailing part holds a word character; the core starts and ends with one |
| `Dissection.DissectUnique` | src/main/java/de/upb/t2t/control/Transcriber.java:404-433 | The reference cut is the only split of the token with that shape (both directions) |
| `Dissection.DissectHello` | src/main/java/de/upb/t2t/control/Transcriber.java:284-289 | "'hello!'," is cut into "'", "hello" and "!',", as the transcriber's commentary describes |
| `Dissection.DissectWellKnown` | src/main/java/de/upb/t2t/control/Transcriber.java:287-289 | "well-known" is all core: the inner hyphen stays in the lemma |
| `Dissection.LeadingMatches` | src/main/java/de/upb/t2t/control/Transcriber.java:407-415 | The non-word matches before the first word character are the leading characters one by one; every later match starts after it |
| `Dissection.TrailingMatches` | src/main/java/de/upb/t2t/control/Transcriber.java:418-426 | The non-word matches after the last word character are the trailing characters one by one; every earlier match ends before it |
| `Dissection.GatherLeading` | src/main/java/de/upb/t2t/control/Transcriber.java:407-415 | The leading do-while loop collects exactly the characters before the first word character and stops at the last of them |
| `Dissection.GatherTrailing` | src/main/java/de/upb/t2t/control/Transcriber.java:418-426 | The trailing do-while loop collects exactly the characters after the last word character and stops at the first of them, or runs zero times when there are none |
| `Dissection.DissectByMatches` | src/main/java/de/upb/t2t/control/Transcriber.java:404-433 | Cutting a token from its regex matches with the two loops and `substring` gives the reference cut |
| `Numerals.BelowTwenty` | src/main/java/de/upb/t2t/control/Transcriber.java:1129-1175 | 1..19 map to their names; every other value, 0 included, maps to "zero" |
| `Numerals.TensWord` | src/main/java/de/upb/t2t/control/Transcriber.java:1084-1109 | Tens digits 2..9 map to "twenty" .. "ninety" |
| `Numerals.DigitArea` | src/main/java/de/upb/t2t/control/Transcriber.java:1188-1218 | Positions up to 3 have no scale word; a higher position names its group of three, capped at "quintillion" |
| `Numerals.TensAndOnes` | src/main/java/de/upb/t2t/control/Transcriber.java:1064-1118 | Values outside 0..99 are rejected with IllegalArgument; otherwise the words read back as the value; there is one word below 20 or for a round ten, and otherwise the tens word comes first |
| `Numerals.TensAndOnesHeard` | src/main/java/de/upb/t2t/control/Transcriber.java:1077-1115 | The words of a number below 100 add exactly that number to what a listener has heard |
| `Numerals.NumeralWellFormed` | src/main/java/de/upb/t2t/control/Transcriber.java:944-1046 | Every word of a numeral reading is a valid lookup key |
| `Numerals.IntegerHeard` | src/main/java/de/upb/t2t/control/Transcriber.java:969-1027 | The group-by-group words of a number at scale one thousand or higher read back as that number times the scale |
| `Numerals.NumeralValue` | src/main/java/de/upb/t2t/control/Transcriber.java:944-1046 | Every integer part a `long` can hold is read out as words that a listener hears as exactly that number, "zero" for 0 |
| `Numerals.NumeralWordsDecimal` | src/main/java/de/upb/t2t/control/Transcriber.java:1030-1043 | A decimal part adds only "dot" and one word per digit after the integer reading |
| `Numerals.NumeralSkipsEmptyGroup` | src/main/java/de/upb/t2t/control/Transcriber.java:957-958 | A scale word follows only a group with a nonzero digit: 1,000,222 reads "one million two hundred twenty two" |
| `Numerals.NumeralWithDecimals` | src/main/java/de/upb/t2t/control/Transcriber.java:944-1046 | 12345.678 reads "twelve thousand three hundred forty five dot six seven eight" |
| `Numerals.ParseLong` | src/main/java/de/upb/t2t/control/Transcriber.java:492-495 | `Long.parseLong` fails with NumberFormat on empty input, a stray non-digit or a bad first character; a success lies in the `long` range and, for plain digits, is their value |
| `Numerals.ParseLongRoundTrip` | src/main/java/de/upb/t2t/control/Transcriber.java:495 | A printed value up to `Long.MAX_VALUE` parses back to itself, and a larger one fails |
| `Numerals.ParseLongNegative` | src/main/java/de/upb/t2t/control/Transcriber.java:495-502 | A minus sign followed by digits parses to the negative value, down to `Long.MIN_VALUE`, which the digit branch then treats as a failed parse |
| `Numerals.ParseLongForms` | src/main/java/de/upb/t2t/control/Transcriber.java:492-495 | `Long.parseLong` accepts exactly a run of digits, optionally after "+" or "-": plain and "+" digits give their value while it is at most `Long.MAX_VALUE`; "-" digits give the negated value down to `Long.MIN_VALUE`; nothing else parses |
| `Numerals.SplitDecimal` | src/main/java/de/upb/t2t/control/Transcriber.java:490-493 | A string splits into two non-empty digit strings around one point exactly when it matches `\A\d+\.\d+\z`, and the two sides rebuild the string |
| `Numerals.ParseNumeral` | src/main/java/de/upb/t2t/control/Transcriber.java:483-502 | A parsed numeral has a digit-only decimal part and an integer part of at most `Long.MAX_VALUE`; a decimal part only comes from a comma-free string of the decimal form |
| `Numerals.ParseNumeralValue` | src/main/java/de/upb/t2t/control/Transcriber.java:483-502 | After the commas are dropped: a decimal numeral gives its integer side's value and its digits after the point, or nothing when the integer side exceeds `Long.MAX_VALUE`; a digit run, leading zeros included ("007" is 7), with or without "+", gives its value, or nothing when too large; "-" digits give 0 when all are zeros and nothing otherwise; every other string gives nothing |
| `Numerals.ParseNumeralRoundTrip` | src/main/java/de/upb/t2t/control/Transcriber.java:483-502 | Printing a numeral and running the digit branch's parse on it gives back the numeral |
| `Numerals.ParseNumeralCommas` | src/main/java/de/upb/t2t/control/Transcriber.java:483-484 | Grouping commas are ignored: "1,500" is the numeral 1500 |
| `Numerals.YearValue` | src/main/java/de/upb/t2t/control/Transcriber.java:522-528 | The year reading of 100 < n < 2000 is heard as n ("nineteen hundred eighty four" is 1984) |
| `Numerals.YearWellFormed` | src/main/java/de/upb/t2t/control/Transcriber.java:522-528 | Every word of the year reading is a valid lookup key |
| `Numerals.DigitsRoundTrip` | src/main/java/de/upb/t2t/control/Transcriber.java:952-955 | The digit array of `integerPart + ""` stands for the number itself |
| `Numerals.LookUpNumeral` | src/main/java/de/upb/t2t/control/Transcriber.java:944-1046 | The digit loop, followed by the decimal loop, emits exactly the reference reading of the numeral |
| `Numerals.IntegerPartWords` | src/main/java/de/upb/t2t/control/Transcriber.java:960-1028 | The integer half of the loop emits exactly the reference reading of the integer part |
| `Numerals.DigitStep` | src/main/java/de/upb/t2t/control/Transcriber.java:969-1027 | One pass of the `switch` on the digit's position advances the loop and keeps its invariant: the completed groups are read, and a pending hundreds digit waits for its group |
| `Numerals.HundredsDigit` | src/main/java/de/upb/t2t/control/Transcriber.java:978-989 | A hundreds digit adds its word and "hundred" (nothing for 0) and marks the group as non-empty exactly when it is nonzero |
| `Numerals.TensAndOnesDigits` | src/main/java/de/upb/t2t/control/Transcriber.java:991-1025 | A tens digit consumes the ones digit after it (the fall-through); a lone ones digit is read alone; the number is emitted unless it is 0, then the scale word when the group had a nonzero digit |
| `Numerals.EmitTensAndOnes` | src/main/java/de/upb/t2t/control/Transcriber.java:1014-1024 | The shared tail emits the scale word only above the units group and only after a nonzero digit, and resets the flag when it does |
| `Punctuation.GetPunctChar` | src/main/java/de/upb/t2t/model/PunctuationCharacter.java:102-110 | The lookup succeeds exactly when a registered mark has the character, and returns such a mark; otherwise NoSuchElement |
| `Punctuation.GetPunctCharOfString` | src/main/java/de/upb/t2t/model/PunctuationCharacter.java:124-131 | A string whose Java length is not 1 is rejected with IllegalArgument; otherwise the character lookup decides |
| `Punctuation.IsPunctuationCharacter` | src/main/java/de/upb/t2t/model/PunctuationCharacter.java:80-90 | True exactly for a single BMP character that is a registered mark; both exceptions become false |
| `Punctuation.NewPunctuationCharacter` | src/main/java/de/upb/t2t/model/PunctuationCharacter.java:155-162 | The string constructor accepts exactly one Java character and stores it with the mode |
| `Punctuation.BarText` | src/main/java/de/upb/t2t/control/Transcriber.java:864-872 | Mode 1 draws "|", mode 2 draws "||", every other mode leaves the inner delimiter blank |
| `Punctuation.GetPunctCharFirst` | src/main/java/de/upb/t2t/model/PunctuationCharacter.java:102-110 | The lookup returns the first registered mark with the character |
| `Currency.GetCurrencyChar` | src/main/java/de/upb/t2t/model/CurrencyCharacter.java:96-104 | The lookup succeeds exactly when a registered sign has the character, and returns such a sign; otherwise NoSuchElement |
| `Currency.GetCurrencyCharOfString` | src/main/java/de/upb/t2t/model/CurrencyCharacter.java:118-124 | A string whose Java length is not 1 is rejected with IllegalArgument; otherwise the character lookup decides |
| `Currency.IsCurrencyCharacter` | src/main/java/de/upb/t2t/model/CurrencyCharacter.java:75-84 | True exactly for a single BMP character that is a registered sign |
| `Currency.NewCurrencyCharacter` | src/main/java/de/upb/t2t/model/CurrencyCharacter.java:146-154 | The string constructor accepts exactly one Java character and stores it with both lemmas |
| `Currency.LemmaFor` | src/main/java/de/upb/t2t/control/Transcriber.java:605-609 | A singular expression gets the singular lemma and anything else the plural lemma |
| `Currency.GetCurrencyCharFirst` | src/main/java/de/upb/t2t/model/CurrencyCharacter.java:96-104 | The lookup returns the first registered sign with the character |
| `Varieties.GetVarietyByName` | src/main/java/de/upb/t2t/model/Variety.java:54-62 | After trimming, a variety matches by abbreviation in any letter case or by exact proper name; the first match is returned; otherwise NoSuchElement |
| `Varieties.GetVarietyById` | src/main/java/de/upb/t2t/model/Variety.java:73-80 | The lookup succeeds exactly when some registered variety has the id |
| `Varieties.GetPreferredVariety` | src/main/java/de/upb/t2t/model/Variety.java:90-92 | The preferred variety is the one the setting names, and the lookup fails exactly when none is named |
| `Varieties.CompareTo` | src/main/java/de/upb/t2t/model/Variety.java:127-136 | Varieties are ordered by id: -1, 0 or 1 exactly as the ids compare |
| `Varieties.GetVarietyByIdFindsRegistered` | src/main/java/de/upb/t2t/model/Variety.java:73-80 | With distinct ids, looking up a registered variety's id returns that variety |
| `Varieties.GetVarietyByNameIgnoresPadding` | src/main/java/de/upb/t2t/model/Variety.java:54-62 | Surrounding whitespace never changes the lookup |
| `Varieties.GetVarietyByNameFirst` | src/main/java/de/upb/t2t/model/Variety.java:54-62 | The first registered variety the name matches is the one returned |
| `WordClasses.GetWordClassByName` | src/main/java/de/upb/t2t/model/WordClass.java:55-63 | After trimming, a word class matches by abbreviation in any letter case or by exact proper name; otherwise NoSuchElement |
| `WordClasses.GetWordClassById` | src/main/java/de/upb/t2t/model/WordClass.java:74-81 | The lookup succeeds exactly when some registered word class has the id |
| `WordClasses.CompareTo` | src/main/java/de/upb/t2t/model/WordClass.java:123-132 | Word classes are ordered by id |
| `WordClasses.GetWordClassByNameIgnoresPadding` | src/main/java/de/upb/t2t/model/WordClass.java:55-63 | Surrounding whitespace never changes the lookup |
| `WordClasses.GetWordClassByNameFirst` | src/main/java/de/upb/t2t/model/WordClass.java:55-63 | The first registered word class the name matches is the one returned |
| `WordClasses.GetWordClassByIdFindsRegistered` | src/main/java/de/upb/t2t/model/WordClass.java:74-81 | With distinct ids, looking up a registered word class's id returns it |
| `TranscriptionTypes.GetTranscriptionType` | src/main/java/de/upb/t2t/model/TranscriptionType.java:22-29 | Ids 0..2 give the type with that id; any other id is rejected with IllegalArgument |
| `TranscriptionTypes.TranscriptionTypeIdRoundTrip` | src/main/java/de/upb/t2t/model/TranscriptionType.java:22-29 | Looking up a type's own id gives the type back |
| `TranscriptionItems.NewLemmaItem` | src/main/java/de/upb/t2t/model/TranscriptionItem.java:68-70 | The lemma-only item has no SQL id and no transcription data |
| `TranscriptionItems.IsContentWord` | src/main/java/de/upb/t2t/model/TranscriptionItem.java:152-154 | An item is a content word exactly when its word class is one |
| `TranscriptionItems.AddListener` | src/main/java/de/upb/t2t/model/TranscriptionItem.java:118-122 | Registering adds the listener once: it is present afterwards, a known listener changes nothing, a new one is appended |
| `TranscriptionItems.RemoveListener` | src/main/java/de/upb/t2t/model/TranscriptionItem.java:130-132 | Removing takes out one occurrence of the listener and keeps every other listener |
| `TranscriptionItems.AddRemoveListener` | src/main/java/de/upb/t2t/model/TranscriptionItem.java:118-132 | Registering keeps the list duplicate-free, is idempotent, and removing a newly registered listener restores the list |
| `TranscriptionItems.RemoveAppended` | src/main/java/de/upb/t2t/model/TranscriptionItem.java:130-132 | Removing a listener that was appended last gives back the earlier list |
| `TranscriptionItems.Select` | src/main/java/de/upb/t2t/model/TranscriptionItem.java:104-110 | Selecting notifies every registered listener, in order, with the item itself |
| `Entries.NewEntry` | src/main/java/de/upb/t2t/model/DatabaseEntry.java:54-59 | A new entry stores the lemma in lower case and is empty, with nothing selected |
| `Entries.Insert` | src/main/java/de/upb/t2t/model/DatabaseEntry.java:279-287 | Inserting appends the item to the list of its word class and variety, creating the maps on demand; every other list stays the same |
| `Entries.InsertWellStored` | src/main/java/de/upb/t2t/model/DatabaseEntry.java:68-91 | Insertion keeps every stored item filed under its own word class and variety |
| `Entries.AddTranscriptionItem` | src/main/java/de/upb/t2t/model/DatabaseEntry.java:68-91 | The item is filed under its word class and variety. It becomes the selection when nothing was selected, or when it is of the preferred variety and is weak or replaces a non-preferred selection. Otherwise the selection stays. Validity is kept |
| `Entries.OnItemSelected` | src/main/java/de/upb/t2t/model/DatabaseEntry.java:94-101 | The callback makes the item the selection and changes nothing else |
| `Entries.IsEmpty` | src/main/java/de/upb/t2t/model/DatabaseEntry.java:125-127 | An entry is empty exactly when nothing is matched, which for a valid entry means that no item is stored |
| `Entries.StoredItemExists` | src/main/java/de/upb/t2t/model/DatabaseEntry.java:125-127 | A valid non-empty entry stores at least one item |
| `Entries.MatchesMultipleWordClasses` | src/main/java/de/upb/t2t/model/DatabaseEntry.java:138-140 | True exactly when items of two different word classes are matched |
| `Entries.GetTranscriptionItems` | src/main/java/de/upb/t2t/model/DatabaseEntry.java:179-186 | The list for a word class and variety is returned when both levels exist, and NoSuchElement otherwise |
| `Entries.GetTranscriptionItemById` | src/main/java/de/upb/t2t/model/DatabaseEntry.java:152-163 | The search finds an item with the id exactly when one is stored, and NoSuchElement otherwise |
| `Entries.LastPreferredWeak` | src/main/java/de/upb/t2t/model/DatabaseEntry.java:83-84 | Finds a weak item of the preferred variety when one exists |
| `Entries.FirstPreferred` | src/main/java/de/upb/t2t/model/DatabaseEntry.java:83 | Finds an item of the preferred variety when one exists |
| `Entries.BuildEntryValid` | src/desktop/java/de/upb/t2t/control/sqlite/SQLiteBridgeDesktop.java:143-153 | Inserting the rows' items one by one gives a valid entry |
| `Entries.BuildEntryLists` | src/desktop/java/de/upb/t2t/control/sqlite/SQLiteBridgeDesktop.java:143-153 | Each list of the built entry holds exactly the items of that word class and variety, in row order |
| `Entries.BuildEntrySelection` | src/main/java/de/upb/t2t/model/DatabaseEntry.java:81-86 | After all insertions the selection is the last weak preferred item, else the first preferred item, else the first item |
| `Entries.SelectionStep` | src/main/java/de/upb/t2t/model/DatabaseEntry.java:81-86 | One more insertion moves that closed-form selection exactly as the insertion rule does |
| `SQLiteBridge.SeedIdsInOrder` | src/main/java/de/upb/t2t/control/database/AbstractSQLiteBridge.java:51-79 | The seeded word classes and varieties are numbered 1, 2, 3, ... in insertion order |
| `SQLiteBridge.SeedSignsWellFormed` | src/main/java/de/upb/t2t/control/database/AbstractSQLiteBridge.java:82-100 | The seeded marks and signs are pairwise distinct single BMP characters, the marks have modes 0 to 2, and no sign is also a mark |
| `SQLiteBridge.SeedWordClassLookup` | src/main/java/de/upb/t2t/control/database/AbstractSQLiteBridge.java:59-74 | "det" finds the Determiner class (id 4) that the rule for "the" needs |
| `SQLiteBridge.SeedVarietyLookup` | src/main/java/de/upb/t2t/control/database/AbstractSQLiteBridge.java:77-79 | The default preference "BrE" finds British English in any letter case |
| `SQLiteBridge.SeedIdLookups` | src/main/java/de/upb/t2t/control/database/AbstractSQLiteBridge.java:51-79 | Every seeded word class and variety is found by its id |
| `SQLiteBridge.SeedSignLookups` | src/main/java/de/upb/t2t/control/database/AbstractSQLiteBridge.java:82-100 | "." draws the major bar, "-" no bar, "$" is the dollar and not a punctuation mark |
| `SQLiteBridge.ConvertRow` | src/desktop/java/de/upb/t2t/control/sqlite/SQLiteBridgeDesktop.java:143-152 | A row becomes a complete item with its ids, transcription and looked-up registry values, and fails exactly when one of the three lookups fails |
| `SQLiteBridge.ConvertRows` | src/desktop/java/de/upb/t2t/control/sqlite/SQLiteBridgeDesktop.java:143-153 | Rows convert in order, and the first failing row ends the query with its exception |
| `SQLiteBridge.QueryDatabase` | src/main/java/de/upb/t2t/control/database/AbstractSQLiteBridge.java:135-145 | The query never yields a missing entry: an unknown lemma gives an empty entry, and any entry it yields holds the lower-cased lemma and is valid |
| `SQLiteBridge.QueryDatabaseFound` | src/desktop/java/de/upb/t2t/control/sqlite/SQLiteBridgeDesktop.java:113-160 | For a known lemma the entry's lists and selection are exactly those built from the rows carrying the lemma's id |
| `SQLiteBridge.QueryDatabaseCaseInsensitive` | src/desktop/java/de/upb/t2t/control/sqlite/SQLiteBridgeDesktop.java:121 | The query does not depend on the letter case of the lemma |
| `Segments.NewSegment` | src/main/java/de/upb/t2t/control/gui/transcriber/TranscriptionSegment.java:69-71 | A new segment shows nothing and has neither buttons nor a trailing delimiter |
| `Segments.NewLemmaSegment` | src/main/java/de/upb/t2t/control/gui/transcriber/TranscriptionSegment.java:84-86 | The lemma constructor sets only the lemma text |
| `Segments.TrailingDelimiterFacts` | src/main/java/de/upb/t2t/control/gui/transcriber/TranscriptionSegment.java:129-147 | A segment ending in a delimiter has buttons, and after appending a button the segment ends in a delimiter exactly when that button is one |
| `Segments.SetLeading` | src/main/java/de/upb/t2t/control/gui/transcriber/TranscriptionSegment.java:192-194 | Only the leading text changes |
| `Segments.SetTrailing` | src/main/java/de/upb/t2t/control/gui/transcriber/TranscriptionSegment.java:203-205 | Only the trailing text changes |
| `Segments.EnclosingSegment` | src/main/java/de/upb/t2t/control/Transcriber.java:828-835 | The "/" segment has an empty lemma and one enclosing delimiter, so it ends in a delimiter |
| `Segments.InnerDelimiterSegment` | src/main/java/de/upb/t2t/control/Transcriber.java:854-875 | Succeeds exactly for a registered mark; shows the mark and one inner delimiter whose bar follows the mark's mode |
| `Resolver.MarkOf` | src/main/java/de/upb/t2t/model/PunctuationCharacter.java:80-131 | A character has a mark exactly when it is a registered single-character mark, and the mark is the registry's entry for it |
| `Resolver.PunctMatches` | src/main/java/de/upb/t2t/control/Transcriber.java:887-900 | Only registered marks are collected, and none is collected exactly when no character is a mark |
| `Resolver.PunctMatchesOrigin` | src/main/java/de/upb/t2t/control/Transcriber.java:887-900 | Every collected mark is the mark of one of the characters, and the mark of every character is collected |
| `Resolver.FindHighestPunctChar` | src/main/java/de/upb/t2t/control/Transcriber.java:884-912 | There is no highest mark exactly when no character is a mark; otherwise it is a registered mark of one of the characters, and no character's mark has a higher mode |
| `Resolver.Highest` | src/main/java/de/upb/t2t/control/Transcriber.java:901-911 | The head after the stable descending sort is a mark of the largest mode with only smaller modes before it, and there is none only for an empty list |
| `Resolver.HighestIsFirstMaximum` | src/main/java/de/upb/t2t/control/Transcriber.java:901-911 | The first mark of the largest mode is the one chosen |
| `Resolver.LeadingButtons` | src/main/java/de/upb/t2t/control/Transcriber.java:449-473 | The leading part adds one inner bar exactly when the highest leading mark has a positive mode, is not a quotation mark answered by one in the trailing text, and the previous segment does not end in a delimiter; the bar is "||" for mode 2 and "|" otherwise, and nothing else is added |
| `Resolver.NumeralPart` | src/main/java/de/upb/t2t/control/Transcriber.java:511-587 | A numeral gives at least one button, all of them word buttons; only the minus moves, so the leading and lemma texts still concatenate to the originals |
| `Resolver.ResolveLemma` | src/main/java/de/upb/t2t/control/Transcriber.java:479-593 | The lemma part always gives at least one word button and no delimiter, and loses or adds no character |
| `Resolver.TrailingSign` | src/main/java/de/upb/t2t/control/Transcriber.java:600-615 | A currency sign as the first trailing character moves from the trailing text to the end of the lemma text and gives one word button, the sign's singular lemma after a singular expression and its plural lemma otherwise; without such a sign the part is unchanged and has no button |
| `Resolver.TrailingBar` | src/main/java/de/upb/t2t/control/Transcriber.java:617-636 | The trailing part adds one inner bar exactly when the highest trailing mark has a positive mode, is not a quotation mark answered by one in the leading text, and the token is not the last; the bar is "||" for mode 2 and "|" otherwise |
| `Resolver.BarByMarks` | src/main/java/de/upb/t2t/control/Transcriber.java:884-912 | For modes 0 to 2, the highest mark calls for a bar exactly when some character's mark does, and for the major bar exactly when some character's mark has mode 2 |
| `Resolver.LeadingBarByMarks` | src/main/java/de/upb/t2t/control/Transcriber.java:449-473 | Without a quotation mark in the trailing text, a leading bar is drawn exactly when some leading mark calls for one and no delimiter precedes, and it is "||" exactly when some leading mark has mode 2 |
| `Resolver.TrailingBarByMarks` | src/main/java/de/upb/t2t/control/Transcriber.java:617-636 | Without a quotation mark in the leading text, a trailing bar is drawn exactly when some trailing mark calls for one and the token is not the last, and it is "||" exactly when some trailing mark has mode 2 |
| `Resolver.SeedTablesLike` | src/main/java/de/upb/t2t/control/database/AbstractSQLiteBridge.java:82-100 | The seeded registries give the quotation mark mode 1, the hyphen-minus mode 0, the full stop mode 2, no mark for "$", and read "$" as the dollar, so the examples below hold for them |
| `Resolver.QuotationMarksDrawNoBar` | src/main/java/de/upb/t2t/control/Transcriber.java:449-473 | A word in quotation marks draws no bar on either side; an unanswered opening quotation mark draws "|" |
| `Resolver.FullStopDrawsMajorBar` | src/main/java/de/upb/t2t/control/Transcriber.java:617-636 | A full stop draws "||" after any token but the last, also before a closing quotation mark, which it outranks; a hyphen-minus draws nothing |
| `Resolver.DollarAfterLemma` | src/main/java/de/upb/t2t/control/Transcriber.java:600-636 | A trailing "$" joins the lemma text and reads "dollar" after a singular expression and "dollars" otherwise, with no bar |
| `Resolver.ResolveHelloFullStop` | src/main/java/de/upb/t2t/control/Transcriber.java:299-643 | The token "hello." gives the lemma "hello", the trailing text ".", a word button for "hello" and the major bar |
| `Resolver.ResolveQuotedHello` | src/main/java/de/upb/t2t/control/Transcriber.java:299-643 | The token "hello" in quotation marks keeps both marks as leading and trailing text and shows only the word button |
| `Resolver.ResolveTrailing` | src/main/java/de/upb/t2t/control/Transcriber.java:598-637 | The trailing part keeps every character, and on the last token it adds only word buttons |
| `Resolver.ResolveTokenText` | src/main/java/de/upb/t2t/control/Transcriber.java:299-643 | The leading, lemma and trailing texts of a resolved token concatenate to the token |
| `Resolver.ResolveTokenShape` | src/main/java/de/upb/t2t/control/Transcriber.java:299-643 | A token with a word character has leading and trailing texts and a word button; a token without one shows just itself as the lemma |
| `Resolver.ResolveTokenLast` | src/main/java/de/upb/t2t/control/Transcriber.java:319-634 | The last token never ends in a delimiter |
| `Resolver.ResolveTokenNoDoubleBar` | src/main/java/de/upb/t2t/control/Transcriber.java:319-470 | After a segment that ends in a delimiter, a token never opens with a delimiter |
| `Resolver.ResolveNumeral` | src/main/java/de/upb/t2t/control/Transcriber.java:501-587 | A year shows its year reading, keeps the common one aside, and both are heard as the number; otherwise a trailing minus in the leading text becomes "minus" and joins the lemma, and the common reading follows |
| `Resolver.ResolveLemmaReadings` | src/main/java/de/upb/t2t/control/Transcriber.java:511-571 | Only a year numeral keeps two readings (both directions) |
| `Resolver.ResolveLemmaWord` | src/main/java/de/upb/t2t/control/Transcriber.java:479-593 | A core without a digit, or one whose parse fails, is looked up as it is |
| `Resolver.ResolveNonWordCases` | src/main/java/de/upb/t2t/control/Transcriber.java:299-384 | A lone mark becomes an inner delimiter unless a delimiter precedes it or it is the last token; a lone sign is read singular or plural after the previous lemma; anything else is looked up as it is |
| `Resolver.ResolveEightyOne` | src/main/java/de/upb/t2t/control/Transcriber.java:479-593 | "81" gives the buttons "eighty" and "one" with nothing moved |
| `Resolver.ResolveAllAt` | src/main/java/de/upb/t2t/control/Transcriber.java:270-645 | Each segment of the loop is its token resolved after the previous segment, and only the final token is resolved as the last |
| `Resolver.PlanShape` | src/main/java/de/upb/t2t/control/Transcriber.java:264-648 | The plan is framed by two "/" segments, and segment i + 1 is token i resolved after segment i |
| `Resolver.PlanTextAt` | src/main/java/de/upb/t2t/control/Transcriber.java:639-643 | Segment i + 1 of the plan shows token i in full |
| `Resolver.PlanProperties` | src/main/java/de/upb/t2t/control/Transcriber.java:264-648 | Every token is shown in full, no bar stands before the closing "/", and no bar follows another delimiter |
| `PostProcessing.NextPhoneticAsWrittenLast` | src/main/java/de/upb/t2t/control/Transcriber.java:733-741 | As written, the next sound is that of the LAST non-empty word button of the next segment ("" when there is none) |
| `PostProcessing.NextPhonetic` | src/main/java/de/upb/t2t/control/Transcriber.java:729-741 | As intended, the next sound is that of the FIRST non-empty word button of the next segment ("" when there is none) |
| `PostProcessing.NextPhoneticSingle` | src/main/java/de/upb/t2t/control/Transcriber.java:733-741 | The two readings agree when the next segment has a single such button |
| `PostProcessing.NextPhoneticReadsLastButton` | src/main/java/de/upb/t2t/control/Transcriber.java:733-741 | "the 81": as written the pass hears /wʌn/ and keeps ðə, while from the first button it hears /eɪti/ and selects ði |
| `PostProcessing.DetItems` | src/main/java/de/upb/t2t/control/Transcriber.java:731-732 | The "det" items of the preferred variety are found exactly when all three lookups succeed, and they are items of the entry |
| `PostProcessing.FirstWeakEndingIn` | src/main/java/de/upb/t2t/control/Transcriber.java:763-777 | Finds the first weak item whose phonetic string ends in the suffix, if any |
| `PostProcessing.TheSelection` | src/main/java/de/upb/t2t/control/Transcriber.java:759-802 | Before a vowel the FIRST "i" weak form wins when there is one, otherwise the first schwa weak form; before a consonant the first schwa weak form; nothing is chosen only when neither applies |
| `PostProcessing.TheSelectionPair` | src/main/java/de/upb/t2t/control/Transcriber.java:763-802 | With one ðə and one ði form, ði is chosen exactly before a vowel |
| `PostProcessing.TheRule` | src/main/java/de/upb/t2t/control/Transcriber.java:727-808 | A failed lookup changes nothing; no next sound or no det items is a conflict; otherwise any selection is a weak det item of the entry |
| `PostProcessing.MarkEntry` | src/main/java/de/upb/t2t/control/Transcriber.java:709-808 | A button is a conflict exactly when its entry spans several word classes or "the" cannot be resolved; only "the" may change its selection, and validity is kept |
| `PostProcessing.FirstWhere` | src/main/java/de/upb/t2t/control/Transcriber.java:696-719 | Finds the first button in display order satisfying the test, and none exactly when no button does |
| `PostProcessing.PostProcessAt` | src/main/java/de/upb/t2t/control/Transcriber.java:688-813 | Segment i after the pass is segment i with its buttons marked, reading the next sound from segment i + 1 as it stood before the pass, under the chosen reading of "next sound" |
| `PostProcessing.PostProcessKeepsSegments` | src/main/java/de/upb/t2t/control/Transcriber.java:670-814 | The pass changes no text, delimiter or button order; an entry keeps its lemma and items, and only "the" may change its selection |
| `PostProcessing.PostProcessConflict` | src/main/java/de/upb/t2t/control/Transcriber.java:709-751 | Under either reading, a word button is styled as a conflict exactly when its entry spans several word classes, or it is "the" with det items but no next sound or no items |
| `PostProcessing.PostProcessThe` | src/main/java/de/upb/t2t/control/Transcriber.java:721-808 | Under either reading, "the" followed by a sound selects the FIRST "i" weak form before a vowel (the first schwa weak form when there is no "i" form) and the first schwa weak form otherwise; a missing det class or preferred variety changes nothing |
| `PostProcessing.PostProcessReadingsAgree` | src/main/java/de/upb/t2t/control/Transcriber.java:729-741 | The two readings give the same segment whenever the next segment has at most one word button with a sound |
| `PostProcessing.PostProcessTheEightyOne` | src/main/java/de/upb/t2t/control/Transcriber.java:727-808 | "the 81" through the whole pass: as written "the" keeps the schwa form ðə, and as intended it selects ði |
| `PostProcessing.PostProcessValid` | src/main/java/de/upb/t2t/control/Transcriber.java:763-802 | Every selection the pass makes is one of the entry's items |
| `PostProcessing.PostProcessFocus` | src/main/java/de/upb/t2t/control/Transcriber.java:699-719 | A button is focused exactly when a word button exists: the first conflict if any, else the first word button |
| `Transcription.FinishAt` | src/main/java/de/upb/t2t/control/Transcriber.java:639-651 | A finished segment keeps the planned texts, button kinds and delimiters |
| `Transcription.TranscribeFraming` | src/main/java/de/upb/t2t/control/Transcriber.java:264-648 | The output is the opening "/", one segment per token, and the closing "/"; a blank sentence gives exactly three segments |
| `Transcription.TranscribeShowsInput` | src/main/java/de/upb/t2t/control/Transcriber.java:240-643 | Segment i + 1 shows token i in full, and the shown texts together are the sentence without its whitespace |
| `Transcription.TranscribeBars` | src/main/java/de/upb/t2t/control/Transcriber.java:264-648 | No bar stands before the closing "/", and no bar follows a segment that already ends in a delimiter |
| `Transcription.TranscribeEntries` | src/main/java/de/upb/t2t/control/Transcriber.java:232-652 | Every shown word button holds the lexicon entry of the key the token loop chose; only "the" may have a different selection. This and the other `Transcription` rows hold for both readings of the post-pass |

## Left out

- Threads, locks, `Platform.runLater`, progress feedback, logging and all JavaFX styling are left out. The post-pass effects are returned as data: a conflict flag per button and the focused position.
- The queued `item.select()` calls of the post-pass run asynchronously in Java. The model applies their final outcome to the entry's selection. It does not model the race with concurrent selection listeners.
- SQL errors and database I/O are left out. The lexicon the transcriber sees is a total function from key to entry. `QueryDatabase` models one query over in-memory tables.
- `AbstractSQLiteBridge` editing operations (add, update and delete of lemmas and transcriptions) and the registry getters are left out. They are database plumbing outside the transcription path.
- `Entries.AddTranscriptionItem` requires complete items, with every field set as the database query builds them. Java would throw a NullPointerException for a null word class, variety or type, and that path is not modelled.
- `Entries.AddTranscriptionItem` is given the preferred variety already resolved. Java calls `Variety.getPreferredVariety()` on every insertion, which throws if the setting names no variety; that failure is not modelled.
- `getMatchedItems` (an unmodifiable copy of the map) and `toString` are left out. The model's map is already immutable.
- Java identity (`==`/`equals` on `WordClass`, `Variety` and listeners) becomes structural equality.
- The year dialog (Transcriber.java:541-571) is UI. The model stores both readings in the segment, with the year reading shown.
- A lone currency sign with no previous segment (Transcriber.java:350-371) cannot happen: the opening "/" segment always precedes the first token. That branch is not modelled.
- A null phonetic string of a selected item is read as "". Java would throw a NullPointerException when the post-pass reads such an item.
- At the closing "/" segment Java would index segment i + 1 out of range. That segment has no word buttons, so no "the" reaches that code, and the model uses "" as the next sound there.
- `PostProcessing.LookUpSettings` looks up the "det" class and the preferred variety once per pass rather than once per "the". The registries do not change during a pass, so every lookup gives the same answer.
- `Numerals.ParseLong` accepts ASCII digits only. `Long.parseLong` also reads other Unicode decimal digits (through `Character.digit`), and one ASCII digit is enough to enter the digit branch. So for the token "1٣1" (with U+0663 ARABIC-INDIC DIGIT THREE), Java parses 131 and gives its numeral reading and, since 100 < 131 < 2000, its year reading. The model finds no numeral there and looks "1٣1" up as it is. Non-ASCII decimal digits are not modelled, because the model's digit test is the ASCII one.
- `Numerals.TensAndOnesDigits` has no `tempNum = -1` sentinel. The sentinel's two cases are written as two branches.
- The registries' `values()` getters are plain sequences here, so they have no members of their own.
- `JavaText.LowerAsciiTwice`: lower-casing is modelled for ASCII letters only; `String.toLowerCase` also lower-cases other scripts.
- `Varieties.GetVarietyByName`: `equalsIgnoreCase` on abbreviations is modelled for ASCII letters only.
- `WordClasses.GetWordClassByName`: `equalsIgnoreCase` on abbreviations is modelled for ASCII letters only.

## Findings

| source | as written | input that shows it | evidently intended | confidence | as-written member | corrected member |
|---|---|---|---|---|---|---|
| src/main/java/de/upb/t2t/control/Transcriber.java:735-740 | The loop that finds the next sound keeps overwriting `nextPhoneticString`, so the LAST non-empty word button of the next segment wins | "the 81": the next segment shows "eighty" /eɪti/ and "one" /wʌn/. The pass hears /wʌn/, a consonant, and keeps ðə | The comment at Transcriber.java:729-730 asks for "the first phonetic string following this item": /eɪti/, a vowel, so ði | not executed | `PostProcessing.NextPhoneticAsWritten` | `PostProcessing.NextPhonetic` |

The as-written behaviour is the pass's `AsWritten` reading, and the intended behaviour is its `Intended` reading. `PostProcessing.PostProcessTheEightyOne` runs "the 81" through both readings of the pass.
