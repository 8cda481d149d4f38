/** `DatabaseEntry`: everything the database holds for one lemma, grouped by
    word class and then by variety, together with the transcription currently
    selected for display.

    The Java object is mutable and guarded by a lock; the model is a value, and
    each mutator returns the updated entry. The preferred variety, which Java
    reads from the settings on every insertion, is passed in already resolved. */
module Entries {
  import opened Wrappers
  import opened JavaText
  import opened TranscriptionTypes
  import opened WordClasses
  import opened Varieties
  import opened TranscriptionItems

  type Matches = map<WordClass, map<Variety, seq<Item>>>

  datatype Entry = Entry(word: string, matched: Matches, selected: Option<Item>)

  /** The constructor: the lemma is stored in lower case, nothing is matched or selected. */
  function NewEntry(word: string): (e: Entry)
    ensures e.word == LowerAscii(word) && e.matched == map[] && e.selected.None?
    ensures Valid(e) && IsEmpty(e)
  {
    Entry(LowerAscii(word), map[], None)
  }

  /** The list stored under (wc, v); empty when there is none. */
  function ItemsOf(m: Matches, wc: WordClass, v: Variety): seq<Item> {
    if wc in m && v in m[wc] then m[wc][v] else []
  }

  /** Every item stored anywhere in the entry. */
  function AllItems(m: Matches): set<Item> {
    set wc, v, it | wc in m && v in m[wc] && it in m[wc][v] :: it
  }

  lemma InAllItems(m: Matches, wc: WordClass, v: Variety, it: Item)
    requires it in ItemsOf(m, wc, v)
    ensures it in AllItems(m)
  {
  }

  /** The list under (wc, v) is non-empty and holds complete items of that word class and variety. */
  predicate WellStored(m: Matches, wc: WordClass, v: Variety) {
    && |ItemsOf(m, wc, v)| > 0
    && forall it :: it in ItemsOf(m, wc, v) ==>
         IsComplete(it) && it.wordClass == Some(wc) && it.variety == Some(v)
  }

  /** The shape `addTranscriptionItem` maintains: no empty map or list is ever
      created, every item sits under its own word class and variety, and an item
      is selected exactly when anything is stored, and it is one of the stored ones. */
  predicate Valid(e: Entry) {
    && (forall wc :: wc in e.matched ==> |e.matched[wc]| > 0)
    && (forall wc, v :: wc in e.matched && v in e.matched[wc] ==> WellStored(e.matched, wc, v))
    && (e.selected.None? <==> e.matched == map[])
    && (e.selected.Some? ==> e.selected.value in AllItems(e.matched))
  }

  predicate IsPreferred(it: Item, pref: Variety) {
    it.variety == Some(pref)
  }

  predicate IsWeak(it: Item) {
    it.transType == Some(WeakForm)
  }

  /** Whether inserting `it` moves the selection to it: when nothing is selected
      yet, or when `it` is of the preferred variety and either is a weak form or
      replaces a selection of another variety. */
  predicate TakesSelection(current: Option<Item>, it: Item, pref: Variety) {
    || current.None?
    || (!IsPreferred(current.value, pref) && IsPreferred(it, pref))
    || (IsPreferred(it, pref) && IsWeak(it))
  }

  /** Appends `it` to the list of its word class and variety, creating the inner
      map and the list on first use (`getTranscriptionsList`, `getVarietiesMap`). */
  function Insert(m: Matches, it: Item): (r: Matches)
    requires IsComplete(it)
    ensures ItemsOf(r, it.wordClass.value, it.variety.value) == ItemsOf(m, it.wordClass.value, it.variety.value) + [it]
    ensures forall wc, v :: (wc, v) != (it.wordClass.value, it.variety.value) ==> ItemsOf(r, wc, v) == ItemsOf(m, wc, v)
    ensures r.Keys == m.Keys + {it.wordClass.value}
    ensures forall wc :: wc in m ==> m[wc].Keys <= r[wc].Keys
    ensures it.variety.value in r[it.wordClass.value]
    ensures AllItems(r) == AllItems(m) + {it}
  {
    var wc := it.wordClass.value;
    var v := it.variety.value;
    var inner := if wc in m then m[wc] else map[];
    var list := if v in inner then inner[v] else [];
    var r := m[wc := inner[v := list + [it]]];
    InsertItems(m, it, r);
    r
  }

  lemma InsertItems(m: Matches, it: Item, r: Matches)
    requires IsComplete(it)
    requires var wc := it.wordClass.value;
             var inner := if wc in m then m[wc] else map[];
             var list := if it.variety.value in inner then inner[it.variety.value] else [];
             r == m[wc := inner[it.variety.value := list + [it]]]
    ensures AllItems(r) == AllItems(m) + {it}
  {
    var wc := it.wordClass.value;
    var v := it.variety.value;
    assert ItemsOf(r, wc, v) == ItemsOf(m, wc, v) + [it];
    forall x | x in AllItems(r)
      ensures x in AllItems(m) + {it}
    {
      var wc', v' :| wc' in r && v' in r[wc'] && x in r[wc'][v'];
      if (wc', v') != (wc, v) {
        assert x in ItemsOf(m, wc', v');
        InAllItems(m, wc', v', x);
      } else if x != it {
        assert x in ItemsOf(m, wc, v);
        InAllItems(m, wc, v, x);
      }
    }
    forall x | x in AllItems(m) + {it}
      ensures x in AllItems(r)
    {
      if x == it {
        InAllItems(r, wc, v, x);
      } else {
        var wc', v' :| wc' in m && v' in m[wc'] && x in m[wc'][v'];
        assert x in ItemsOf(r, wc', v');
        InAllItems(r, wc', v', x);
      }
    }
  }

  /** Inserting never leaves an empty inner map behind. */
  lemma InsertNonEmptyMaps(m: Matches, it: Item)
    requires IsComplete(it)
    requires forall wc :: wc in m ==> |m[wc]| > 0
    ensures var r := Insert(m, it); forall wc :: wc in r ==> |r[wc]| > 0
  {
    var r := Insert(m, it);
    forall wc | wc in r
      ensures |r[wc]| > 0
    {
      if wc == it.wordClass.value {
        assert it.variety.value in r[wc];
      } else {
        var v :| v in m[wc];
        assert v in r[wc];
      }
    }
  }

  /** Inserting a complete item keeps every list well stored. */
  lemma InsertWellStored(m: Matches, it: Item)
    requires IsComplete(it)
    requires forall wc, v :: wc in m && v in m[wc] ==> WellStored(m, wc, v)
    ensures var r := Insert(m, it); forall wc, v :: wc in r && v in r[wc] ==> WellStored(r, wc, v)
  {
    var r := Insert(m, it);
    forall wc, v | wc in r && v in r[wc]
      ensures WellStored(r, wc, v)
    {
      if (wc, v) != (it.wordClass.value, it.variety.value) {
        WellStoredUntouched(m, r, wc, v);
      }
    }
  }

  lemma WellStoredUntouched(m: Matches, r: Matches, wc: WordClass, v: Variety)
    requires forall wc, v :: wc in m && v in m[wc] ==> WellStored(m, wc, v)
    requires wc in r && v in r[wc] && |r[wc][v]| > 0
    requires ItemsOf(r, wc, v) == ItemsOf(m, wc, v)
    ensures WellStored(r, wc, v)
  {
    assert wc in m && v in m[wc];
    assert WellStored(m, wc, v);
  }

  /** `addTranscriptionItem`: append `it` to the list of its word class and variety,
      and possibly select it. */
  function AddTranscriptionItem(e: Entry, it: Item, pref: Variety): (r: Entry)
    requires IsComplete(it)
    ensures r.word == e.word
    ensures ItemsOf(r.matched, it.wordClass.value, it.variety.value)
            == ItemsOf(e.matched, it.wordClass.value, it.variety.value) + [it]
    ensures forall wc, v :: (wc, v) != (it.wordClass.value, it.variety.value) ==>
              ItemsOf(r.matched, wc, v) == ItemsOf(e.matched, wc, v)
    ensures r.matched.Keys == e.matched.Keys + {it.wordClass.value}
    ensures AllItems(r.matched) == AllItems(e.matched) + {it}
    ensures e.selected.None? || (IsPreferred(it, pref) && (IsWeak(it) || !IsPreferred(e.selected.value, pref)))
            ==> r.selected == Some(it)
    ensures e.selected.Some? && !IsPreferred(it, pref) ==> r.selected == e.selected
    ensures e.selected.Some? && IsPreferred(e.selected.value, pref) && !IsWeak(it) ==> r.selected == e.selected
    ensures Valid(e) ==> Valid(r)
  {
    var selected := if TakesSelection(e.selected, it, pref) then Some(it) else e.selected;
    var r := Entry(e.word, Insert(e.matched, it), selected);
    if Valid(e) then
      InsertNonEmptyMaps(e.matched, it);
      InsertWellStored(e.matched, it);
      r
    else
      r
  }

  /** `onItemSelected`: the listener callback; the selection becomes `it`. */
  function OnItemSelected(e: Entry, it: Item): (r: Entry)
    ensures r.selected == Some(it)
    ensures r.word == e.word && r.matched == e.matched
    ensures Valid(e) && it in AllItems(e.matched) ==> Valid(r)
  {
    Entry(e.word, e.matched, Some(it))
  }

  /** `isEmpty`: nothing is matched; for a valid entry, no item is stored. */
  function IsEmpty(e: Entry): (b: bool)
    ensures b <==> e.matched == map[]
    ensures Valid(e) ==> (b <==> AllItems(e.matched) == {})
  {
    if Valid(e) && e.matched != map[] then
      StoredItemExists(e);
      false
    else
      |e.matched| == 0
  }

  lemma StoredItemExists(e: Entry)
    requires Valid(e) && e.matched != map[]
    ensures AllItems(e.matched) != {}
  {
    var wc :| wc in e.matched;
    var v :| v in e.matched[wc];
    assert WellStored(e.matched, wc, v);
    InAllItems(e.matched, wc, v, e.matched[wc][v][0]);
  }

  /** `matchesMultipleWordClasses`: more than one word class holds items. */
  function MatchesMultipleWordClasses(e: Entry): (b: bool)
    ensures b <==> exists w1, w2 :: w1 in e.matched && w2 in e.matched && w1 != w2
  {
    TwoKeys(e.matched.Keys);
    |e.matched.Keys| > 1
  }

  /** A set has more than one element exactly when it holds two distinct ones. */
  lemma TwoKeys<T>(keys: set<T>)
    ensures |keys| > 1 <==> exists w1, w2 :: w1 in keys && w2 in keys && w1 != w2
  {
    if |keys| > 1 {
      var w1 :| w1 in keys;
      assert |keys - {w1}| > 0;
      var w2 :| w2 in keys - {w1};
      assert w1 in keys && w2 in keys && w1 != w2;
    } else if exists w1, w2 :: w1 in keys && w2 in keys && w1 != w2 {
      var w1, w2 :| w1 in keys && w2 in keys && w1 != w2;
      assert |{w1, w2}| == 2;
      SubsetCardinality({w1, w2}, keys);
    }
  }

  lemma SubsetCardinality<T>(a: set<T>, b: set<T>)
    requires a <= b
    ensures |a| <= |b|
  {
    assert b == a + (b - a);
  }

  /** `getTranscriptionItems`: the list under (wc, v), or NoSuchElement when Java's
      nested `get` finds no list. */
  function GetTranscriptionItems(e: Entry, wc: WordClass, v: Variety): (r: Result<seq<Item>>)
    ensures r.Success? <==> wc in e.matched && v in e.matched[wc]
    ensures r.Success? ==> r.value == ItemsOf(e.matched, wc, v)
    ensures r.Failure? ==> r.error == NoSuchElement && ItemsOf(e.matched, wc, v) == []
    ensures Valid(e) && r.Success? ==>
              |r.value| > 0 && forall it :: it in r.value ==> it.wordClass == Some(wc) && it.variety == Some(v)
  {
    if wc in e.matched && v in e.matched[wc] then
      assert Valid(e) ==> WellStored(e.matched, wc, v);
      Success(e.matched[wc][v])
    else
      Failure(NoSuchElement)
  }

  /** `getTranscriptionItemById`: some stored item with that id. Java walks its hash
      maps, whose order is unspecified; the model picks any matching item. */
  method GetTranscriptionItemById(e: Entry, id: int) returns (r: Result<Item>)
    ensures r.Success? <==> exists it :: it in AllItems(e.matched) && it.id == id
    ensures r.Success? ==> r.value in AllItems(e.matched) && r.value.id == id
    ensures r.Failure? ==> r.error == NoSuchElement
  {
    var candidates := set it | it in AllItems(e.matched) && it.id == id;
    if candidates == {} {
      assert forall it :: it in AllItems(e.matched) && it.id == id ==> it in candidates;
      r := Failure(NoSuchElement);
    } else {
      var it :| it in candidates;
      r := Success(it);
    }
  }

  /** Items of the sequence stored under (wc, v), in sequence order. */
  function Filter(items: seq<Item>, wc: WordClass, v: Variety): (r: seq<Item>)
    ensures |r| <= |items|
    ensures forall it :: it in r <==> it in items && it.wordClass == Some(wc) && it.variety == Some(v)
  {
    if |items| == 0 then []
    else
      var last := items[|items| - 1];
      Filter(items[..|items| - 1], wc, v)
      + (if last.wordClass == Some(wc) && last.variety == Some(v) then [last] else [])
  }

  /** The entry the database bridge builds: a fresh entry with the items inserted in row order. */
  function BuildEntry(word: string, items: seq<Item>, pref: Variety): (e: Entry)
    requires forall i :: 0 <= i < |items| ==> IsComplete(items[i])
    ensures e.word == LowerAscii(word)
  {
    if |items| == 0 then NewEntry(word)
    else AddTranscriptionItem(BuildEntry(word, items[..|items| - 1], pref), items[|items| - 1], pref)
  }

  /** The last item of the preferred variety that is a weak form. */
  function LastPreferredWeak(items: seq<Item>, pref: Variety): (r: Option<Item>)
    ensures r.Some? ==> r.value in items && IsPreferred(r.value, pref) && IsWeak(r.value)
    ensures r.None? <==> forall i :: 0 <= i < |items| ==> !(IsPreferred(items[i], pref) && IsWeak(items[i]))
  {
    if |items| == 0 then None
    else
      var last := items[|items| - 1];
      if IsPreferred(last, pref) && IsWeak(last) then Some(last)
      else LastPreferredWeak(items[..|items| - 1], pref)
  }

  /** The first item of the preferred variety. */
  function FirstPreferred(items: seq<Item>, pref: Variety): (r: Option<Item>)
    ensures r.Some? ==> r.value in items && IsPreferred(r.value, pref)
    ensures r.None? <==> forall i :: 0 <= i < |items| ==> !IsPreferred(items[i], pref)
  {
    if |items| == 0 then None
    else match FirstPreferred(items[..|items| - 1], pref)
      case Some(it) => Some(it)
      case None =>
        var last := items[|items| - 1];
        if IsPreferred(last, pref) then Some(last) else None
  }

  /** Which item ends up selected after inserting `items` in order: the last weak
      form of the preferred variety; failing that, the first item of the preferred
      variety; failing that, the first item; and nothing for no items. */
  function ExpectedSelection(items: seq<Item>, pref: Variety): Option<Item> {
    if LastPreferredWeak(items, pref).Some? then LastPreferredWeak(items, pref)
    else if FirstPreferred(items, pref).Some? then FirstPreferred(items, pref)
    else if |items| > 0 then Some(items[0])
    else None
  }

  /** The bridge always builds a valid entry. */
  lemma {:induction false} BuildEntryValid(word: string, items: seq<Item>, pref: Variety)
    requires forall i :: 0 <= i < |items| ==> IsComplete(items[i])
    ensures Valid(BuildEntry(word, items, pref))
  {
    if |items| > 0 {
      BuildEntryValid(word, items[..|items| - 1], pref);
    }
  }

  /** Each list of a built entry holds the items of its word class and variety in row order. */
  lemma {:induction false} BuildEntryLists(word: string, items: seq<Item>, pref: Variety, wc: WordClass, v: Variety)
    requires forall i :: 0 <= i < |items| ==> IsComplete(items[i])
    ensures ItemsOf(BuildEntry(word, items, pref).matched, wc, v) == Filter(items, wc, v)
  {
    if |items| > 0 {
      var init := items[..|items| - 1];
      var it := items[|items| - 1];
      BuildEntryLists(word, init, pref, wc, v);
      if (wc, v) == (it.wordClass.value, it.variety.value) {
        assert ItemsOf(BuildEntry(word, items, pref).matched, wc, v)
            == ItemsOf(BuildEntry(word, init, pref).matched, wc, v) + [it];
      }
    }
  }

  /** The item a built entry selects is the one `ExpectedSelection` names. */
  lemma {:induction false} BuildEntrySelection(word: string, items: seq<Item>, pref: Variety)
    requires forall i :: 0 <= i < |items| ==> IsComplete(items[i])
    ensures BuildEntry(word, items, pref).selected == ExpectedSelection(items, pref)
  {
    if |items| > 0 {
      var init := items[..|items| - 1];
      var it := items[|items| - 1];
      BuildEntrySelection(word, init, pref);
      var e0 := BuildEntry(word, init, pref);
      assert BuildEntry(word, items, pref) == AddTranscriptionItem(e0, it, pref);
      assert BuildEntry(word, items, pref).selected
          == if TakesSelection(e0.selected, it, pref) then Some(it) else e0.selected;
      SelectionStep(items, pref);
    }
  }

  /** One insertion step of the selection rule, stated on `ExpectedSelection`. */
  lemma SelectionStep(items: seq<Item>, pref: Variety)
    requires |items| > 0
    ensures var cur := ExpectedSelection(items[..|items| - 1], pref);
            var it := items[|items| - 1];
            ExpectedSelection(items, pref) == if TakesSelection(cur, it, pref) then Some(it) else cur
  {
    var init := items[..|items| - 1];
    var cur := ExpectedSelection(init, pref);
    if |init| > 0 {
      assert items[0] == init[0];
    }
    if cur.Some? && !IsPreferred(cur.value, pref) {
      // Only the first item can be selected when no item is preferred.
      assert FirstPreferred(init, pref).None?;
    }
  }
}
