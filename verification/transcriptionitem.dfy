/** `TranscriptionItem`: one transcription of a lemma, as stored in one database
    row: its phonetic string, whether it is the weak or strong form, its word
    class and its variety.

    Java fields that may be null are `Option`s. An item notifies its selection
    listeners when it is selected; the listener list is modelled on its own,
    generic in the listener type. */
module TranscriptionItems {
  import opened Wrappers
  import opened TranscriptionTypes
  import opened WordClasses
  import opened Varieties

  datatype Item = Item(
    id: int,
    word: string,  // the lemma
    phonetic: Option<string>,
    transType: Option<TranscriptionType>,
    wordClass: Option<WordClass>,
    variety: Option<Variety>)

  /** The lemma-only constructor: no database id (-1) and no transcription data. */
  function NewLemmaItem(word: string): (it: Item)
    ensures it.word == word && !HasSqlId(it) && !IsComplete(it)
  {
    Item(-1, word, None, None, None, None)
  }

  /** An item as the database builds it: every field set. */
  predicate IsComplete(it: Item) {
    it.phonetic.Some? && it.transType.Some? && it.wordClass.Some? && it.variety.Some?
  }

  /** `hasSqlID`: ids handed out by the database are positive. */
  predicate HasSqlId(it: Item) {
    it.id > 0
  }

  /** `isContentWord`: asked of the item's word class, which must be set. */
  function IsContentWord(it: Item): (b: bool)
    requires it.wordClass.Some?
    ensures b <==> it.wordClass.value.contentWord
  {
    it.wordClass.value.contentWord
  }

  /** `addItemSelectionListener`: a listener is registered at most once. */
  function AddListener<L(==,!new)>(listeners: seq<L>, l: L): (r: seq<L>)
    ensures l in r
    ensures forall x :: x in r <==> x in listeners || x == l
    ensures l in listeners ==> r == listeners
    ensures l !in listeners ==> r == listeners + [l]
  {
    if l in listeners then listeners else listeners + [l]
  }

  /** `removeItemSelectionListener`: `List.remove` drops the first occurrence only. */
  function RemoveListener<L(==,!new)>(listeners: seq<L>, l: L): (r: seq<L>)
    ensures l !in listeners ==> r == listeners
    ensures l in listeners ==> |r| == |listeners| - 1
    ensures forall x :: x in r ==> x in listeners
    ensures forall x :: x in listeners && x != l ==> x in r
  {
    if |listeners| == 0 then []
    else if listeners[0] == l then listeners[1..]
    else [listeners[0]] + RemoveListener(listeners[1..], l)
  }

  /** Listener lists built by `AddListener` never hold a listener twice. */
  predicate NoDuplicates<L(==,!new)>(s: seq<L>) {
    forall i, j :: 0 <= i < j < |s| ==> s[i] != s[j]
  }

  /** Adding keeps a list duplicate-free, and removing undoes a fresh addition. */
  lemma AddRemoveListener<L(!new)>(listeners: seq<L>, l: L)
    requires NoDuplicates(listeners)
    ensures NoDuplicates(AddListener(listeners, l))
    ensures l !in listeners ==> RemoveListener(AddListener(listeners, l), l) == listeners
    ensures AddListener(AddListener(listeners, l), l) == AddListener(listeners, l)
  {
    if l !in listeners {
      RemoveAppended(listeners, l);
    }
  }

  lemma {:induction false} RemoveAppended<L(!new)>(listeners: seq<L>, l: L)
    requires l !in listeners
    ensures RemoveListener(listeners + [l], l) == listeners
  {
    if |listeners| > 0 {
      assert (listeners + [l])[1..] == listeners[1..] + [l];
      RemoveAppended(listeners[1..], l);
    }
  }

  /** `select`: every registered listener is told, once, that `it` was selected.
      Each call runs on a thread of its own in Java; the model lists the calls. */
  function Select<L>(listeners: seq<L>, it: Item): (calls: seq<(L, Item)>)
    ensures |calls| == |listeners|
    ensures forall i :: 0 <= i < |calls| ==> calls[i] == (listeners[i], it)
  {
    if |listeners| == 0 then [] else [(listeners[0], it)] + Select(listeners[1..], it)
  }
}
