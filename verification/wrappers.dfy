/** Failure-carrying result types shared by every module of the model.

    The Java code signals "not found" and "malformed argument" with unchecked
    exceptions; the model returns them as values instead. */
module Wrappers {

  datatype Option<+T> = None | Some(value: T)

  /** The exception kinds the modelled Java code throws or catches. */
  datatype Exception =
    | IllegalArgument   // java.lang.IllegalArgumentException
    | NoSuchElement     // java.util.NoSuchElementException
    | NumberFormat      // java.lang.NumberFormatException

  datatype Result<+T> = Success(value: T) | Failure(error: Exception)

  /** Index of the first element satisfying `p`, if there is one. */
  function FindFirst<T>(s: seq<T>, p: T -> bool): (r: Option<nat>)
    ensures r.Some? ==> r.value < |s| && p(s[r.value])
    ensures r.Some? ==> forall j :: 0 <= j < r.value ==> !p(s[j])
    ensures r.None? <==> forall j :: 0 <= j < |s| ==> !p(s[j])
  {
    if |s| == 0 then None
    else if p(s[0]) then Some(0)
    else match FindFirst(s[1..], p)
      case None => None
      case Some(k) => Some(k + 1)
  }

  /** The registry search every static `getX(...)` lookup performs: the first
      element satisfying `p`, or the exception `err` when there is none. */
  function Lookup<T>(s: seq<T>, p: T -> bool, err: Exception): (r: Result<T>)
    ensures r.Success? <==> exists i :: 0 <= i < |s| && p(s[i])
    ensures r.Success? ==> exists i :: 0 <= i < |s| && s[i] == r.value && p(s[i])
                                      && forall j :: 0 <= j < i ==> !p(s[j])
    ensures r.Failure? ==> r.error == err
  {
    match FindFirst(s, p)
    case None => Failure(err)
    case Some(i) => Success(s[i])
  }

  /** Applies `f` to every element in order and stops at the first failure, whose
      exception becomes the result, as a loop that lets the exception escape does. */
  function MapResults<A, B>(xs: seq<A>, f: A -> Result<B>): (r: Result<seq<B>>)
    ensures r.Success? ==> |r.value| == |xs| && forall i :: 0 <= i < |xs| ==> f(xs[i]) == Success(r.value[i])
    ensures r.Failure? ==> exists i :: 0 <= i < |xs| && f(xs[i]) == Failure(r.error)
                                       && forall j :: 0 <= j < i ==> f(xs[j]).Success?
    decreases |xs|
  {
    if |xs| == 0 then Success([])
    else
      var n := |xs| - 1;
      var init := xs[..n];
      assert forall i :: 0 <= i < n ==> init[i] == xs[i];
      match MapResults(init, f)
      case Failure(err) => Failure(err)
      case Success(vs) =>
        match f(xs[n])
        case Failure(err) => Failure(err)
        case Success(v) =>
          var r := vs + [v];
          assert forall i :: 0 <= i < n ==> r[i] == vs[i];
          Success(r)
  }

  /** `compareTo` of the id-ordered registry classes: -1, 0 or 1. */
  function CompareIds(a: int, b: int): (r: int)
    ensures r == -1 <==> a < b
    ensures r == 0 <==> a == b
    ensures r == 1 <==> a > b
  {
    if a < b then -1 else if a == b then 0 else 1
  }

  /** Swapping the operands negates the comparison. */
  lemma CompareIdsAntisymmetric(a: int, b: int)
    ensures CompareIds(a, b) == -CompareIds(b, a)
  {
  }

  /** Indexing into a sequence built by putting `s` in front of `rest`. */
  lemma ConsAt<T>(r: seq<T>, s: T, rest: seq<T>, i: nat)
    requires r == [s] + rest && 0 < i < |r|
    ensures r[i] == rest[i - 1]
    ensures r[i - 1] == if i == 1 then s else rest[i - 2]
  {
  }
}
