/** `TranscriptionType`: whether a transcription is the weak or the strong form
    of its lemma, or neither. */
module TranscriptionTypes {
  import opened Wrappers

  datatype TranscriptionType = NoForm | WeakForm | StrongForm
  {
    /** The database id: NONE is 0, WEAK is 1, STRONG is 2. */
    function Id(): (n: nat)
      ensures n <= 2
    {
      match this
      case NoForm => 0
      case WeakForm => 1
      case StrongForm => 2
    }

    function Description(): string {
      match this
      case NoForm => "None"
      case WeakForm => "Weak Form"
      case StrongForm => "Strong Form"
    }

    function Abbreviation(): string {
      match this
      case NoForm => "None"
      case WeakForm => "Weak"
      case StrongForm => "Strong"
    }
  }

  /** `getTranscriptionType(int)`: the type stored under `id`; any other id is rejected. */
  function GetTranscriptionType(id: int): (r: Result<TranscriptionType>)
    ensures r.Success? <==> 0 <= id <= 2
    ensures r.Success? ==> r.value.Id() == id
    ensures r.Failure? ==> r.error == IllegalArgument
  {
    if id == 0 then Success(NoForm)
    else if id == 1 then Success(WeakForm)
    else if id == 2 then Success(StrongForm)
    else Failure(IllegalArgument)
  }

  /** Ids identify types: reading back a type's id yields the type. */
  lemma TranscriptionTypeIdRoundTrip(t: TranscriptionType)
    ensures GetTranscriptionType(t.Id()) == Success(t)
  {
  }
}
