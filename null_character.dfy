/** The null-element check applied to a character list before it becomes an
    NGram (NullCharacterException.java). A list is `seq<Option<char>>`; a null
    element is `None`, and a null list is `None` at the outer level. */
module NullCharacter {
  import opened Wrappers

  /** The checked exception that records where the null element was found. */
  datatype NullCharacterException = NullCharacterException(index: int) {

    /** The index given when the exception was made. */
    function GetIndex(): (r: int)
      ensures this == NullCharacterException(r)
    {
      index
    }

    /** The unchecked exception `validate` throws with this one as its cause. */
    function AsError(): (e: Error)
      ensures e.IllegalArgument? && e.nullIndex == GetIndex()
    {
      IllegalArgument(index)
    }
  }

  /** True when no element of `s` is null. */
  predicate NoNulls(s: seq<Option<char>>)
  {
    forall i :: 0 <= i < |s| ==> s[i].Some?
  }

  /** True when `k` is the position of the first null element of `s`. */
  predicate IsFirstNull(s: seq<Option<char>>, k: int)
  {
    0 <= k < |s| && s[k].None? && forall j :: 0 <= j < k ==> s[j].Some?
  }

  /** Scans the list left to right and stops at the first null element.
      A null list is a null-argument error; a null element at index k is an
      illegal-argument error whose cause carries k; otherwise the very list
      comes back. */
  method Validate(ngram: Option<seq<Option<char>>>) returns (r: Result<seq<Option<char>>>)
    ensures ngram.None? ==> r == Err(NullArgument)
    ensures ngram.Some? && NoNulls(ngram.value) ==> r == Ok(ngram.value)
    ensures ngram.Some? && !NoNulls(ngram.value) ==>
      r.Err? && r.error.IllegalArgument? && IsFirstNull(ngram.value, r.error.nullIndex)
  {
    if ngram.None? {
      return Err(NullArgument);
    }
    var s := ngram.value;
    for i := 0 to |s|
      invariant forall j :: 0 <= j < i ==> s[j].Some?
    {
      if s[i].None? {
        return Err(NullCharacterException(i).AsError());
      }
    }
    return Ok(s);
  }
}
