/** An immutable character sequence with containment and position queries
    (NGram.java). The NGram is its character sequence; the set of its distinct
    characters, which the source keeps beside the list, is `Charset`. */
module NGrams {
  import opened Wrappers
  import NullCharacter

  type NGram = seq<char>

  /** A (position, character) pair produced while walking an NGram. */
  datatype IndexedChar = IndexedChar(index: int, character: char)

  /** The distinct characters of `n`. */
  function Charset(n: NGram): (cs: set<char>)
    ensures forall i :: 0 <= i < |n| ==> n[i] in cs
    ensures forall c :: c in cs ==> exists i :: 0 <= i < |n| && n[i] == c
  {
    set i | 0 <= i < |n| :: n[i]
  }

  /** from(List): validates the list, then takes its characters in order. */
  method FromList(characters: Option<seq<Option<char>>>) returns (r: Result<NGram>)
    ensures characters.None? ==> r == Err(NullArgument)
    ensures r.Ok? <==> characters.Some? && NullCharacter.NoNulls(characters.value)
    ensures r.Ok? ==> ToCharacterList(r.value) == characters.value
    ensures characters.Some? && !NullCharacter.NoNulls(characters.value) ==>
      r.Err? && r.error.IllegalArgument? &&
      NullCharacter.IsFirstNull(characters.value, r.error.nullIndex)
  {
    var checked := NullCharacter.Validate(characters);
    if checked.Err? {
      return Err(checked.error);
    }
    var s := checked.value;
    r := Ok(seq(|s|, i requires 0 <= i < |s| => s[i].value));
  }

  /** from(String): a null string is a null-argument error; otherwise the
      NGram holds the string's characters. */
  function FromString(word: Option<string>): (r: Result<NGram>)
    ensures word.None? <==> r == Err(NullArgument)
    ensures word.Some? ==> r.Ok? && Size(r.value) == |word.value|
    ensures word.Some? ==> forall i :: 0 <= i < |word.value| ==> Get(r.value, i) == Ok(word.value[i])
  {
    match word
    case None => Err(NullArgument)
    case Some(w) => Ok(w)
  }

  /** get(index): the character at `index`, or the list's out-of-bounds error. */
  function Get(n: NGram, index: int): (r: Result<char>)
    ensures 0 <= index < |n| <==> r.Ok?
    ensures r.Ok? ==> r.value == n[index]
    ensures r.Err? ==> r.error == IndexOutOfBounds(index)
  {
    if 0 <= index < |n| then Ok(n[index]) else Err(IndexOutOfBounds(index))
  }

  function Size(n: NGram): (r: nat)
    ensures forall i :: Get(n, i).Ok? <==> 0 <= i < r
  {
    |n|
  }

  /** toCharacterList(): the characters as a list without null elements. */
  function ToCharacterList(n: NGram): (l: seq<Option<char>>)
    ensures |l| == Size(n) && NullCharacter.NoNulls(l)
    ensures forall i :: 0 <= i < |n| ==> l[i] == Some(n[i])
  {
    seq(|n|, i requires 0 <= i < |n| => Some(n[i]))
  }

  /** equals(): two NGrams are equal exactly when their lists are. */
  function Equals(a: NGram, b: NGram): (r: bool)
    ensures r <==> |a| == |b| && forall i :: 0 <= i < |a| ==> a[i] == b[i]
  {
    a == b
  }

  /** matches(ic): whether the character at ic.index is ic.character; an
      index outside the NGram is the list's out-of-bounds error. */
  function Matches(n: NGram, ic: IndexedChar): (r: Result<bool>)
    ensures r.Ok? <==> 0 <= ic.index < |n|
    ensures r.Ok? ==> (r.value <==> n[ic.index] == ic.character)
  {
    match Get(n, ic.index)
    case Ok(c) => Ok(ic.character == c)
    case Err(e) => Err(e)
  }

  /** contains(c): membership in the character set. */
  function Contains(n: NGram, c: char): (r: bool)
    ensures r <==> exists i :: 0 <= i < |n| && n[i] == c
  {
    c in Charset(n)
  }

  /** containsElsewhere(ic): the character occurs, and not at ic.index. The
      `&&` short-circuits, so a character that does not occur gives false
      even when ic.index is out of bounds. */
  function ContainsElsewhere(n: NGram, ic: IndexedChar): (r: Result<bool>)
    ensures !Contains(n, ic.character) ==> r == Ok(false)
    ensures Contains(n, ic.character) ==> r.Ok? == (0 <= ic.index < |n|)
    ensures r.Ok? && r.value ==>
      (exists j :: 0 <= j < |n| && j != ic.index && n[j] == ic.character)
    ensures r.Ok? && 0 <= ic.index < |n| ==>
      (r.value <==> Contains(n, ic.character) && n[ic.index] != ic.character)
  {
    if !Contains(n, ic.character) then Ok(false)
    else match Matches(n, ic)
      case Ok(m) => Ok(!m)
      case Err(e) => Err(e)
  }

  /** stream(): the indexed characters in position order. */
  function Stream(n: NGram): (s: seq<IndexedChar>)
    ensures |s| == |n|
    ensures forall i :: 0 <= i < |s| ==> s[i] == IndexedChar(i, n[i])
  {
    seq(|n|, i requires 0 <= i < |n| => IndexedChar(i, n[i]))
  }

  /** The iterator over an NGram: a cursor that moves one position per call
      to Next. */
  class NGramIterator {
    const ngram: NGram
    var index: nat

    ghost predicate Valid()
      reads this
    {
      index <= |ngram|
    }

    /** iterator(): a fresh cursor at position 0. */
    constructor (n: NGram)
      ensures Valid() && ngram == n && index == 0
    {
      ngram := n;
      index := 0;
    }

    predicate HasNext()
      reads this
      ensures HasNext() ==> index < |ngram| && Get(ngram, index).Ok?
      ensures Valid() && !HasNext() ==> index == |ngram|
    {
      index < |ngram|
    }

    /** Returns the pair at the cursor and advances it; past the end it fails
        and the cursor stays put. */
    method Next() returns (r: Result<IndexedChar>)
      requires Valid()
      modifies this
      ensures Valid()
      ensures old(index) < |ngram| ==>
        r == Ok(IndexedChar(old(index), ngram[old(index)])) && index == old(index) + 1
      ensures old(index) >= |ngram| ==> r == Err(NoSuchElement) && index == old(index)
    {
      if !HasNext() {
        return Err(NoSuchElement);
      }
      r := Ok(IndexedChar(index, ngram[index]));
      index := index + 1;
    }
  }

  /** Walks a fresh iterator to exhaustion, as a for-each loop over the NGram
      does; the pairs it yields are those of Stream, in order. */
  method IterateAll(n: NGram) returns (out: seq<IndexedChar>)
    ensures out == Stream(n)
  {
    var it := new NGramIterator(n);
    out := [];
    while it.HasNext()
      invariant it.Valid() && it.ngram == n
      invariant |out| == it.index
      invariant forall i :: 0 <= i < |out| ==> out[i] == IndexedChar(i, n[i])
      decreases |n| - it.index
    {
      var next := it.Next();
      out := out + [next.value];
    }
  }

  /** from("") is the empty NGram. */
  lemma EmptyString()
    ensures FromString(Some("")) == Ok([]) && Size(FromString(Some("")).value) == 0
  {
  }
}
