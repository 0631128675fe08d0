/** A corpus of n-grams of one length, its builder, and the scores used to
    choose a guess (Corpus.java). A corpus is an immutable value; its
    builder is an object whose n-gram set is updated in place. */
module Corpora {
  import opened Wrappers
  import opened NGrams
  import Filters
  import MatcherSpec
  import MatcherLemmas
  import Matcher

  /** Corpus(corpus, wordSize): the member set and the common length. Only
      Builder.Build makes one, and then `Built` holds. */
  datatype Corpus = Corpus(members: set<NGram>, wordSize: int)

  /** What Builder.Build guarantees of the corpus it returns. */
  ghost predicate Built(c: Corpus)
  {
    c.members != {} && forall n :: n in c.members ==> |n| == c.wordSize
  }

  // ---------------------------------------------------------------------
  // Counting over a finite set

  /** A subset of a finite set is no larger. */
  lemma {:induction false} SubsetSize<T>(a: set<T>, b: set<T>)
    requires a <= b
    ensures |a| <= |b|
    decreases b
  {
    if a != {} {
      var x :| x in a;
      SubsetSize(a - {x}, b - {x});
    }
  }

  /** The n-grams of `s` that pass `f`. */
  function Passing(s: set<NGram>, f: Filters.Filter): (p: set<NGram>)
    ensures p <= s
    ensures forall n :: n in s && Filters.Test(f, n) ==> n in p
    ensures forall n :: n in p ==> Filters.Test(f, n)
  {
    set n | n in s && Filters.Test(f, n)
  }

  /** Filtering again by the same filter changes nothing. */
  lemma PassingIdempotent(s: set<NGram>, f: Filters.Filter)
    ensures Passing(Passing(s, f), f) == Passing(s, f)
  {
  }

  /** The members of `c` that pass `f`. */
  function Survivors(c: Corpus, f: Filters.Filter): set<NGram>
  {
    Passing(c.members, f)
  }

  /** size(filter): how many members pass `filter`; never more than the
      corpus holds. */
  function Size(c: Corpus, f: Filters.Filter): (r: nat)
    ensures r == |Survivors(c, f)|
    ensures r <= |c.members|
  {
    SubsetSize(Survivors(c, f), c.members);
    |Survivors(c, f)|
  }

  /** Filter.FALSE lets no member through. */
  lemma SizeFalse(c: Corpus)
    ensures Size(c, Filters.False) == 0
  {
    assert Survivors(c, Filters.False) == {};
  }

  /** A filter that accepts every member lets every member through. */
  lemma SizeAll(c: Corpus, f: Filters.Filter)
    requires forall n :: n in c.members ==> Filters.Test(f, n)
    ensures Size(c, f) == |c.members|
  {
    assert Survivors(c, f) == c.members;
  }

  /** Adding a conjunct never lets more members through. */
  lemma SizeAnd(c: Corpus, f: Filters.Filter, g: Filters.Filter)
    ensures Size(c, Filters.And(f, Some(g))) <= Size(c, f)
  {
    SubsetSize(Survivors(c, Filters.And(f, Some(g))), Survivors(c, f));
  }

  // ---------------------------------------------------------------------
  // Scores

  /** The filter a fresh matcher derives from `key` and `guess`. */
  function Feedback(key: NGram, guess: NGram): Filters.Filter
  {
    MatcherSpec.ToFilter(MatcherSpec.Match(key, guess))
  }

  /** score(key, guess) on a non-empty corpus: the members still possible
      once the feedback for `guess` against `key` is known. */
  function Survive(c: Corpus, key: NGram, guess: NGram): (r: nat)
    ensures r <= |c.members|
    ensures key in c.members && |key| == |guess| ==> r >= 1
  {
    var survivors := Survivors(c, Feedback(key, guess));
    if key in c.members && |key| == |guess| then
      MatcherLemmas.KeyPasses(key, guess);
      assert key in survivors;
      Size(c, Feedback(key, guess))
    else
      Size(c, Feedback(key, guess))
  }

  /** score(key, guess): an invalid-state error on an empty corpus, else the
      number of survivors, which is at most the corpus size. */
  function Score(c: Corpus, key: NGram, guess: NGram): (r: Result<nat>)
    ensures r.Err? <==> c.members == {}
    ensures r.Err? ==> r.error == IllegalState
    ensures r.Ok? ==> r.value == Survive(c, key, guess) && r.value <= |c.members|
  {
    if c.members == {} then Err(IllegalState) else Ok(Survive(c, key, guess))
  }

  /** score(key, guess) as the source runs it: a fresh NGramMatcher derives
      the filter, and the members that pass it are counted. */
  method ScoreOf(c: Corpus, key: NGram, guess: NGram) returns (r: Result<nat>)
    ensures r == Score(c, key, guess)
  {
    if c.members == {} {
      return Err(IllegalState);
    }
    var feedback := Matcher.MatchOf(key, guess);
    r := Ok(Size(c, MatcherSpec.ToFilter(feedback)));
  }

  /** The key itself is always among the survivors when it is a member of
      the corpus and has the guess's length. */
  lemma KeySurvives(c: Corpus, key: NGram, guess: NGram)
    requires key in c.members && |key| == |guess|
    ensures Score(c, key, guess).Ok? && Score(c, key, guess).value >= 1
  {
    MatcherLemmas.KeyPasses(key, guess);
    assert key in Survivors(c, Feedback(key, guess));
  }

  /** A guess of the wrong length is scored by the reject-all filter. */
  lemma WrongLengthScoresZero(c: Corpus, key: NGram, guess: NGram)
    requires c.members != {} && |key| != |guess|
    ensures Score(c, key, guess) == Ok(0)
  {
    MatcherLemmas.LengthMismatchRejects(key, guess, key);
    assert MatcherSpec.Match(key, guess) == MatcherSpec.RejectAll;
    SizeFalse(c);
  }

  /** The element a stream over `keys` happens to visit first. */
  ghost function Pick(keys: set<NGram>): (k: NGram)
    requires keys != {}
    ensures k in keys
  {
    var k :| k in keys; k
  }

  /** The maximum of `f` over a non-empty set: at least every value, and
      attained by some element. */
  ghost function MaxOf(keys: set<NGram>, f: NGram -> nat): (m: nat)
    requires keys != {}
    ensures forall k :: k in keys ==> f(k) <= m
    ensures exists k :: k in keys && f(k) == m
    decreases keys
  {
    var k := Pick(keys);
    if keys == {k} then f(k)
    else
      var rest := MaxOf(keys - {k}, f);
      if f(k) >= rest then f(k) else rest
  }

  /** The sum of `f` over a set: zero on the empty set, at least each
      value. */
  ghost function SumOf(keys: set<NGram>, f: NGram -> nat): (s: nat)
    ensures keys == {} ==> s == 0
    ensures forall k :: k in keys ==> f(k) <= s
    decreases keys
  {
    if keys == {} then 0
    else
      var k := Pick(keys);
      f(k) + SumOf(keys - {k}, f)
  }

  lemma MulSucc(n: nat, b: nat)
    ensures n * b + b == (n + 1) * b
  {
  }

  /** The sum is at most the number of elements times a bound on `f`. */
  lemma {:induction false} SumOfBound(keys: set<NGram>, f: NGram -> nat, bound: nat)
    requires forall k :: k in keys ==> f(k) <= bound
    ensures SumOf(keys, f) <= |keys| * bound
    decreases keys
  {
    if keys != {} {
      var k := Pick(keys);
      var rest := keys - {k};
      SumOfBound(rest, f, bound);
      assert SumOf(keys, f) == f(k) + SumOf(rest, f);
      assert |rest| == |keys| - 1;
      assert |rest| * bound + bound == |keys| * bound by {
        MulSucc(|rest|, bound);
      }
    }
  }

  /** An element of a non-empty set where `f` is smallest. */
  ghost function ArgMin(keys: set<NGram>, f: NGram -> int): (m: NGram)
    requires keys != {}
    ensures m in keys
    ensures forall k :: k in keys ==> f(m) <= f(k)
    decreases keys
  {
    var k := Pick(keys);
    if keys == {k} then k
    else
      var rest := ArgMin(keys - {k}, f);
      if f(k) <= f(rest) then k else rest
  }

  /** scoreWorstCase(guess): the largest score of `guess` over every member
      taken as the key; an invalid-state error on an empty corpus. */
  ghost function ScoreWorstCase(c: Corpus, guess: NGram): (r: Result<nat>)
    ensures r.Err? <==> c.members == {}
    ensures r.Err? ==> r.error == IllegalState
    ensures r.Ok? ==> forall k :: k in c.members ==> Survive(c, k, guess) <= r.value
    ensures r.Ok? ==> exists k :: k in c.members && Survive(c, k, guess) == r.value
  {
    if c.members == {} then Err(IllegalState)
    else Ok(MaxOf(c.members, k => Survive(c, k, guess)))
  }

  /** scoreAverageCase(guess): the sum of the scores of `guess` over every
      member taken as the key; zero, not an error, on an empty corpus. */
  ghost function ScoreAverageCase(c: Corpus, guess: NGram): (r: nat)
    ensures c.members == {} ==> r == 0
    ensures forall k :: k in c.members ==> Survive(c, k, guess) <= r
  {
    SumOf(c.members, k => Survive(c, k, guess))
  }

  /** The average-case sum is at least the worst case and at most the
      square of the corpus size. */
  lemma AverageCaseBounds(c: Corpus, guess: NGram)
    ensures c.members != {} ==> ScoreWorstCase(c, guess).value <= ScoreAverageCase(c, guess)
    ensures ScoreAverageCase(c, guess) <= |c.members| * |c.members|
  {
    SumOfBound(c.members, k => Survive(c, k, guess), |c.members|);
  }

  /** In a built corpus, a guess of the corpus's word size never leaves
      zero candidates in the worst case. */
  lemma WorstCasePositive(c: Corpus, guess: NGram)
    requires Built(c) && |guess| == c.wordSize
    ensures ScoreWorstCase(c, guess).Ok? && ScoreWorstCase(c, guess).value >= 1
  {
    var k :| k in c.members;
    KeySurvives(c, k, guess);
  }

  /** bestGuess(criterion): a member with the smallest criterion value; an
      invalid-state error on an empty corpus. */
  ghost function BestGuess(c: Corpus, criterion: NGram -> int): (r: Result<NGram>)
    ensures r.Err? <==> c.members == {}
    ensures r.Err? ==> r.error == IllegalState
    ensures r.Ok? ==> r.value in c.members
    ensures r.Ok? ==> forall n :: n in c.members ==> criterion(r.value) <= criterion(n)
  {
    if c.members == {} then Err(IllegalState) else Ok(ArgMin(c.members, criterion))
  }

  /** The worst-case score as a criterion; on an empty corpus it is never
      consulted. */
  ghost function WorstCase(c: Corpus, guess: NGram): int
  {
    if c.members == {} then 0 else MaxOf(c.members, k => Survive(c, k, guess))
  }

  /** bestWorstCaseGuess(): a member whose worst-case score is no larger
      than any other member's. */
  ghost function BestWorstCaseGuess(c: Corpus): (r: Result<NGram>)
    ensures r.Err? <==> c.members == {}
    ensures r.Err? ==> r.error == IllegalState
    ensures r.Ok? ==> r.value in c.members
    ensures r.Ok? ==> forall n :: n in c.members ==> WorstCase(c, r.value) <= WorstCase(c, n)
  {
    BestGuess(c, g => WorstCase(c, g))
  }

  /** The criterion bestWorstCaseGuess minimises is scoreWorstCase. */
  lemma WorstCaseIsScore(c: Corpus, guess: NGram)
    requires c.members != {}
    ensures ScoreWorstCase(c, guess) == Ok(WorstCase(c, guess))
  {
  }

  /** bestAverageCaseGuess(): a member whose average-case sum is no larger
      than any other member's. */
  ghost function BestAverageCaseGuess(c: Corpus): (r: Result<NGram>)
    ensures r.Err? <==> c.members == {}
    ensures r.Err? ==> r.error == IllegalState
    ensures r.Ok? ==> r.value in c.members
    ensures r.Ok? ==> forall n :: n in c.members ==>
      ScoreAverageCase(c, r.value) <= ScoreAverageCase(c, n)
  {
    BestGuess(c, g => ScoreAverageCase(c, g))
  }

  // ---------------------------------------------------------------------
  // The builder

  /** The non-null elements of a collection handed to addAll. */
  function NonNull(items: seq<Option<NGram>>): (s: set<NGram>)
    ensures forall i :: 0 <= i < |items| && items[i].Some? ==> items[i].value in s
    ensures forall n :: n in s ==> Some(n) in items
  {
    set i | 0 <= i < |items| && items[i].Some? :: items[i].value
  }

  lemma NonNullSnoc(items: seq<Option<NGram>>, x: Option<NGram>)
    ensures NonNull(items + [x]) == NonNull(items) + (if x.Some? then {x.value} else {})
  {
    var all := items + [x];
    assert forall i :: 0 <= i < |items| ==> all[i] == items[i];
    if x.Some? {
      assert all[|items|] == x;
    }
  }

  class Builder {
    var ngrams: set<NGram>

    /** Builder.empty(). */
    constructor Empty()
      ensures ngrams == {}
    {
      ngrams := {};
    }

    /** Builder.of(corpus): a new builder holding the corpus's members. */
    static method Of(corpus: Corpus) returns (b: Builder)
      ensures fresh(b) && b.ngrams == corpus.members
    {
      b := new Builder.Empty();
      b.ngrams := b.ngrams + corpus.members;
    }

    /** add(ngram): a null n-gram is refused; otherwise it joins the set and
        the same builder is returned. */
    method Add(ngram: Option<NGram>) returns (r: Result<Builder>)
      modifies this
      ensures ngram.None? ==> r == Err(NullArgument) && ngrams == old(ngrams)
      ensures ngram.Some? ==> r == Ok(this) && ngrams == old(ngrams) + {ngram.value}
    {
      if ngram.None? {
        return Err(NullArgument);
      }
      ngrams := ngrams + {ngram.value};
      r := Ok(this);
    }

    /** addAll(ngrams): a null collection is refused; otherwise every
        non-null element is added and null elements are skipped. */
    method AddAll(items: Option<seq<Option<NGram>>>) returns (r: Result<Builder>)
      modifies this
      ensures items.None? ==> r == Err(NullArgument) && ngrams == old(ngrams)
      ensures items.Some? ==> r == Ok(this) && ngrams == old(ngrams) + NonNull(items.value)
    {
      if items.None? {
        return Err(NullArgument);
      }
      var list := items.value;
      for i := 0 to |list|
        invariant ngrams == old(ngrams) + NonNull(list[..i])
      {
        NonNullSnoc(list[..i], list[i]);
        assert list[..i + 1] == list[..i] + [list[i]];
        if list[i].Some? {
          var _ := Add(list[i]);
        }
      }
      assert list[..|list|] == list;
      r := Ok(this);
    }

    /** isConsistent(wordSize): every n-gram has length `wordSize`; true of
        an empty builder whatever the length. */
    predicate IsConsistent(wordSize: int)
      reads this
      ensures ngrams == {} ==> IsConsistent(wordSize)
      ensures IsConsistent(wordSize) ==> forall a, b :: a in ngrams && b in ngrams ==> |a| == |b|
    {
      forall n :: n in ngrams ==> |n| == wordSize
    }

    /** Checking against the length of any one n-gram, as build() does
        with the first, decides whether all lengths agree. */
    lemma ConsistentWithMember(first: NGram)
      requires first in ngrams
      ensures IsConsistent(|first|) <==> forall a, b :: a in ngrams && b in ngrams ==> |a| == |b|
    {
    }

    /** build(): no corpus (null) when the builder is empty or the lengths
        differ; otherwise a corpus of exactly these n-grams, all of the
        returned word size. */
    method Build() returns (r: Option<Corpus>)
      ensures r.Some? <==> ngrams != {} && forall a, b :: a in ngrams && b in ngrams ==> |a| == |b|
      ensures r.Some? ==> r.value.members == ngrams && Built(r.value)
    {
      if ngrams == {} {
        return None;
      }
      var first :| first in ngrams;
      if !IsConsistent(|first|) {
        return None;
      }
      r := Some(Corpus(ngrams, |first|));
    }

    /** filter(f): a new builder holding exactly the n-grams that pass `f`;
        this builder is left as it was. */
    method Filter(f: Filters.Filter) returns (b: Builder)
      ensures fresh(b)
      ensures b.ngrams == Passing(ngrams, f)
    {
      b := new Builder.Empty();
      var rest := ngrams;
      while rest != {}
        invariant rest <= ngrams
        invariant b.ngrams == Passing(ngrams - rest, f)
        decreases rest
      {
        var n :| n in rest;
        if Filters.Test(f, n) {
          var _ := b.Add(Some(n));
        }
        rest := rest - {n};
      }
    }
  }
}
