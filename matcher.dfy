/** The matcher itself, as the source runs it: the claim arrays `keyMatch`
    and `guessMatch` are set in place, the key's frequency table is
    decremented inside the index loops, and the constraint list grows one
    entry at a time (NGramMatcher.java). Each pass is proved against the
    functions of MatcherSpec. */
module Matcher {
  import opened NGrams
  import opened MatcherSpec
  import MatcherLemmas

  /** Map.getOrDefault(c, 0). */
  function Lookup(counts: map<char, int>, c: char): (r: int)
    ensures c !in counts ==> r == 0
    ensures c in counts ==> r == counts[c]
  {
    if c in counts then counts[c] else 0
  }

  /** The frequency table holds, for each key character, its count in the key
      less its exact matches among the first `n` positions. */
  ghost predicate TableAfter(counts: map<char, int>, key: NGram, guess: NGram, n: nat)
    requires n <= |key| && n <= |guess|
  {
    counts.Keys == Charset(key)
    && forall c :: Lookup(counts, c) == Count(key, c) - ExactCount(key, guess, n, c)
  }

  /** One step of the exact pass keeps the table in step with ExactCount. */
  lemma TableStep(counts: map<char, int>, key: NGram, guess: NGram, i: nat)
    requires i < |key| && i < |guess| && TableAfter(counts, key, guess, i)
    ensures key[i] == guess[i] ==> key[i] in counts
    ensures key[i] == guess[i] ==> TableAfter(counts[key[i] := counts[key[i]] - 1], key, guess, i + 1)
    ensures key[i] != guess[i] ==> TableAfter(counts, key, guess, i + 1)
  {
    assert key[i] in Charset(key);
    if key[i] == guess[i] {
      var after := counts[key[i] := counts[key[i]] - 1];
      forall c
        ensures Lookup(after, c) == Count(key, c) - ExactCount(key, guess, i + 1, c)
      {
        assert Lookup(counts, c) == Count(key, c) - ExactCount(key, guess, i, c);
      }
    } else {
      forall c
        ensures Lookup(counts, c) == Count(key, c) - ExactCount(key, guess, i + 1, c)
      {
        assert Lookup(counts, c) == Count(key, c) - ExactCount(key, guess, i, c);
      }
    }
  }

  /** Where key and guess agree, position by position. */
  function Agree(key: NGram, guess: NGram): (a: seq<bool>)
    requires |key| == |guess|
    ensures |a| == |key|
  {
    seq(|key|, j requires 0 <= j < |key| => key[j] == guess[j])
  }

  /** `init` with the first `i` positions of `flags` set in it, one
      assignment at a time, as the passes set their claim arrays. */
  function Overlay(init: seq<bool>, flags: seq<bool>, i: nat): (o: seq<bool>)
    requires |init| == |flags| && i <= |init|
    ensures |o| == |init|
  {
    if i == 0 then init
    else if flags[i - 1] then Overlay(init, flags, i - 1)[i - 1 := true]
    else Overlay(init, flags, i - 1)
  }

  /** Positionwise, the overlay is the disjunction on its prefix. */
  lemma {:induction false} OverlayAt(init: seq<bool>, flags: seq<bool>, i: nat)
    requires |init| == |flags| && i <= |init|
    ensures forall j :: 0 <= j < |init| ==>
      Overlay(init, flags, i)[j] == (init[j] || (j < i && flags[j]))
  {
    if i > 0 {
      OverlayAt(init, flags, i - 1);
    }
  }

  /** Positions not yet reached keep their initial value. */
  lemma {:induction false} OverlayAhead(init: seq<bool>, flags: seq<bool>, i: nat)
    requires |init| == |flags| && i < |init|
    ensures Overlay(init, flags, i)[i] == init[i]
  {
    OverlayAt(init, flags, i);
  }

  /** Once every position is passed, the overlay is Taken. */
  lemma OverlayAll(init: seq<bool>, flags: seq<bool>)
    requires |init| == |flags|
    ensures Overlay(init, flags, |init|) == Taken(init, flags)
  {
    OverlayAt(init, flags, |init|);
  }

  /** The exact pass's overlay is Marked. */
  lemma OverlayAgree(key: NGram, guess: NGram, init: seq<bool>)
    requires |key| == |guess| == |init|
    ensures Overlay(init, Agree(key, guess), |init|) == Marked(key, guess, init)
  {
    OverlayAt(init, Agree(key, guess), |init|);
  }

  /** The guess marks a match() call leaves behind when it started from `init`. */
  function MarksAfter(key: NGram, guess: NGram, init: seq<bool>): (m: seq<bool>)
    requires |init| == |guess|
    ensures |m| == |guess|
  {
    if |key| != |guess| then init
    else
      var marked := Marked(key, guess, init);
      Taken(marked, Claims(key, guess, marked, |guess|))
  }

  /** The frequency table once the misplaced scan has passed the first `i`
      guess positions: each key character with its remaining count. */
  function Remaining(key: NGram, guess: NGram, marked: seq<bool>, i: nat): map<char, int>
    requires |key| == |guess| == |marked| && i <= |guess|
  {
    map c | c in Charset(key) :: Budget(key, guess, Claims(key, guess, marked, i), c)
  }

  /** The table the exact pass hands to the misplaced pass is Remaining at 0. */
  lemma RemainingStart(key: NGram, guess: NGram, marked: seq<bool>, counts: map<char, int>)
    requires |key| == |guess| == |marked|
    requires TableAfter(counts, key, guess, |key|)
    ensures counts == Remaining(key, guess, marked, 0)
  {
    assert Claims(key, guess, marked, 0) == [];
    forall c | c in counts
      ensures counts[c] == Remaining(key, guess, marked, 0)[c]
    {
      assert Lookup(counts, c) == counts[c];
    }
  }

  /** The test the scan makes at position i decides exactly the claim of the
      misplaced pass. */
  lemma ClaimTest(key: NGram, guess: NGram, marked: seq<bool>, i: nat, counts: map<char, int>)
    requires |key| == |guess| == |marked| && i < |guess|
    requires counts == Remaining(key, guess, marked, i)
    ensures Claims(key, guess, marked, |guess|)[i]
       <==> !marked[i] && Lookup(counts, guess[i]) > 0
  {
    MatcherLemmas.GreedyClaim(key, guess, marked, |guess|, i);
    MatcherLemmas.ClaimsSound(key, guess, marked, |guess|);
  }

  /** The frequency table after step i of the misplaced scan: one less for
      guess[i] when position i was claimed, otherwise as before. */
  lemma CountsStep(key: NGram, guess: NGram, marked: seq<bool>, i: nat, before: map<char, int>)
    requires |key| == |guess| == |marked| && i < |guess|
    requires before == Remaining(key, guess, marked, i)
    ensures Claims(key, guess, marked, |guess|)[i] ==>
      guess[i] in before && before[guess[i] := before[guess[i]] - 1] == Remaining(key, guess, marked, i + 1)
    ensures !Claims(key, guess, marked, |guess|)[i] ==> before == Remaining(key, guess, marked, i + 1)
  {
    MatcherLemmas.MisplacedStep(key, guess, marked, i);
    MatcherLemmas.ClaimsSound(key, guess, marked, |guess|);
  }

  class NGramMatcher {
    const key: NGram
    const guess: NGram
    const keyMatch: array<bool>
    const guessMatch: array<bool>

    ghost predicate Valid()
      reads this
    {
      keyMatch.Length == |key| && guessMatch.Length == |guess| && keyMatch != guessMatch
    }

    /** NGramMatcher.of(key, guess): both claim arrays start all false. */
    constructor Of(key: NGram, guess: NGram)
      ensures Valid() && this.key == key && this.guess == guess
      ensures fresh(keyMatch) && fresh(guessMatch)
      ensures keyMatch[..] == Unmarked(|key|) && guessMatch[..] == Unmarked(|guess|)
    {
      this.key := key;
      this.guess := guess;
      keyMatch := new bool[|key|](i => false);
      guessMatch := new bool[|guess|](i => false);
    }

    /** countKeyOccurrences(): the key's frequency table, one entry per
        distinct key character. */
    method CountKeyOccurrences() returns (counts: map<char, int>)
      ensures counts.Keys == Charset(key)
      ensures forall c :: Lookup(counts, c) == Count(key, c)
      ensures |key| == |guess| ==> TableAfter(counts, key, guess, 0)
    {
      counts := map[];
      for i := 0 to |key|
        invariant counts.Keys == Charset(key[..i])
        invariant forall c :: Lookup(counts, c) == Count(key[..i], c)
      {
        assert key[..i + 1] == key[..i] + [key[i]];
        assert multiset(key[..i + 1]) == multiset(key[..i]) + multiset{key[i]};
        ghost var before := counts;
        counts := counts[key[i] := Lookup(counts, key[i]) + 1];
        forall c
          ensures Lookup(counts, c) == Count(key[..i + 1], c)
        {
          assert Lookup(before, c) == Count(key[..i], c);
        }
      }
      assert key[..|key|] == key;
    }

    /** markExactMatches(): marks every position where key and guess agree in
        both arrays, takes one from that character's count, and adds an
        Exact constraint for it. */
    method MarkExactMatches(predicates: seq<Constraint>, counts: map<char, int>)
      returns (predicates': seq<Constraint>, counts': map<char, int>)
      requires Valid() && |key| == |guess|
      requires TableAfter(counts, key, guess, 0)
      modifies keyMatch, guessMatch
      ensures predicates' == predicates + ExactConstraints(key, guess, |key|)
      ensures TableAfter(counts', key, guess, |key|)
      ensures keyMatch[..] == Marked(key, guess, old(keyMatch[..]))
      ensures guessMatch[..] == Marked(key, guess, old(guessMatch[..]))
    {
      ghost var km, gm := keyMatch[..], guessMatch[..];
      predicates', counts' := predicates, counts;
      for i := 0 to |key|
        invariant predicates' == predicates + ExactConstraints(key, guess, i)
        invariant TableAfter(counts', key, guess, i)
        invariant keyMatch[..] == Overlay(km, Agree(key, guess), i)
        invariant guessMatch[..] == Overlay(gm, Agree(key, guess), i)
      {
        TableStep(counts', key, guess, i);
        if key[i] == guess[i] {
          keyMatch[i] := true;
          guessMatch[i] := true;
          counts' := counts'[key[i] := counts'[key[i]] - 1];
          predicates' := predicates' + [Exact(i, guess[i])];
        }
      }
      OverlayAgree(key, guess, km);
      OverlayAgree(key, guess, gm);
    }

    /** markMisplacedMatches(): scans the guess left to right; an unmarked
        position whose character still has a positive count is marked,
        takes one from that count, and adds a Present constraint. */
    method MarkMisplacedMatches(predicates: seq<Constraint>, counts: map<char, int>)
      returns (predicates': seq<Constraint>, counts': map<char, int>)
      requires Valid() && |key| == |guess|
      requires TableAfter(counts, key, guess, |key|)
      modifies guessMatch
      ensures predicates' == predicates
        + PresentConstraints(guess, Claims(key, guess, old(guessMatch[..]), |guess|), |guess|)
      ensures guessMatch[..] == Taken(old(guessMatch[..]), Claims(key, guess, old(guessMatch[..]), |guess|))
      ensures counts' == Remaining(key, guess, old(guessMatch[..]), |guess|)
    {
      ghost var marked := guessMatch[..];
      ghost var claims := Claims(key, guess, marked, |guess|);
      RemainingStart(key, guess, marked, counts);
      predicates', counts' := predicates, counts;
      for i := 0 to |guess|
        invariant predicates' == predicates + PresentConstraints(guess, claims, i)
        invariant counts' == Remaining(key, guess, marked, i)
        invariant guessMatch[..] == Overlay(marked, claims, i)
      {
        OverlayAhead(marked, claims, i);
        ClaimTest(key, guess, marked, i, counts');
        CountsStep(key, guess, marked, i, counts');
        var ch := guess[i];
        if !guessMatch[i] && Lookup(counts', ch) > 0 {
          counts' := counts'[ch := counts'[ch] - 1];
          guessMatch[i] := true;
          predicates' := predicates' + [Present(ch)];
        }
      }
      OverlayAll(marked, claims);
    }

    /** markAbsentMatches(): an Absent constraint for every unmarked position
        whose character does not occur in the key at all. */
    method MarkAbsentMatches(predicates: seq<Constraint>) returns (predicates': seq<Constraint>)
      requires Valid()
      ensures predicates' == predicates + AbsentConstraints(key, guess, guessMatch[..], |guess|)
    {
      predicates' := predicates;
      for i := 0 to |guess|
        invariant predicates' == predicates + AbsentConstraints(key, guess, guessMatch[..], i)
      {
        if !guessMatch[i] && !NGrams.Contains(key, guess[i]) {
          predicates' := predicates' + [Absent(guess[i])];
        }
      }
    }

    /** match(): reject-all on a length mismatch; otherwise the three passes.
        The result depends on the guess marks the call finds, which are
        left set afterwards. */
    method Match() returns (r: Feedback)
      requires Valid()
      modifies keyMatch, guessMatch
      ensures r == MatchFrom(key, guess, old(guessMatch[..]))
      ensures guessMatch[..] == MarksAfter(key, guess, old(guessMatch[..]))
      ensures |key| == |guess| ==> keyMatch[..] == Marked(key, guess, old(keyMatch[..]))
      ensures |key| != |guess| ==> keyMatch[..] == old(keyMatch[..])
    {
      if |key| != |guess| {
        return RejectAll;
      }
      ghost var init := guessMatch[..];
      ghost var marked := Marked(key, guess, init);
      ghost var claims := Claims(key, guess, marked, |guess|);
      ghost var taken := Taken(marked, claims);
      var counts := CountKeyOccurrences();
      var predicates: seq<Constraint> := [];
      ghost var exact := ExactConstraints(key, guess, |key|);
      predicates, counts := MarkExactMatches(predicates, counts);
      assert [] + exact == exact;
      assert predicates == exact && guessMatch[..] == marked;
      predicates, counts := MarkMisplacedMatches(predicates, counts);
      assert guessMatch[..] == taken;
      predicates := MarkAbsentMatches(predicates);
      r := AllOf(predicates);
    }

    /** match() with the claim arrays cleared first: the result then depends
        on the key and the guess alone. */
    method MatchReset() returns (r: Feedback)
      requires Valid()
      modifies keyMatch, guessMatch
      ensures r == MatcherSpec.Match(key, guess)
      ensures guessMatch[..] == MarksAfter(key, guess, Unmarked(|guess|))
      ensures |key| == |guess| ==> keyMatch[..] == Marked(key, guess, Unmarked(|key|))
      ensures |key| != |guess| ==> keyMatch[..] == Unmarked(|key|)
    {
      for i := 0 to keyMatch.Length
        invariant forall j :: 0 <= j < i ==> !keyMatch[j]
      {
        keyMatch[i] := false;
      }
      for i := 0 to guessMatch.Length
        invariant forall j :: 0 <= j < i ==> !guessMatch[j]
        invariant forall j :: 0 <= j < keyMatch.Length ==> !keyMatch[j]
      {
        guessMatch[i] := false;
      }
      assert guessMatch[..] == Unmarked(|guess|);
      assert keyMatch[..] == Unmarked(|key|);
      r := Match();
    }
  }

  /** NGramMatcher.of(key, guess).match(), the call Corpus makes. */
  method MatchOf(key: NGram, guess: NGram) returns (r: Feedback)
    ensures r == MatcherSpec.Match(key, guess)
  {
    var matcher := new NGramMatcher.Of(key, guess);
    r := matcher.Match();
  }

  /** NGramMatcher.of(key, guess) with match() called twice on it. */
  method MatchTwice(key: NGram, guess: NGram) returns (first: Feedback, second: Feedback)
    ensures first == MatcherSpec.Match(key, guess)
    ensures second == MatchFrom(key, guess, MarksAfter(key, guess, Unmarked(|guess|)))
  {
    var matcher := new NGramMatcher.Of(key, guess);
    first := matcher.Match();
    second := matcher.Match();
  }

  // ---------------------------------------------------------------------
  // A second match() on the same matcher

  /** Key "ab", guess "ba": nothing is exact and both positions are claimed
      as misplaced. */
  lemma AbBaPasses()
    ensures Marked("ab", "ba", Unmarked(2)) == [false, false]
    ensures Claims("ab", "ba", [false, false], 2) == [true, true]
  {
    var key, guess, m := "ab", "ba", [false, false];
    assert Marked(key, guess, Unmarked(2)) == m;
    assert Count(key, 'a') == 1 && Count(key, 'b') == 1;
    assert ExactCount(key, guess, 2, 'a') == 0 && ExactCount(key, guess, 2, 'b') == 0;
    var c1 := Claims(key, guess, m, 1);
    assert c1 == [true];
    assert ClaimCount(guess, c1, 'a') == 0;
  }

  /** The first call: two Present constraints, and every guess mark set. */
  lemma AbBaFirst()
    ensures MatcherSpec.Match("ab", "ba") == AllOf([Present('b'), Present('a')])
    ensures MarksAfter("ab", "ba", Unmarked(2)) == [true, true]
  {
    AbBaPasses();
    var t := Taken([false, false], [true, true]);
    assert t == [true, true];
    assert ExactConstraints("ab", "ba", 2) == [];
    assert PresentConstraints("ba", [true, true], 2) == [Present('b'), Present('a')];
    assert AbsentConstraints("ab", "ba", t, 2) == [];
  }

  /** The second call: every position is already marked, so no constraint
      is added at all. */
  lemma AbBaSecond()
    ensures MatchFrom("ab", "ba", [true, true]) == AllOf([])
  {
    var key, guess, m := "ab", "ba", [true, true];
    assert Marked(key, guess, m) == m;
    var claims := Claims(key, guess, m, 2);
    MatcherLemmas.ClaimsSound(key, guess, m, 2);
    assert claims == [false, false];
    assert Taken(m, claims) == m;
    assert ExactConstraints(key, guess, 2) == [];
    assert PresentConstraints(guess, [false, false], 2) == [];
    assert AbsentConstraints(key, guess, m, 2) == [];
  }

  /** match() is not idempotent: for key "ab" and guess "ba" the first call
      rejects "zz", the second call on the same matcher accepts it. */
  lemma RepeatedMatchDiffers()
    ensures !Eval(MatcherSpec.Match("ab", "ba"), "zz")
    ensures Eval(MatchFrom("ab", "ba", MarksAfter("ab", "ba", Unmarked(2))), "zz")
  {
    AbBaFirst();
    AbBaSecond();
    assert !NGrams.Contains("zz", 'b');
    var cs := [Present('b'), Present('a')];
    assert cs[..1] == [Present('b')];
  }
}
