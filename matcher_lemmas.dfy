/** Properties of the derived filter (NGramMatcher.java). */
module MatcherLemmas {
  import opened NGrams
  import Filters
  import opened MatcherSpec

  /** A length mismatch gives the reject-all filter: even the key fails it. */
  lemma LengthMismatchRejects(key: NGram, guess: NGram, n: NGram)
    requires |key| != |guess|
    ensures Match(key, guess) == RejectAll
    ensures !Filters.Test(ToFilter(Match(key, guess)), n)
  {
  }

  /** The exact pass adds Exact(i, guess[i]) for exactly the positions where
      key and guess agree. */
  lemma {:induction false} ExactConstraintsExactly(key: NGram, guess: NGram, n: nat)
    requires n <= |key| && n <= |guess|
    ensures forall c :: c in ExactConstraints(key, guess, n) ==>
      c.Exact? && c.index < n && key[c.index] == c.ch && guess[c.index] == c.ch
    ensures forall i :: 0 <= i < n && key[i] == guess[i] ==> Exact(i, guess[i]) in ExactConstraints(key, guess, n)
  {
    if n > 0 {
      ExactConstraintsExactly(key, guess, n - 1);
    }
  }

  /** The misplaced pass adds Present(guess[i]) for exactly the claimed
      positions. */
  lemma {:induction false} PresentConstraintsExactly(guess: NGram, claims: seq<bool>, n: nat)
    requires n <= |claims| <= |guess|
    ensures forall c :: c in PresentConstraints(guess, claims, n) ==>
      c.Present? && exists i :: 0 <= i < n && claims[i] && guess[i] == c.ch
    ensures forall i :: 0 <= i < n && claims[i] ==> Present(guess[i]) in PresentConstraints(guess, claims, n)
  {
    if n > 0 {
      PresentConstraintsExactly(guess, claims, n - 1);
    }
  }

  /** The absent pass adds Absent(guess[i]) for exactly the untaken positions
      whose character the key does not contain. An untaken position whose
      character the key does contain gets no constraint. */
  lemma {:induction false} AbsentConstraintsExactly(key: NGram, guess: NGram, taken: seq<bool>, n: nat)
    requires n <= |taken| <= |guess|
    ensures forall c :: c in AbsentConstraints(key, guess, taken, n) ==> c.Absent? && c.ch !in key
    ensures forall c :: c in AbsentConstraints(key, guess, taken, n) ==>
      exists i :: 0 <= i < n && !taken[i] && guess[i] == c.ch
    ensures forall i :: 0 <= i < n && !taken[i] && guess[i] !in key ==>
      Absent(guess[i]) in AbsentConstraints(key, guess, taken, n)
  {
    if n > 0 {
      AbsentConstraintsExactly(key, guess, taken, n - 1);
    }
  }

  /** For equal lengths the key satisfies the filter derived from it, whatever
      marks the matcher started with. */
  lemma {:induction false} KeyPassesFrom(key: NGram, guess: NGram, init: seq<bool>)
    requires |key| == |guess| == |init|
    ensures Eval(MatchFrom(key, guess, init), key)
  {
    var marked := Marked(key, guess, init);
    var claims := Claims(key, guess, marked, |guess|);
    var ex := ExactConstraints(key, guess, |key|);
    var pr := PresentConstraints(guess, claims, |guess|);
    var ab := AbsentConstraints(key, guess, Taken(marked, claims), |guess|);
    var cs := ex + pr + ab;
    ExactConstraintsExactly(key, guess, |key|);
    PresentConstraintsExactly(guess, claims, |guess|);
    AbsentConstraintsExactly(key, guess, Taken(marked, claims), |guess|);
    ClaimsSound(key, guess, marked, |guess|);
    forall k | 0 <= k < |cs|
      ensures Holds(cs[k], key)
    {
      var c := cs[k];
      assert c in ex || c in pr || c in ab;
      if c in pr {
        var i :| 0 <= i < |guess| && claims[i] && guess[i] == c.ch;
      }
    }
    ConjAll(cs, key);
  }

  lemma KeyPasses(key: NGram, guess: NGram)
    requires |key| == |guess|
    ensures Filters.Test(ToFilter(Match(key, guess)), key)
  {
    KeyPassesFrom(key, guess, Unmarked(|guess|));
  }

  /** One step of the misplaced pass extends the claim count by the new claim. */
  lemma ClaimCountSnoc(guess: NGram, claims: seq<bool>, b: bool, c: char)
    requires |claims| < |guess|
    ensures ClaimCount(guess, claims + [b], c)
         == ClaimCount(guess, claims, c) + (if b && guess[|claims|] == c then 1 else 0)
  {
    assert (claims + [b])[..|claims|] == claims;
  }

  /** No remaining count in the frequency table ever goes negative during
      the misplaced pass. */
  lemma {:induction false} BudgetNonNegative(key: NGram, guess: NGram, marked: seq<bool>, n: nat, c: char)
    requires |key| == |guess| == |marked| && n <= |guess|
    ensures Budget(key, guess, Claims(key, guess, marked, n), c) >= 0
  {
    if n == 0 {
      ExactCountBound(key, guess, |key|, c);
      assert key[..|key|] == key;
    } else {
      var prev := Claims(key, guess, marked, n - 1);
      BudgetNonNegative(key, guess, marked, n - 1, c);
      var b := !marked[n - 1] && Budget(key, guess, prev, guess[n - 1]) > 0;
      assert Claims(key, guess, marked, n) == prev + [b];
      ClaimCountSnoc(guess, prev, b, c);
      assert |prev| == n - 1;
      if b && guess[n - 1] == c {
        assert Budget(key, guess, prev, c) > 0;
      }
    }
  }

  /** Exact matches plus misplaced claims of a character are at most its
      occurrences in the key. */
  lemma FrequencyBudget(key: NGram, guess: NGram, init: seq<bool>, c: char)
    requires |key| == |guess| == |init|
    ensures ExactCount(key, guess, |key|, c)
          + ClaimCount(guess, Claims(key, guess, Marked(key, guess, init), |guess|), c)
         <= Count(key, c)
  {
    BudgetNonNegative(key, guess, Marked(key, guess, init), |guess|, c);
  }

  /** One step of the misplaced scan, as the loop of markMisplacedMatches
      sees it: whether position i is claimed, and what that does to every
      remaining count. */
  lemma MisplacedStep(key: NGram, guess: NGram, marked: seq<bool>, i: nat)
    requires |key| == |guess| == |marked| && i < |guess|
    ensures Claims(key, guess, marked, |guess|)[i]
        <==> !marked[i] && Budget(key, guess, Claims(key, guess, marked, i), guess[i]) > 0
    ensures forall c ::
      Budget(key, guess, Claims(key, guess, marked, i + 1), c)
      == Budget(key, guess, Claims(key, guess, marked, i), c)
         - (if Claims(key, guess, marked, |guess|)[i] && guess[i] == c then 1 else 0)
  {
    GreedyClaim(key, guess, marked, |guess|, i);
    var prev := Claims(key, guess, marked, i);
    var b := Claims(key, guess, marked, |guess|)[i];
    assert Claims(key, guess, marked, i + 1) == prev + [b];
    forall c
      ensures Budget(key, guess, prev + [b], c)
           == Budget(key, guess, prev, c) - (if b && guess[i] == c then 1 else 0)
    {
      ClaimCountSnoc(guess, prev, b, c);
    }
  }

  /** A claimed position was unmarked, and its character occurs in the key. */
  lemma {:induction false} ClaimsSound(key: NGram, guess: NGram, marked: seq<bool>, n: nat)
    requires |key| == |guess| == |marked| && n <= |guess|
    ensures forall i :: 0 <= i < n && Claims(key, guess, marked, n)[i] ==>
      !marked[i] && guess[i] in key
  {
    if n > 0 {
      ClaimsSound(key, guess, marked, n - 1);
      var prev := Claims(key, guess, marked, n - 1);
      assert Claims(key, guess, marked, n) == prev + [!marked[n - 1] && Budget(key, guess, prev, guess[n - 1]) > 0];
    }
  }

  /** The scan never revisits a decision: a longer scan keeps the shorter one
      as its prefix. */
  lemma {:induction false} ClaimsPrefix(key: NGram, guess: NGram, marked: seq<bool>, n: nat, i: nat)
    requires |key| == |guess| == |marked| && i <= n <= |guess|
    ensures Claims(key, guess, marked, n)[..i] == Claims(key, guess, marked, i)
  {
    if i < n {
      ClaimsPrefix(key, guess, marked, n - 1, i);
      var prev := Claims(key, guess, marked, n - 1);
      assert Claims(key, guess, marked, n)[..n - 1] == prev;
      assert Claims(key, guess, marked, n)[..i] == prev[..i];
    }
  }

  /** Greedy left to right: position i is claimed exactly when it is unmarked
      and the remaining count of guess[i], after the claims made to its left,
      is positive. */
  lemma GreedyClaim(key: NGram, guess: NGram, marked: seq<bool>, n: nat, i: nat)
    requires |key| == |guess| == |marked| && i < n <= |guess|
    ensures Claims(key, guess, marked, n)[i]
        <==> !marked[i] && Budget(key, guess, Claims(key, guess, marked, i), guess[i]) > 0
  {
    ClaimsPrefix(key, guess, marked, n, i + 1);
    var whole := Claims(key, guess, marked, n);
    var upto := Claims(key, guess, marked, i + 1);
    var prev := Claims(key, guess, marked, i);
    assert upto == prev + [!marked[i] && Budget(key, guess, prev, guess[i]) > 0];
    assert whole[i] == whole[..i + 1][i] == upto[i];
  }

  /** On a fresh matcher, an exact position is never also claimed as
      misplaced, and every position is taken at most once. */
  lemma ExactNeverMisplaced(key: NGram, guess: NGram, i: nat)
    requires |key| == |guess| && i < |guess|
    ensures Claims(key, guess, Marked(key, guess, Unmarked(|guess|)), |guess|)[i] ==> key[i] != guess[i]
  {
    ClaimsSound(key, guess, Marked(key, guess, Unmarked(|guess|)), |guess|);
  }

  /** Every Exact constraint names a position of the guess, so on NGrams at
      least as long as the guess no Exact test looks past the end. */
  lemma ExactWithinGuess(key: NGram, guess: NGram, c: Constraint)
    requires Match(key, guess).AllOf? && c in Match(key, guess).constraints && c.Exact?
    ensures c.index < |guess| && guess[c.index] == c.ch && key[c.index] == c.ch
  {
    var marked := Marked(key, guess, Unmarked(|guess|));
    var claims := Claims(key, guess, marked, |guess|);
    ExactConstraintsExactly(key, guess, |key|);
    PresentConstraintsExactly(guess, claims, |guess|);
    AbsentConstraintsExactly(key, guess, Taken(marked, claims), |guess|);
  }

  /** Zero-length key and guess: the vacuously true filter. */
  lemma ZeroLength(n: NGram)
    ensures Match([], []) == AllOf([])
    ensures Filters.Test(ToFilter(Match([], [])), n)
  {
  }

  /** The marks and claims of a fresh matcher for key "hello", guess "hella". */
  lemma HelloHellaPasses()
    ensures Marked("hello", "hella", Unmarked(5)) == [true, true, true, true, false]
    ensures Claims("hello", "hella", [true, true, true, true, false], 5) == [false, false, false, false, false]
  {
    var key, guess := "hello", "hella";
    var m := Marked(key, guess, Unmarked(5));
    assert m == [true, true, true, true, false];
    var claims := Claims(key, guess, m, 5);
    ClaimsSound(key, guess, m, 5);
    assert !claims[4];
    assert claims == [false, false, false, false, false];
  }

  /** The three constraint lists for key "hello", guess "hella". */
  lemma HelloHellaLists()
    ensures ExactConstraints("hello", "hella", 5) == [Exact(0, 'h'), Exact(1, 'e'), Exact(2, 'l'), Exact(3, 'l')]
    ensures PresentConstraints("hella", [false, false, false, false, false], 5) == []
    ensures AbsentConstraints("hello", "hella", [true, true, true, true, false], 5) == [Absent('a')]
  {
    assert !NGrams.Contains("hello", 'a');
  }

  /** key "hello", guess "hella": four exact letters and an absent 'a'. */
  lemma HelloHellaFeedback()
    ensures Match("hello", "hella")
         == AllOf([Exact(0, 'h'), Exact(1, 'e'), Exact(2, 'l'), Exact(3, 'l'), Absent('a')])
  {
    HelloHellaPasses();
    HelloHellaLists();
    var m := [true, true, true, true, false];
    assert Taken(m, [false, false, false, false, false]) == m;
  }

  /** The filter for key "hello", guess "hella" keeps "hello" and rejects
      "world". */
  lemma HelloHella()
    ensures Filters.Test(ToFilter(Match("hello", "hella")), "hello")
    ensures !Filters.Test(ToFilter(Match("hello", "hella")), "world")
  {
    HelloHellaFeedback();
    KeyPasses("hello", "hella");
    var cs := [Exact(0, 'h'), Exact(1, 'e'), Exact(2, 'l'), Exact(3, 'l'), Absent('a')];
    ConjAll(cs, "world");
    assert !Holds(cs[0], "world");
  }

  /** The marks and claims of a fresh matcher for key "aabb", guess "abab". */
  lemma AabbAbabPasses()
    ensures Marked("aabb", "abab", Unmarked(4)) == [true, false, false, true]
    ensures Claims("aabb", "abab", [true, false, false, true], 4) == [false, true, true, false]
  {
    var key, guess := "aabb", "abab";
    var m := Marked(key, guess, Unmarked(4));
    assert m == [true, false, false, true];
    assert Count(key, 'a') == 2 && Count(key, 'b') == 2;
    assert ExactCount(key, guess, 4, 'a') == 1 && ExactCount(key, guess, 4, 'b') == 1;
    var c1 := Claims(key, guess, m, 1);
    assert c1 == [false];
    var c2 := Claims(key, guess, m, 2);
    assert ClaimCount(guess, c1, 'b') == 0;
    assert c2 == [false, true];
    var c3 := Claims(key, guess, m, 3);
    assert ClaimCount(guess, c1, 'a') == 0;
    assert c2[..1] == c1;
    assert ClaimCount(guess, c2, 'a') == 0;
    assert c3 == [false, true, true];
    var c4 := Claims(key, guess, m, 4);
    assert c4 == [false, true, true, false];
  }

  /** key "aabb", guess "abab": exact at 0 and 3, the leftover 'b' and 'a'
      are misplaced, nothing is absent. */
  lemma AabbAbab()
    ensures Match("aabb", "abab")
         == AllOf([Exact(0, 'a'), Exact(3, 'b'), Present('b'), Present('a')])
  {
    var key, guess := "aabb", "abab";
    AabbAbabPasses();
    var m := [true, false, false, true];
    var claims := [false, true, true, false];
    assert Taken(m, claims) == [true, true, true, true];
    assert ExactConstraints(key, guess, 4) == [Exact(0, 'a'), Exact(3, 'b')];
    assert PresentConstraints(guess, claims, 4) == [Present('b'), Present('a')];
    assert AbsentConstraints(key, guess, [true, true, true, true], 4) == [];
  }

  /** The marks and claims of a fresh matcher for key "hello", guess "lllll". */
  lemma ExhaustedDuplicatesPasses()
    ensures Marked("hello", "lllll", Unmarked(5)) == [false, false, true, true, false]
    ensures Claims("hello", "lllll", [false, false, true, true, false], 5) == [false, false, false, false, false]
  {
    var key, guess := "hello", "lllll";
    var m := Marked(key, guess, Unmarked(5));
    assert m == [false, false, true, true, false];
    assert Count(key, 'l') == 2;
    assert ExactCount(key, guess, 5, 'l') == 2;
    var c := Claims(key, guess, m, 5);
    forall i | 0 <= i < 5
      ensures !c[i]
    {
      GreedyClaim(key, guess, m, 5, i);
      BudgetNonNegative(key, guess, m, i, 'l');
    }
    assert c == [false, false, false, false, false];
  }

  /** key "hello", guess "lllll": the two exact 'l's use up the key's 'l's;
      the other three 'l's get no constraint at all, because the key does
      contain 'l'. */
  lemma ExhaustedDuplicates()
    ensures Match("hello", "lllll") == AllOf([Exact(2, 'l'), Exact(3, 'l')])
  {
    var key, guess := "hello", "lllll";
    ExhaustedDuplicatesPasses();
    var m := [false, false, true, true, false];
    var claims := [false, false, false, false, false];
    assert Taken(m, claims) == m;
    assert ExactConstraints(key, guess, 5) == [Exact(2, 'l'), Exact(3, 'l')];
    assert PresentConstraints(guess, claims, 5) == [];
    assert NGrams.Contains(key, 'l');
    assert AbsentConstraints(key, guess, m, 5) == [];
  }
}
