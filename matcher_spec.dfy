/** What NGramMatcher.match() computes, as functions of the key, the guess and
    the claim marks the guess array holds when the call starts
    (NGramMatcher.java). The derived filter is a list of per-position
    constraints, conjoined. */
module MatcherSpec {
  import opened NGrams
  import Filters

  /** One per-position constraint added by a pass of the matcher. */
  datatype Constraint =
    | Exact(index: nat, ch: char)  // exact pass: `ch` at `index`
    | Present(ch: char)            // misplaced pass: `ch` somewhere
    | Absent(ch: char)             // absent pass: `ch` nowhere

  /** The derived filter: reject-all on a length mismatch, otherwise the
      conjunction of the added constraints. */
  datatype Feedback = RejectAll | AllOf(constraints: seq<Constraint>)

  /** Whether `n` satisfies one constraint. A position past the end of `n`
      does not satisfy an Exact constraint. */
  predicate Holds(c: Constraint, n: NGram)
    ensures Holds(c, n) && c.Exact? ==> c.index < |n| && n[c.index] == c.ch
    ensures c.Present? ==> (Holds(c, n) <==> c.ch in n)
    ensures c.Absent? ==> (Holds(c, n) <==> c.ch !in n)
  {
    match c
    case Exact(i, ch) => i < |n| && n[i] == ch
    case Present(ch) => NGrams.Contains(n, ch)
    case Absent(ch) => !NGrams.Contains(n, ch)
  }

  /** The reduction `reduce(x -> true, Predicate::and)`: a left fold of `&&`
      that starts from the always-true predicate. */
  function Conj(cs: seq<Constraint>, n: NGram): bool
  {
    if cs == [] then true else Conj(cs[..|cs| - 1], n) && Holds(cs[|cs| - 1], n)
  }

  /** The fold accepts exactly when every constraint holds. */
  lemma {:induction false} ConjAll(cs: seq<Constraint>, n: NGram)
    ensures Conj(cs, n) <==> forall k :: 0 <= k < |cs| ==> Holds(cs[k], n)
  {
    if cs != [] {
      var init := cs[..|cs| - 1];
      ConjAll(init, n);
      assert forall k :: 0 <= k < |init| ==> init[k] == cs[k];
    }
  }

  predicate Eval(fb: Feedback, n: NGram)
  {
    match fb
    case RejectAll => false
    case AllOf(cs) => Conj(cs, n)
  }

  /** Filter.from(finalPredicate), or Filter.FALSE on a length mismatch. */
  function ToFilter(fb: Feedback): (f: Filters.Filter)
    ensures forall n :: Filters.Test(f, n) == Eval(fb, n)
  {
    match fb
    case RejectAll => Filters.False
    case AllOf(cs) => Filters.Filter(n => Conj(cs, n))
  }

  // ---------------------------------------------------------------------
  // Character frequencies

  /** Occurrences of `c` in `s`. */
  function Count(s: seq<char>, c: char): nat
  {
    multiset(s)[c]
  }

  /** Exact matches of `c` among the first `n` positions. */
  function ExactCount(key: NGram, guess: NGram, n: nat, c: char): nat
    requires n <= |key| && n <= |guess|
  {
    if n == 0 then 0
    else ExactCount(key, guess, n - 1, c) + (if key[n - 1] == c && guess[n - 1] == c then 1 else 0)
  }

  /** Exact matches of a character never outnumber its occurrences in the key. */
  lemma {:induction false} ExactCountBound(key: NGram, guess: NGram, n: nat, c: char)
    requires n <= |key| && n <= |guess|
    ensures ExactCount(key, guess, n, c) <= Count(key[..n], c)
  {
    if n > 0 {
      ExactCountBound(key, guess, n - 1, c);
      assert key[..n] == key[..n - 1] + [key[n - 1]];
    }
  }

  /** Misplaced claims of `c` among the claimed guess positions so far. */
  function ClaimCount(guess: NGram, claims: seq<bool>, c: char): nat
    requires |claims| <= |guess|
  {
    if claims == [] then 0
    else
      var last := |claims| - 1;
      ClaimCount(guess, claims[..last], c) + (if claims[last] && guess[last] == c then 1 else 0)
  }

  /** The remaining count of `c` in the key's frequency table once the exact
      pass is over and the misplaced pass has made the claims `claims`. */
  function Budget(key: NGram, guess: NGram, claims: seq<bool>, c: char): int
    requires |key| == |guess| && |claims| <= |guess|
  {
    Count(key, c) - ExactCount(key, guess, |key|, c) - ClaimCount(guess, claims, c)
  }

  // ---------------------------------------------------------------------
  // The three passes

  /** The guess marks after the exact pass: marked before, or an exact match. */
  function Marked(key: NGram, guess: NGram, init: seq<bool>): (m: seq<bool>)
    requires |key| == |guess| == |init|
    ensures |m| == |guess|
    ensures forall i :: 0 <= i < |m| ==> (m[i] <==> init[i] || key[i] == guess[i])
  {
    seq(|guess|, i requires 0 <= i < |guess| => init[i] || key[i] == guess[i])
  }

  /** The misplaced pass over the first `n` guess positions: position i is
      claimed when it is unmarked and the remaining count of guess[i] is
      still positive at that point of the left-to-right scan. */
  function Claims(key: NGram, guess: NGram, marked: seq<bool>, n: nat): (r: seq<bool>)
    requires |key| == |guess| == |marked| && n <= |guess|
    ensures |r| == n
  {
    if n == 0 then []
    else
      var prev := Claims(key, guess, marked, n - 1);
      prev + [!marked[n - 1] && Budget(key, guess, prev, guess[n - 1]) > 0]
  }

  /** The guess marks after the misplaced pass. */
  function Taken(marked: seq<bool>, claims: seq<bool>): (t: seq<bool>)
    requires |marked| == |claims|
    ensures |t| == |marked|
    ensures forall i :: 0 <= i < |t| ==> (t[i] <==> marked[i] || claims[i])
  {
    seq(|marked|, i requires 0 <= i < |marked| => marked[i] || claims[i])
  }

  /** Constraints of the exact pass over the first `n` positions, in order. */
  function ExactConstraints(key: NGram, guess: NGram, n: nat): seq<Constraint>
    requires n <= |key| && n <= |guess|
  {
    if n == 0 then []
    else
      ExactConstraints(key, guess, n - 1)
        + (if key[n - 1] == guess[n - 1] then [Exact(n - 1, guess[n - 1])] else [])
  }

  /** Constraints of the misplaced pass over the first `n` positions. */
  function PresentConstraints(guess: NGram, claims: seq<bool>, n: nat): seq<Constraint>
    requires n <= |claims| <= |guess|
  {
    if n == 0 then []
    else
      PresentConstraints(guess, claims, n - 1)
        + (if claims[n - 1] then [Present(guess[n - 1])] else [])
  }

  /** Constraints of the absent pass over the first `n` positions: only an
      untaken position whose character the key lacks altogether. */
  function AbsentConstraints(key: NGram, guess: NGram, taken: seq<bool>, n: nat): seq<Constraint>
    requires n <= |taken| <= |guess|
  {
    if n == 0 then []
    else
      AbsentConstraints(key, guess, taken, n - 1)
        + (if !taken[n - 1] && !NGrams.Contains(key, guess[n - 1]) then [Absent(guess[n - 1])] else [])
  }

  /** match() on a matcher whose guess marks are `init` when it starts. */
  function MatchFrom(key: NGram, guess: NGram, init: seq<bool>): (r: Feedback)
    requires |init| == |guess|
    ensures r.RejectAll? <==> |key| != |guess|
  {
    if |key| != |guess| then RejectAll
    else
      var marked := Marked(key, guess, init);
      var claims := Claims(key, guess, marked, |guess|);
      AllOf(ExactConstraints(key, guess, |key|)
        + PresentConstraints(guess, claims, |guess|)
        + AbsentConstraints(key, guess, Taken(marked, claims), |guess|))
  }

  function Unmarked(n: nat): (m: seq<bool>)
    ensures |m| == n && forall i :: 0 <= i < n ==> !m[i]
  {
    seq(n, i => false)
  }

  /** NGramMatcher.of(key, guess).match(): a fresh matcher, no marks yet. */
  function Match(key: NGram, guess: NGram): (r: Feedback)
    ensures r.RejectAll? <==> |key| != |guess|
  {
    MatchFrom(key, guess, Unmarked(|guess|))
  }
}
