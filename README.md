# matchle, modelled in Dafny

matchle is a Wordle-style guessing engine. A *key* and a *guess* are
n-grams (fixed-length character sequences). Comparing them gives three
kinds of feedback: exact letters, misplaced letters, and absent letters.
`NGramMatcher` turns that feedback into a `Filter`, which accepts exactly
the n-grams consistent with it. A `Corpus` is a set of n-grams of one length.
It counts how many members survive a filter, and scores a guess by those
counts in the worst case (maximum over keys) and in the average case (sum
over keys). From those scores it picks a best guess.

The project has these modules:

- `Wrappers` (wrappers.dfy): `Option`, and `Result` over the error kinds the
  source throws. The kinds are null argument, illegal argument carrying the
  null index, illegal state, index out of bounds, and no such element.
- `NullCharacter` (null_character.dfy): the exception record, and the `validate`
  scan as a method with a loop invariant.
- `NGrams` (ngram.dfy): an n-gram is its character sequence. The queries are
  functions. The iterator is a class with a mutable cursor.
- `Filters` (filter.dfy): a filter wraps a total `NGram -> bool`. It can be
  conjoined with an optional second filter, and there is a reject-all
  constant.
- `MatcherSpec` (matcher_spec.dfy): what `match()` computes, as pure
  functions. They take the key, the guess, and the guess marks that the
  matcher holds when the call starts. The filter is a list of constraints,
  folded with `&&` from the always-true predicate.
- `MatcherLemmas` (matcher_lemmas.dfy): lemmas about those functions.
  - The key passes its own filter.
  - A length mismatch rejects everything.
  - Each pass's constraints are characterised.
  - The misplaced pass is greedy and never over-spends the key's letter
    counts.
  - The test scenarios are computed concretely.
- `Matcher` (matcher.dfy): the `NGramMatcher` class. The `keyMatch` and
  `guessMatch` arrays are set in place. The frequency table is decremented
  inside the index loops, and the constraint list grows one entry at a time.
  Each pass is a method proved against the `MatcherSpec` functions.
- `Corpora` (corpus.dfy): the corpus as an immutable value.
  - Its counting and scoring are functions. Maximum, sum and arg-min over the
    member set are ghost functions.
  - The `Builder` is a class whose set of n-grams is updated in place.

Where the source would throw, the model returns `Err(...)`. Where the source
returns null from `build()`, the model returns `None`.

## Model

| member | source | states |
|---|---|---|
| NullCharacter.NullCharacterException.GetIndex | src/matchle/NullCharacterException.java:16-28 | The index read back is the one the exception was constructed with |
| NullCharacter.NullCharacterException.AsError | src/matchle/NullCharacterException.java:42 | The illegal-argument error thrown by validate carries the exception's index |
| NullCharacter.Validate | src/matchle/NullCharacterException.java:38-46 | A null list gives a null-argument error. A list without null elements comes back unchanged. Otherwise the result is an illegal-argument error whose index is the first null position |
| NGrams.Charset | src/matchle/NGram.java:19-22 | The character set holds exactly the characters occurring in the n-gram |
| NGrams.FromList | src/matchle/NGram.java:32-35 | Succeeds exactly when the list is non-null with no null elements, and then toCharacterList gives the input back. Otherwise the result is validate's error |
| NGrams.FromString | src/matchle/NGram.java:44-47 | A null string is a null-argument error. Otherwise the size is the string's length and `get(i)` is its i-th character (characters are Unicode scalar values, see Left out) |
| NGrams.Size | src/matchle/NGram.java:64-66 | The size is exactly the range of indices at which `get` succeeds |
| NGrams.Get | src/matchle/NGram.java:55-57 | Ok with the i-th character exactly when the index is in range; otherwise an out-of-bounds error naming the index |
| NGrams.ToCharacterList | src/matchle/NGram.java:73-75 | A list of the n-gram's size, with no nulls, holding its characters in order |
| NGrams.Equals | src/matchle/NGram.java:84-89 | True exactly when the lengths agree and the characters agree position by position |
| NGrams.Matches | src/matchle/NGram.java:107-110 | Defined exactly when the index is in range, and then true exactly when that position holds the character |
| NGrams.Contains | src/matchle/NGram.java:118-120 | True exactly when some position holds the character |
| NGrams.ContainsElsewhere | src/matchle/NGram.java:128-131 | False without an index check when the character is absent. With the index in range, true exactly when the character occurs and not at that index. True implies another position holds it |
| NGrams.Stream | src/matchle/NGram.java:138-141 | One indexed pair per position, in position order |
| NGrams.NGramIterator.constructor | src/matchle/NGram.java:149-151 | A fresh cursor at position 0 over the n-gram |
| NGrams.NGramIterator.HasNext | src/matchle/NGram.java:165-167 | True only while the cursor is on a position `get` can read; false on a valid cursor only at the end |
| NGrams.NGramIterator.Next | src/matchle/NGram.java:170-173 | Before the end, returns the pair at the cursor and advances by one. At the end, a no-such-element error and the cursor stays put |
| NGrams.IterateAll | src/matchle/NGram.java:161-174 | Running an iterator to exhaustion yields exactly the stream's pairs in order |
| NGrams.EmptyString | test/matchle/MatchleTest.java:80-84 | from("") is the zero-length n-gram |
| Filters.From | src/matchle/Filter.java:30-33 | A null predicate is a null-argument error. Otherwise the filter accepts exactly what the predicate accepts |
| Filters.Test | src/matchle/Filter.java:41-43 | No contract of its own: it is the filter's verdict, and the contracts of Filters.From, Filters.And and MatcherSpec.ToFilter are stated through it |
| Filters.And | src/matchle/Filter.java:51-54 | With no other filter, the same filter. Otherwise it accepts exactly what both filters accept |
| Filters.FalseRejectsAll | src/matchle/Filter.java:59 | FALSE rejects every n-gram |
| MatcherSpec.ConjAll | src/matchle/NGramMatcher.java:59-60 | The reduce of the predicate list from `x -> true` with `and` accepts exactly when every constraint holds |
| MatcherSpec.ToFilter | src/matchle/NGramMatcher.java:48-50 | The filter built from the feedback tests exactly as the feedback evaluates. The length-mismatch case is FALSE |
| MatcherSpec.ExactCountBound | src/matchle/NGramMatcher.java:80-89 | The exact pass never takes more of a character than the key holds, so the decremented count stays non-negative |
| MatcherSpec.Marked | src/matchle/NGramMatcher.java:81-83 | After the exact pass, a position is marked exactly when it was already marked or key and guess agree there |
| MatcherSpec.Taken | src/matchle/NGramMatcher.java:96-98 | After the misplaced pass, a position is marked exactly when it was marked or was claimed |
| MatcherSpec.Unmarked | src/matchle/NGramMatcher.java:27-28 | A fresh claim array is all false |
| MatcherLemmas.LengthMismatchRejects | src/matchle/NGramMatcher.java:48-50 | Different lengths give the reject-all feedback, and every n-gram fails its filter, the key included |
| MatcherLemmas.ExactConstraintsExactly | src/matchle/NGramMatcher.java:80-89 | The exact pass adds Exact(i, guess[i]) for exactly the positions where key and guess agree, and for no others |
| MatcherLemmas.PresentConstraintsExactly | src/matchle/NGramMatcher.java:94-103 | The misplaced pass adds Present(guess[i]) for exactly the claimed positions |
| MatcherLemmas.AbsentConstraintsExactly | src/matchle/NGramMatcher.java:108-115 | The absent pass adds Absent(guess[i]) for exactly the unmarked positions whose character the key does not contain |
| MatcherLemmas.KeyPassesFrom | src/matchle/NGramMatcher.java:47-62 | For equal lengths, the key satisfies the derived filter whatever marks the matcher starts with |
| MatcherLemmas.KeyPasses | test/matchle/MatchleTest.java:190-197 | For equal lengths, a fresh matcher's filter accepts the key |
| MatcherLemmas.ClaimCountSnoc | src/matchle/NGramMatcher.java:96-97 | Each new claim adds one to the claim count of its own character only |
| MatcherLemmas.BudgetNonNegative | src/matchle/NGramMatcher.java:96-97 | No remaining count in the frequency table goes negative at any point of the misplaced scan |
| MatcherLemmas.FrequencyBudget | src/matchle/NGramMatcher.java:80-103 | For each character, exact matches plus misplaced claims are at most its occurrences in the key |
| MatcherLemmas.MisplacedStep | src/matchle/NGramMatcher.java:95-101 | At step i, the claim is made exactly when the position is unmarked and the count is positive. The claim lowers that character's count by one and leaves every other count alone |
| MatcherLemmas.ClaimsSound | src/matchle/NGramMatcher.java:96 | A claimed position was unmarked, and its character occurs in the key |
| MatcherLemmas.ClaimsPrefix | src/matchle/NGramMatcher.java:95-102 | A longer scan keeps every earlier decision: the claims of a prefix are the prefix of the claims |
| MatcherLemmas.GreedyClaim | src/matchle/NGramMatcher.java:95-102 | Position i is claimed exactly when it is unmarked and the count of guess[i], after the claims to its left, is positive |
| MatcherLemmas.ExactNeverMisplaced | src/matchle/NGramMatcher.java:80-103 | On a fresh matcher, an exact position is never also claimed as misplaced |
| MatcherLemmas.ExactWithinGuess | src/matchle/NGramMatcher.java:85-86 | Every Exact constraint names a position of the guess where key and guess both hold its character |
| MatcherLemmas.ZeroLength | src/matchle/NGramMatcher.java:47-62 | A zero-length key and guess give the vacuously true filter |
| MatcherLemmas.HelloHellaPasses | test/matchle/MatchleTest.java:200-206 | For key "hello" and guess "hella", the first four positions are marked exact and nothing is claimed as misplaced |
| MatcherLemmas.HelloHellaLists | test/matchle/MatchleTest.java:200-206 | For key "hello" and guess "hella": four Exact constraints, no Present, and Absent('a') |
| MatcherLemmas.HelloHellaFeedback | test/matchle/MatchleTest.java:200-206 | The complete feedback for key "hello" and guess "hella" |
| MatcherLemmas.HelloHella | test/matchle/MatchleTest.java:190-206 | That filter accepts "hello" and rejects "world" |
| MatcherLemmas.AabbAbabPasses | src/matchle/NGramMatcher.java:80-103 | For key "aabb" and guess "abab", the marks and the greedy claims |
| MatcherLemmas.AabbAbab | src/matchle/NGramMatcher.java:80-115 | For key "aabb" and guess "abab": exact at 0 and 3, misplaced 'b' then 'a', nothing absent |
| MatcherLemmas.ExhaustedDuplicatesPasses | src/matchle/NGramMatcher.java:94-103 | For key "hello" and guess "lllll", the two exact 'l's use up the key's 'l's, so nothing is claimed |
| MatcherSpec.Holds | src/matchle/NGramMatcher.java:85-112 | An Exact constraint holds only when its index is inside the n-gram and holds its character; Present holds exactly when the character occurs, Absent exactly when it does not |
| MatcherSpec.MatchFrom | src/matchle/NGramMatcher.java:47-62 | The reject-all filter comes exactly from a length mismatch; which constraints the other case holds is stated by the pass methods' contracts and the MatcherLemmas lemmas |
| MatcherSpec.Match | src/matchle/NGramMatcher.java:47-62 | On a fresh matcher, likewise reject-all exactly when the lengths differ |
| Matcher.Lookup | src/matchle/NGramMatcher.java:72-96 | `getOrDefault(c, 0)`: the table's entry for a present key, 0 for a missing one |
| MatcherLemmas.ExhaustedDuplicates | src/matchle/NGramMatcher.java:108-115 | For key "hello" and guess "lllll", the three surplus 'l's get no constraint, because the key contains 'l' |
| Matcher.MarksAfter | src/matchle/NGramMatcher.java:47-62 | The guess marks a match() call leaves behind, as long as the guess |
| Matcher.RemainingStart | src/matchle/NGramMatcher.java:53-56 | The table the exact pass hands on is the misplaced scan's table at position 0 |
| Matcher.ClaimTest | src/matchle/NGramMatcher.java:96 | The loop's test at position i decides exactly the specified claim |
| Matcher.CountsStep | src/matchle/NGramMatcher.java:97 | The table update at step i gives the specified table for i + 1 |
| Matcher.TableStep | src/matchle/NGramMatcher.java:84 | The exact pass's decrement keeps the table at "key count minus exact matches so far" |
| Matcher.OverlayAt | src/matchle/NGramMatcher.java:83-98 | Setting flags one position at a time gives, at each position passed, the old value or the flag |
| Matcher.OverlayAhead | src/matchle/NGramMatcher.java:96 | Positions the scan has not reached keep their old mark |
| Matcher.OverlayAll | src/matchle/NGramMatcher.java:98 | Once the whole guess is scanned, the marks are Taken |
| Matcher.OverlayAgree | src/matchle/NGramMatcher.java:83 | Once the whole key is scanned, both arrays are Marked |
| Matcher.NGramMatcher.Of | src/matchle/NGramMatcher.java:22-40 | of(key, guess) stores both n-grams, with fresh all-false claim arrays of their lengths |
| Matcher.NGramMatcher.CountKeyOccurrences | src/matchle/NGramMatcher.java:69-75 | A table with one entry per distinct key character, each equal to its number of occurrences |
| Matcher.NGramMatcher.MarkExactMatches | src/matchle/NGramMatcher.java:80-89 | Appends the exact constraints in order, lowers each count by its exact matches, and leaves both arrays Marked |
| Matcher.NGramMatcher.MarkMisplacedMatches | src/matchle/NGramMatcher.java:94-103 | Appends the Present constraints of the greedy claims, leaves the guess array Taken, and returns the remaining table |
| Matcher.NGramMatcher.MarkAbsentMatches | src/matchle/NGramMatcher.java:108-115 | Appends the absent constraints for the current guess marks, and changes no state |
| Matcher.NGramMatcher.Match | src/matchle/NGramMatcher.java:47-62 | The feedback is MatchFrom of the key, the guess and the marks found at the call. The guess marks are left as MarksAfter; on equal lengths the key marks are left as Marked, otherwise unchanged |
| Matcher.NGramMatcher.MatchReset | src/matchle/NGramMatcher.java:47-62 | With the arrays cleared first, match() gives the fresh-matcher feedback MatcherSpec.Match, leaves the guess marks a fresh matcher's call leaves, and the key marks Marked from all-false (all-false on a length mismatch) |
| Matcher.MatchOf | src/matchle/NGramMatcher.java:38-62 | NGramMatcher.of(key, guess).match() gives exactly MatcherSpec.Match(key, guess) |
| Matcher.MatchTwice | src/matchle/NGramMatcher.java:47-62 | A second match() on the same matcher starts from the first call's marks |
| Matcher.AbBaPasses | src/matchle/NGramMatcher.java:94-103 | For key "ab" and guess "ba": no exact position, both positions claimed |
| Matcher.AbBaFirst | src/matchle/NGramMatcher.java:47-62 | The first match() gives Present('b') and Present('a') and leaves every guess mark set |
| Matcher.AbBaSecond | src/matchle/NGramMatcher.java:95-115 | For key "ab" and guess "ba" with every guess mark set, match() adds no constraint at all (there is no exact position, and the set marks block both other passes) |
| Matcher.RepeatedMatchDiffers | src/matchle/NGramMatcher.java:47-62 | The first call's filter rejects "zz"; the second call's filter accepts it |
| Corpora.SubsetSize | src/matchle/Corpus.java:53-55 | A filtered subset is never larger than the set it came from |
| Corpora.Passing | src/matchle/Corpus.java:53-55 | The n-grams kept are exactly those of the set that pass the filter |
| Corpora.PassingIdempotent | src/matchle/Corpus.java:140-144 | Filtering again by the same filter keeps the same set |
| Corpora.Size | src/matchle/Corpus.java:53-55 | size(filter) is the number of members that pass, never more than the member count |
| Corpora.SizeFalse | src/matchle/Corpus.java:53-55 | size(FALSE) is 0 |
| Corpora.SizeAll | src/matchle/Corpus.java:53-55 | A filter that accepts every member counts them all |
| Corpora.SizeAnd | src/matchle/Corpus.java:53-55 | A conjoined filter never counts more members |
| Corpora.Survive | src/matchle/Corpus.java:158-159 | The number of members passing the key/guess feedback is at most the corpus size, and at least 1 when the key is a member of the guess's length |
| Corpora.ScoreOf | src/matchle/Corpus.java:154-160 | Running a fresh matcher and counting gives exactly Score |
| Corpora.Score | src/matchle/Corpus.java:154-160 | An illegal-state error exactly when the corpus is empty. Otherwise the survivor count, at most the corpus size |
| Corpora.KeySurvives | src/matchle/Corpus.java:154-160 | A member key of the guess's length always survives its own feedback, so the score is at least 1 |
| Corpora.WrongLengthScoresZero | src/matchle/Corpus.java:154-160 | A key of a different length from the guess scores 0 |
| Corpora.Pick | src/matchle/Corpus.java:170-172 | Some element of a non-empty set |
| Corpora.MaxOf | src/matchle/Corpus.java:171-172 | At least every value over the set, and attained by some element |
| Corpora.SumOf | src/matchle/Corpus.java:185-186 | Zero on the empty set, and at least each element's value |
| Corpora.SumOfBound | src/matchle/Corpus.java:185-186 | The sum is at most the element count times any bound on the values |
| Corpora.ArgMin | src/matchle/Corpus.java:214-215 | A member whose criterion is no larger than any other member's |
| Corpora.ScoreWorstCase | src/matchle/Corpus.java:168-174 | An illegal-state error exactly when the corpus is empty. Otherwise the largest score over every member as key: at least each score, and attained by one |
| Corpora.ScoreAverageCase | src/matchle/Corpus.java:182-187 | The sum of the scores over every member as key: 0 on an empty corpus, and at least each score |
| Corpora.AverageCaseBounds | src/matchle/Corpus.java:168-187 | The average-case sum is at least the worst case, and at most the square of the corpus size |
| Corpora.WorstCasePositive | src/matchle/Corpus.java:168-174 | In a built corpus, a guess of the word size has a worst-case score of at least 1 |
| Corpora.BestGuess | src/matchle/Corpus.java:213-217 | An illegal-state error exactly when the corpus is empty. Otherwise a member whose criterion is no larger than any member's |
| Corpora.BestWorstCaseGuess | src/matchle/Corpus.java:194-196 | A member whose worst-case score is no larger than any member's; an illegal-state error exactly on an empty corpus |
| Corpora.WorstCaseIsScore | src/matchle/Corpus.java:194-196 | The criterion minimised there is scoreWorstCase's value |
| Corpora.BestAverageCaseGuess | src/matchle/Corpus.java:203-205 | A member whose average-case sum is no larger than any member's; an illegal-state error exactly on an empty corpus |
| Corpora.NonNull | src/matchle/Corpus.java:106-108 | Exactly the non-null elements of the collection |
| Corpora.NonNullSnoc | src/matchle/Corpus.java:106-108 | One more element adds itself if non-null, and nothing otherwise |
| Corpora.Builder.Empty | src/matchle/Corpus.java:70-72 | empty() holds no n-grams |
| Corpora.Builder.Of | src/matchle/Corpus.java:80-84 | A new builder holding exactly the corpus's members |
| Corpora.Builder.Add | src/matchle/Corpus.java:92-96 | A null n-gram is a null-argument error and changes nothing. Otherwise it is inserted with set semantics and the same builder is returned |
| Corpora.Builder.AddAll | src/matchle/Corpus.java:104-110 | A null collection is a null-argument error and changes nothing. Otherwise every non-null element is added, nulls are skipped, and the same builder is returned |
| Corpora.Builder.IsConsistent | src/matchle/Corpus.java:118-120 | True of an empty builder whatever the length; when true, all the builder's n-grams have one length |
| Corpora.Builder.ConsistentWithMember | src/matchle/Corpus.java:128-130 | Checking against the length of any member, as build() does with the first, is true exactly when all lengths agree |
| Corpora.Builder.Build | src/matchle/Corpus.java:127-132 | A corpus exactly when the builder is non-empty and all lengths are equal. Its members are the builder's n-grams, and all have its word size |
| Corpora.Builder.Filter | src/matchle/Corpus.java:140-144 | A fresh builder holding exactly the n-grams that pass, with this builder unchanged |

## Left out

- `hashCode` (src/matchle/NGram.java:97) is not modelled. The model uses Dafny's value equality, which is what `equals` and `hashCode` together provide.
- HashSet iteration order is not modelled. It decides `bestGuess`'s tie-breaking and Corpus.iterator(). `Pick`, `MaxOf` and `ArgMin` choose an unspecified element, so the model promises only *some* minimal member.
- Corpus.iterator() (src/matchle/Corpus.java:43-45) and the copy made by `corpus()` are not separate operations. The member set is the datatype's `members` field, and `wordSize()` is its `wordSize` field.
- Scores are unbounded naturals. Java's `long` counts cannot overflow on any corpus that fits in memory.
- Null key or guess in `score`, `scoreWorstCase`, `scoreAverageCase` and `NGramMatcher.of` is not modelled. A null `IndexedCharacter` passed to `matches` or `containsElsewhere` (src/matchle/NGram.java:108, 129), which the source rejects with a null-argument exception, is not modelled, and neither is an `IndexedCharacter` whose `character` component is null: the model's `IndexedChar` always holds a `char`. Nulls are modelled only where the source tests for them in a way that shapes an operation's result: validate, both `from`s, `Filter.from`, `add` and `addAll`. A null `Integer` passed to `isConsistent` is not modelled either.
- MatcherSpec.Holds is total where the source throws: an Exact constraint on an n-gram too short for its index is false, while the source's `ngram.get(index)` throws. Inside a built corpus, scored with a guess of the word size, the two agree, because every Exact index is below the guess length (MatcherLemmas.ExactWithinGuess).
- The predicates are modelled as a list of `Constraint` values, and the HashMap as a `map` that each pass returns. The source mutates both in place through shared references.
- Exception message text is not modelled, nor the exception class hierarchy beyond the error kind.
- `Budget` and the matcher's map are Dafny `int`s. Java's boxed `Integer` counts never overflow here, because each is bounded by the key length.
- The absent pass follows the code (src/matchle/NGramMatcher.java:110): a guess letter whose key copies are all used up by earlier claims gets no constraint at all, where the usual Wordle rule would mark it absent. MatcherLemmas.ExhaustedDuplicates shows the case.
- Builder.Build returns `Option<Corpus>`, as the source returns null (src/matchle/Corpus.java:128, 130), so an empty builder and mixed lengths are one failure.
- NGrams.FromString and NGrams.FromList: a Dafny `char` is a Unicode scalar value, while the source's `word.chars()` (src/matchle/NGram.java:46) yields UTF-16 code units. A character outside the Basic Multilingual Plane such as U+1F600 is one position in the model and two in the source, and a lone surrogate cannot be represented. Matching differs accordingly: for key U+1F600 and guess U+1F601 the source adds an Exact constraint for the shared high surrogate, while the model adds Absent(U+1F601).

## Findings

| source | as written | input that shows it | evidently intended | confidence | as-written member | corrected member |
|---|---|---|---|---|---|---|
| src/matchle/NGramMatcher.java:47-62 | match() neither clears nor recomputes `keyMatch`/`guessMatch`, so a second call on the same matcher sees the first call's claims | key "ab", guess "ba": the first call gives Present('b') and Present('a'); the second gives no constraint, so its filter accepts "zz" | match() depends on key and guess only, as the Filter is meant to be a function of the pair | medium, not executed | Matcher.RepeatedMatchDiffers | Matcher.NGramMatcher.MatchReset |

Corpus only ever calls match() once, on a freshly made matcher (src/matchle/Corpus.java:158). So scoring is unaffected, and the model's scoring uses `MatcherSpec.Match`, which Matcher.MatchOf is proved to compute.
