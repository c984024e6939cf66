# AmorTest core in Dafny

A model of the three pieces of AmorTest that carry real logic, with proofs
of what they promise:

- the **congruence engine** (`netlify/functions/congruence-engine.js`): two
  partners' responses of the day are indexed by question id, the questions
  both answered are found by filtering partner A's list, the likert
  differences are summed in a loop, and the result is scaled to a 0–100
  score and put in one of the bands `intimate`, `neutral` and `platonic`.
  Around it, the request handler: 405, 400, the missing-partner 400, the
  `incomplete` result when either side has fewer than three responses, the
  `daily_syncs` row and the fallback suggestion text;
- the **daily question selector** (`netlify/functions/daily-questions.js`):
  for each of the seven constructs, in their fixed order, a quota
  `max(1, floor(N * weight))`, a random draw of that many from the
  construct's candidates, the draws appended into a pool, and a random draw
  of `N` from the pool. Around it, the handler's 405, 400 and 404 exits;
- the **couple identifier** (`src/lib/supabaseClient.js`): the two user ids
  in string order, concatenated with no separator, then hashed.

Files: `wrappers.dfy` (Option), `profiles.dfy` (the profile row, the
constructs, JavaScript truthiness of ids), `couple_id.dfy`,
`congruence.dfy`, `daily_questions.dfy`.

How the outside world enters the model:

- The database is a set of inputs. These are the profile table
  (`map<UserId, Profile>`), today's responses per user, the rows each
  construct's question query returns, and the activity text the random
  `order('random()')` pick returns per category.
- The clock is an input: today's date string.
- SHA-256 is a parameter `hash: string -> D`. The proofs hold for every hash
  function.
- Each `sort(() => 0.5 - Math.random())` is the method `Shuffle`. It returns
  an arbitrary reordering of its input, chosen with `:|`.
- A weight is the integer `level` with `weight = level / 5`, the form
  onboarding stores (`src/components/OnboardingFlow.jsx:32`). So the quota
  is `max(1, (N * level) / 5)` in exact arithmetic.
- The score is `Math.round(100 * (maxDiff - totalDiff) / maxDiff)` computed
  exactly, as `(200 * (maxDiff - totalDiff) + maxDiff) / (2 * maxDiff)`,
  with ties rounded up as `Math.round` does.

Points where the code behaves otherwise than one might expect, all modelled
as the code does:

- The code does not clamp the score. `NoClampOffScale` shows a score of -100
  for a likert value off the 1..5 scale. `ScoreInRange` shows that on the
  scale nothing needs clamping.
- The code does not remove repeated questions from the pool. A question may
  be returned more than once (`RepeatsAreKept`).
- On an empty overlap the score is 50, so "identical answers score 100"
  needs at least one shared question (`IdenticalAnswersScoreHundred`
  requires one).
- In the congruence handler, a user with no profile row does not get a 404:
  `getPartner` reads a field of `null`, and the catch answers 500.

## Model

| member | source | states |
|---|---|---|
| CongruenceEngine.IndexDomain | netlify/functions/congruence-engine.js:82-83 | the index has a key for every response's question id, and each key maps to a response of the list with that id |
| CongruenceEngine.IndexKeepsLast | netlify/functions/congruence-engine.js:82-83 | when an id occurs more than once, the index keeps the last response for it (`Object.fromEntries` semantics) |
| CongruenceEngine.SharedMembers | netlify/functions/congruence-engine.js:85 | the filter keeps exactly those responses of A whose question id B answered |
| CongruenceEngine.RoundHalfUpNearest | netlify/functions/congruence-engine.js:101 | the rounded value r satisfies r - 1/2 <= num/den < r + 1/2, so a tie rounds up as `Math.round` does |
| CongruenceEngine.Score | netlify/functions/congruence-engine.js:99-101 | with `maxDiff = 4 * sharedCount`, the score is the integer nearest to `100 * (maxDiff - totalDiff) / maxDiff`, a tie going up, as `Math.round((1 - totalDiff / maxDiff) * 100)` gives it |
| CongruenceEngine.Congruence | netlify/functions/congruence-engine.js:81-102 | the value `calculateCongruence` returns: 50 when no response of A has an id B answered, and otherwise the integer nearest to `100 * (maxDiff - totalDiff) / maxDiff`, a tie going up, where `maxDiff` is 4 per filtered response of A and `totalDiff` sums the likert differences over the filtered ids |
| CongruenceEngine.CalculateCongruence | netlify/functions/congruence-engine.js:81-102 | the loop's `totalDiff` is the sum of the likert differences over A's shared responses, and the method returns 50 on an empty overlap and otherwise the rounded `100 * (maxDiff - totalDiff) / maxDiff` with `maxDiff = 4 * |shared|` |
| CongruenceEngine.EmptyOverlapScoresFifty | netlify/functions/congruence-engine.js:85-86 | if no question id of A is also among B's, the score is exactly 50 |
| CongruenceEngine.ScoreInRange | netlify/functions/congruence-engine.js:93-101 | when every given likert value is on the 1..5 scale, the score lies in 0..100 with no clamp |
| CongruenceEngine.NoClampOffScale | netlify/functions/congruence-engine.js:99-101 | responses 1 and 9 on one shared question give -100: nothing clamps the result |
| CongruenceEngine.IdenticalAnswersScoreHundred | netlify/functions/congruence-engine.js:93-101 | with some shared question, and equal likert values wherever both answered the same id, the score is 100 |
| CongruenceEngine.OppositeAnswersScoreZero | netlify/functions/congruence-engine.js:93-101 | with some shared question, and likert values four apart wherever both answered the same id, the score is 0 |
| CongruenceEngine.NonLikertAddsNoDifference | netlify/functions/congruence-engine.js:93-99 | a new shared question without a likert value on A's side or on B's is appended to the filter and leaves `totalDiff` unchanged |
| CongruenceEngine.NonLikertInflatesScore | netlify/functions/congruence-engine.js:93-101 | such a question adds 4 to `maxDiff` but nothing to `totalDiff`, so the score never falls |
| CongruenceEngine.NonLikertCanRaiseScore | netlify/functions/congruence-engine.js:93-101 | the rise is strict in an example: A's likert 1 against B's 5 scores 0, and adding a non-likert answer to a question B also answered without a likert value lifts it to 50 |
| CongruenceEngine.TotalDiffPermutation | netlify/functions/congruence-engine.js:88-97 | the accumulated difference does not depend on the order in which the shared ids are visited |
| CongruenceEngine.SwapSymmetric | netlify/functions/congruence-engine.js:82-101 | when neither side repeats a question id, exchanging the partners gives the same score |
| CongruenceEngine.SwapAsymmetricWithRepeats | netlify/functions/congruence-engine.js:85-101 | when A repeats a question id, that id counts twice from A's side and once from B's, and the two orders score 33 and 50 |
| CongruenceEngine.ThreeQuestionExample | netlify/functions/congruence-engine.js:28-29 | answers 2,5,4 against 3,4,5 on three shared questions score 75, which is `intimate` |
| CongruenceEngine.CategoryOf | netlify/functions/congruence-engine.js:29 | every score is in exactly one band: `intimate` iff score >= 70, `platonic` iff score < 50, `neutral` iff 50 <= score < 70 |
| CongruenceEngine.CategoryBoundaries | netlify/functions/congruence-engine.js:29 | 70 is intimate, 69 and 50 are neutral, 49 is platonic |
| CongruenceEngine.Suggestion | netlify/functions/congruence-engine.js:52 | the suggestion is the picked activity text when there is a non-empty one, and otherwise 'Enjoy your day together.' |
| CongruenceEngine.Handler | netlify/functions/congruence-engine.js:4-59 | non-POST gives 405 and a falsy `user_id` gives 400. A missing profile gives 500. A missing or unknown partner gives 400 'No partner'. Fewer than 3 responses on either side gives `incomplete`. Otherwise the score, its band and the suggestion are returned. A sync row keyed by the couple id and today's date is written exactly when a score is returned |
| CongruenceEngine.SameSyncFromEitherPartner | netlify/functions/congruence-engine.js:15-37 | when neither side repeats a question id, both partners' invocations compute the same `daily_syncs` row, so the last-write-wins upsert is idempotent |
| DailyQuestions.DayCount | netlify/functions/daily-questions.js:36 | the day's question count is the configured one when the variable is set, and otherwise the default 6 |
| DailyQuestions.QuestionCount | netlify/functions/daily-questions.js:40 | the quota is at least 1, even for weight 0. Above 1, it is the floor of `N * level / 5`. It is 1 only when `N * level / 5 < 2` |
| DailyQuestions.CountAtMostTotal | netlify/functions/daily-questions.js:40 | with `N >= 1` and a weight in [0, 1], the quota is at most `N` |
| DailyQuestions.Shuffle | netlify/functions/daily-questions.js:49 | the random-comparator sort returns a reordering of its input: the same elements, as often |
| DailyQuestions.PrefixIsDrawn | netlify/functions/daily-questions.js:49 | `slice(0, count)` of a reordering holds `min(count, length)` elements, all from the input |
| DailyQuestions.SelectQuestions | netlify/functions/daily-questions.js:38-54 | the constructs are visited in the fixed order sensory … temporal. Construct i contributes exactly `min(count_i, |candidates_i|)` of its own candidates, and the contributions are appended in that order. The result holds `min(N, |pool|)` elements of the pool, where the pool size is the sum of the constructs' `min(count_i, |candidates_i|)`, and every returned question is some construct's candidate |
| DailyQuestions.ReturnedWereCandidates | netlify/functions/daily-questions.js:49-54 | every returned question was in some construct's candidate list |
| DailyQuestions.ExcludedNeverReturned | netlify/functions/daily-questions.js:46-54 | if the candidate lists leave out the out-of-bounds ids, as the query asks, so does the result |
| DailyQuestions.SmallPoolReturnedWhole | netlify/functions/daily-questions.js:54 | at most `N` questions are returned. A pool of at most `N` questions is returned whole, without error |
| DailyQuestions.RepeatsAreKept | netlify/functions/daily-questions.js:50-54 | with the same single question as every construct's candidate list, that question is returned `min(N, 7)` times: nothing removes repeats |
| DailyQuestions.Handler | netlify/functions/daily-questions.js:4-61 | non-POST gives 405 'Method Not Allowed', a falsy `user_id` 400 'user_id required', a missing profile 404 'Profile not found'. Otherwise 200 with a selection under the profile's weights. The result avoids the profile's out-of-bounds ids whenever the candidate lists do |
| CoupleIdentity.BelowTotal | src/lib/supabaseClient.js:11 | the string order the sort uses is total: any two different ids are ordered one way or the other |
| CoupleIdentity.SortedPair | src/lib/supabaseClient.js:11 | the sorted pair holds the same two ids, and the first is not above the second |
| CoupleIdentity.HashInput | src/lib/supabaseClient.js:11-12 | the hashed string is the two ids concatenated smaller first, that is `min(a, b) + max(a, b)` |
| CoupleIdentity.CoupleId | src/lib/supabaseClient.js:10-13 | `generateCoupleId`: the hash of the two ids concatenated in string order, the caller's id first unless the partner's id is below it |
| CoupleIdentity.CoupleIdSymmetric | src/lib/supabaseClient.js:10-13 | `generateCoupleId(a, b) == generateCoupleId(b, a)` for every hash function |
| CoupleIdentity.CoupleIdOfSamePair | src/lib/supabaseClient.js:10-13 | the identifier depends only on the unordered pair of ids: equal pairs give equal ids |
| CoupleIdentity.ConcatenationCollision | src/lib/supabaseClient.js:11-12 | the different pairs ("a", "bc") and ("ab", "c") both hash "abc", so they share an identifier under every hash |

## Left out

- The message encryption of `src/lib/crypto.js` is not modelled. It is a
  thin layer over Web Crypto (AES-GCM, PBKDF2, random IVs), and its round
  trip and IV freshness are properties of that library.
- The React components are not modelled: screens, forms, realtime
  subscriptions and rendering. `SyncResult.jsx` repeats the 70/50 thresholds
  for display only.
- Which rows the store returns is not modelled. This covers the question
  query's construct, exclusion and `limit(count * 3)` filters, and the random
  activity pick. Their results are inputs.
- ExcludedNeverReturned: the exclusion guarantee is conditional on the store
  honouring the `.not('id', 'in', …)` filter. The model cannot check the
  query itself.
- Store failures are not modelled. A query that fails returns `data: null`,
  and the next `.length` or `.sort` throws into the catch, giving 500. Only the
  missing-profile 500 of the congruence handler is modelled.
- `JSON.parse` of the request body is not modelled. The body's `user_id` is
  an input, and a body that does not parse is left out.
- `import.meta.env` string coercion is not modelled. A configured question
  count is taken as the number it spells.
- A `null` weight column is left out. It would behave like level 0, since
  `N * null` is 0.
- Floating point is not modelled; the model computes exactly.
  `N * (level / 5)` and `1 - totalDiff / maxDiff` are doubles in the source. A
  double that lands just below an integer or a .5 tie can floor or round one
  lower than the exact value.
- DailyQuestions.Shuffle: not the distribution of the random-comparator sort,
  which is not uniform; only that it is a reordering.
- CoupleIdentity.Below: compares Dafny characters (Unicode scalar values).
  JavaScript compares UTF-16 code units, and the two orders differ only on
  characters outside the Basic Multilingual Plane. The lowercase hex encoding
  of the digest belongs to the hash parameter.
- Key order of `Object.fromEntries` is not modelled. Ids such as
  `__proto__`, and number ids coerced to string keys, are left out.
