# Kaki study session — a Dafny model

Kaki is a web app for learning the pitch accent of Japanese words. Its study
page (`kaki-app/pages/learn.js`) quizzes a learner on one word at a time. It
shows the word, offers up to four readings, each marked with a different
accent position ("pitch class"), and records whether the learner picked the
right one. This project models the logic behind that page and proves
properties of it:

- **Morae** — `getMorae`, the segmenter that splits a kana reading into morae.
  A small ゃ, ゅ or ょ joins the mora before it. The number of morae fixes the
  pitch classes `0..|morae|` a word can have.
- **Shuffle** — `fisherYates`. Its random indices are an explicit argument
  `r`: the walk draws `r[i]` in `0..i` when it reaches position `i`.
- **Answers** — `generateAnswers`. It makes one option per pitch class and
  sets the correct one aside. The rest are shuffled, filtered (a drop after
  っ or ー is impossible) and cut to three. The correct option is then put
  back at a random index `slot`.
- **Scheduler** — the spaced-repetition rule applied when a signed-in learner
  answers. It computes the item's next due time and interval, reading both the
  interval and the easing factor through `parseInt`.
- **Session** — the study card as a state machine:
  - `getNextWord` takes the current word from the end of the queue.
  - `StudyCard.toNextWord` puts a wrongly answered word back at the front.
  - A click on an answer button is ignored once the answer is chosen.
  - The keyboard handler maps Enter, ArrowRight and Digit1-4.

Randomness becomes data in the model. A shuffle is a sequence of draws
(`ValidDraws`). The splice index is a number below the number of distractors,
or 0 when there are none (`Fits`). The clock is a parameter `now` in
milliseconds.

Some behaviours of the code are modelled as written and stated as
properties:

- The correct option is never spliced in last when there are distractors
  (`Math.floor(Math.random() * answers.length)`).
- The distractor filter looks up the **character** at index `pitch - 1`, not
  the mora. This is the same as looking up the mora when the reading has no
  small kana, and differs otherwise (`Answers.CharFilterMisreadsYoon`).
- Digit keys record a choice without a verdict and are not blocked by an
  earlier click. A digit pressed after a wrong click therefore makes the
  word count as done when the learner moves on.
- With an interval of 1 and an easing factor of 1.5, the code gives an
  interval of 1, not 1.5, because `parseInt` drops the fraction of the easing
  factor (`Scheduler.ExampleTruncatedEasing`).

## Model

| member | source | states |
|---|---|---|
| `Morae.GetMorae` | kaki-app/pages/learn.js:539-555 | there is always at least one mora; the empty reading gives the single mora `undefined`; otherwise every mora is present, and there is one more mora than the number of characters after the first that are not ゃ, ゅ or ょ |
| `Morae.GetMoraeSegments` | kaki-app/pages/learn.js:541-554 | the morae of a non-empty reading concatenate back to it; each is non-empty; within a mora only small kana follow its first character; no mora after the first starts with a small kana |
| `Morae.ScanSegments` | kaki-app/pages/learn.js:545-553 | the loop, started from a well-formed partial mora, ends in a valid segmentation of everything it has read |
| `Morae.SegmentIsSegmentation` | kaki-app/pages/learn.js:541-554 | the segmenter's output is a segmentation of its input |
| `Morae.SegmentationUnique` | kaki-app/pages/learn.js:545-553 | a reading has at most one segmentation, so the segmentation rules fix the segmenter's output |
| `Morae.SegmentationIsSegment` | kaki-app/pages/learn.js:539-555 | every segmentation of a non-empty reading equals the segmenter's output |
| `Morae.ScanCount` | kaki-app/pages/learn.js:545-553 | the loop emits one mora for the one being built plus one for each later character that is not small |
| `Morae.SegmentCount` | kaki-app/pages/learn.js:541-554 | a non-empty reading has one mora for its first character plus one for each later character that is not small |
| `Morae.MoraCountBound` | kaki-app/pages/learn.js:539-555 | every reading has at least one mora, and a non-empty reading has no more morae than characters |
| `Morae.SingleCharMorae` | kaki-app/pages/learn.js:546-551 | a reading without small kana is split into its single characters |
| `Morae.ShashinExample` | kaki-app/pages/learn.js:546-553 | しゃしん is split into しゃ, し and ん |
| `Shuffle.Swap` | kaki-app/pages/learn.js:531-533 | the two positions trade elements, every other position is unchanged, and the multiset is kept |
| `Shuffle.SwapDown` | kaki-app/pages/learn.js:529-534 | the loop keeps the length and the multiset of elements, and never touches positions it has already left behind |
| `Shuffle.FisherYates` | kaki-app/pages/learn.js:527-536 | the shuffled copy is a permutation of the input |
| `Shuffle.SwapDownReadsPrefix` | kaki-app/pages/learn.js:529-530 | the loop's result depends only on the draws for positions it still has to visit |
| `Shuffle.DrawsReaching` | kaki-app/pages/learn.js:529-534 | for any rearrangement of the unvisited prefix, some valid draws make the loop produce it |
| `Shuffle.FisherYatesReachesAll` | kaki-app/pages/learn.js:527-536 | every permutation of the input is the result of some valid draws, so the shuffle misses no arrangement |
| `Shuffle.LastIsFirstDraw` | kaki-app/pages/learn.js:529-533 | the element that ends up last is the one at the index drawn first |
| `Shuffle.StayDraws` | kaki-app/pages/learn.js:530 | drawing the current position at every step gives valid draws |
| `Shuffle.StayKeeps` | kaki-app/pages/learn.js:527-536 | with those draws every swap is a no-op and the shuffle returns its input unchanged |
| `Answers.PoolFrom` | kaki-app/pages/learn.js:500-511 | the loop yields exactly one option per pitch class in `i..n` other than the word's own, flagged not correct, with the word's reading, in increasing pitch order; their number is the number of such classes |
| `Answers.PoolIsWrongOptions` | kaki-app/pages/learn.js:500-511 | an option is in the pool exactly when it is a wrong option: same reading, a pitch class of the reading, not the word's own pitch, not correct |
| `Answers.FilterMembers` | kaki-app/pages/learn.js:513-517 | the filter keeps exactly the options whose pitch passes it, and adds nothing |
| `Answers.FilterCount` | kaki-app/pages/learn.js:513-517 | the filter keeps every copy of a passing option and drops every copy of a failing one |
| `Answers.FilterPermutation` | kaki-app/pages/learn.js:513-517 | what the filter keeps depends only on the multiset of its input, so the number of distractors does not depend on the shuffle |
| `Answers.Distractors` | kaki-app/pages/learn.js:513-519 | there are min(3, eligible) distractors; each is a wrong option that passes the filter; no two share a pitch; when three or fewer are eligible, every one of them is offered |
| `Answers.Splice` | kaki-app/pages/learn.js:522 | the correct option is inserted at `slot`; removing it gives back the distractors in order |
| `Answers.SpliceKeeps` | kaki-app/pages/learn.js:522 | every option other than the one inserted is a distractor, and the options keep distinct pitches |
| `Answers.OptionsFor` | kaki-app/pages/learn.js:495-524 | there are 1 to 4 options; the correct option (or the empty object when the word's pitch is not a pitch class of its reading) is at `slot`, and is not last when there are distractors; the other options are the distractors in order, all wrong and passing the filter; all pitches differ |
| `Answers.GenerateAnswers` | kaki-app/pages/learn.js:491-524 | no word gives no options; a word gives its options as above |
| `Answers.ExactlyOneCorrect` | kaki-app/pages/learn.js:500-522 | the option at the splice index is the only one that scores as correct, and only when the word's pitch is a pitch class of its reading; otherwise none does |
| `Answers.CharFilterIsMoraFilter` | kaki-app/pages/learn.js:513-517 | on a reading without small kana, the filter by character index accepts exactly the pitches a filter by mora index accepts |
| `Answers.CharFilterMisreadsYoon` | kaki-app/pages/learn.js:514 | on しゃっき, pitch 2 passes although the mora before the drop is っ, and pitch 3 is dropped although that mora is き |
| `Scheduler.ParseInt` | kaki-app/pages/learn.js:396-397 | a number is read as its whole part, rounding toward zero |
| `Scheduler.Schedule` | kaki-app/pages/learn.js:394-402 | a wrong answer makes the item due now with interval 1; a right one makes it due the old whole interval of days after `now`, with the new interval the whole interval times the whole easing factor |
| `Scheduler.DueUsesOldInterval` | kaki-app/pages/learn.js:396-397 | on a whole interval the due date lies that many days ahead, counted from the old interval; with an easing factor of at least 2 it is sooner than the new interval would put it |
| `Scheduler.CorrectKeepsIntervalPositive` | kaki-app/pages/learn.js:396-397 | with interval and easing factor at least 1, a right answer never shrinks the interval and schedules at least a day ahead |
| `Scheduler.FastEasingGrows` | kaki-app/pages/learn.js:397 | with easing factor at least 2, the interval at least doubles |
| `Scheduler.SlowEasingNeverGrows` | kaki-app/pages/learn.js:397 | with easing factor in [1, 2), the factor is read as 1 and a right answer leaves the interval at its whole part |
| `Scheduler.ExampleDoubling` | kaki-app/pages/learn.js:394-402 | interval 2 with easing factor 2.0 gives interval 4, due in 2 days |
| `Scheduler.ExampleTruncatedEasing` | kaki-app/pages/learn.js:397 | interval 1 with easing factor 1.5 gives interval 1, due in 1 day |
| `Session.GetNextWord` | kaki-app/pages/learn.js:464-485 | an empty queue finishes the session; otherwise the last entry becomes the current word, the rest stays queued in order, and the options are generated from its word |
| `Session.GetNextWordPending` | kaki-app/pages/learn.js:464-485 | the current word and the new queue together hold exactly the old queue |
| `Session.StartSession` | kaki-app/pages/learn.js:201-203 | a session starts with no answer chosen, holds exactly the fetched entries, and is finished at once only when none were fetched |
| `Session.StartSessionHoldsItems` | kaki-app/pages/learn.js:193-203 | a signed-in session started on the study items fetched holds only study items, so its current word can be clicked and scheduled |
| `Session.Requeue` | kaki-app/pages/learn.js:301-304 | the current word goes back to the front of the queue exactly when the recorded verdict is incorrect |
| `Session.RequeuePending` | kaki-app/pages/learn.js:300-304 | after a wrong answer the requeued list holds everything pending; otherwise it holds everything but the current word |
| `Session.ToNextWord` | kaki-app/pages/learn.js:300-309 | moving on clears the answer; a wrong answer keeps the pending entries; any other answer removes exactly the current word; the session finishes exactly when nothing is left |
| `Session.ToNextWordOrder` | kaki-app/pages/learn.js:300-309 | after moving on, the words come up in the order the old queue presented them, with a wrongly answered word appended after all of them |
| `Session.Click` | kaki-app/pages/learn.js:390-402 | a click once an answer is chosen does nothing; otherwise it records the index and a verdict that is correct exactly when the option is, and computes a schedule update exactly when the username is present and not empty |
| `Session.SecondClickIgnored` | kaki-app/pages/learn.js:458 | after one click, a second click changes nothing and computes no update |
| `Session.KeyPress` | kaki-app/pages/learn.js:262-291 | Enter or ArrowRight moves on exactly when an answer is chosen; Digit1 always chooses the first option; digits 2 to 4 choose their option exactly when that many are shown |
| `Session.HandleInput` | kaki-app/pages/learn.js:262-291 | a digit key k that chooses records index k - 1 with no verdict and changes nothing else; a key with no effect changes nothing; moving on is `ToNextWord` |
| `Session.HandleInputKeepsItems` | kaki-app/pages/learn.js:262-291 | no key press brings a bare word into a signed-in session |
| `Session.DigitAfterWrongClickDropsWord` | kaki-app/pages/learn.js:276-278 | a digit pressed after a wrong click wipes the verdict, so moving on drops the word instead of requeuing it |
| `Session.ClickThenMoveOn` | kaki-app/pages/learn.js:300-309 | clicking a correct option and moving on removes the word from the pending entries; clicking a wrong one keeps them all |
| `Session.ToNextWordKeepsItems` | kaki-app/pages/learn.js:300-309 | a signed-in learner's session holds only study items before and after moving on |
| `Session.PresentationOrderPermutes` | kaki-app/pages/learn.js:466 | taking entries from the end of the queue presents each queued entry exactly as often as it is queued |
| `Session.RequeuedComesLast` | kaki-app/pages/learn.js:303 | a word put back at the front comes up only after every entry already queued |
| `Session.GetNextWordFollowsOrder` | kaki-app/pages/learn.js:466 | the next word is the head of the presentation order, and the new queue presents the rest of it |
| `Session.WrongAnswerComesBack` | kaki-app/pages/learn.js:300-309 | a wrong answer on the last queued word brings the same entry straight back, with options generated from the same word |
| `Session.PopShape` | kaki-app/pages/learn.js:471-484 | a study item record is stored as it is; anything else is wrapped in `{item: …}` and handed on itself; a wrapper has no reading, so building its options throws |
| `Session.AnonymousRetryLosesReading` | kaki-app/pages/learn.js:478-484 | a bare word, once wrapped and put back by a wrong answer, comes up again with no reading and the page throws; a study item comes back unchanged |

## Left out

- The React rendering, styles, the details panel and the `KeyD` and
  "Show info" visibility toggle. These are presentation only; `KeyD` is
  modelled as a key with no effect on the quiz.
- The GraphQL queries and mutations that fetch words and study items and
  create study items (`handleStudyItems`, `handleWords`). `Session.StartSession`
  takes the fetched entries as its argument.
- Saving the schedule update. The mutation call is commented out in the
  source, so `Session.Click` only returns the update, and the due time stays
  a number of milliseconds rather than an ISO string.
- The clock (`Date.now()`) and `Math.random()`. They become the parameter
  `now`, the draws `r` and the splice index `slot`.
- Scheduler.ParseInt: models `parseInt` on numbers written in plain decimal
  notation only. JavaScript writes very large or very small numbers in
  exponent notation, and `parseInt` then reads only the digits before the
  exponent.
- Scheduler.Schedule: the interval and the easing factor are exact reals. The
  source's floating-point numbers and their rounding are not modelled.
- Scheduler.Schedule: the page builds the due date with `toISOString()` before
  it tests the verdict. A due time beyond the date range (more than 8.64e15
  ms from 1970) therefore throws a `RangeError` even on a wrong answer, and
  no update is computed. The model has no date range and always returns an
  update.
- Morae.GetMorae: strings are sequences of characters. JavaScript's
  `split('')` splits into UTF-16 code units, which is the same for kana.
- Session.GetNextWord: entries come as `Studied` or `Bare`, decided by the
  source's `__typename` test. The rest of the model keeps a bare word as a
  bare word when it is requeued, which is the corrected behaviour of the
  finding below. The as-written wrapping is modelled apart in
  `Session.PopShape`.
- `getRandomWord` (learn.js:487-489) is never called and is not part of this
  model.

## Findings

| source | as written | input that shows it | evidently intended | confidence | as-written member | corrected member |
|---|---|---|---|---|---|---|
| kaki-app/pages/learn.js:478-484 | for a visitor who is not signed in, `getNextWord` stores the current word as `{item: word}`; `toNextWord` puts that wrapper back in the queue after a wrong answer; the next pop wraps it again and calls `generateAnswers` on an object with no `yomi`, so `getMorae` is given `undefined` | an anonymous session with one word, answered wrongly, then moving on | the requeued word comes back as the same word with its options rebuilt from its reading | high, not executed | `Session.AnonymousRetryLosesReading` | `Session.WrongAnswerComesBack` |
