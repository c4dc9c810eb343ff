/** The study card's state machine: the queue of words still to quiz, the
    word under question with its options, the learner's answer, and the
    transitions between them. Entries are popped from the end of the queue;
    a word answered wrongly is pushed back onto its front. */
module Session {
  import opened Types
  import opened Shuffle
  import opened Answers
  import opened Scheduler

  /** The quiz state: `Finished` when no word is left (the page's
      `word: null`, its congratulation screen), otherwise the word under
      question, the rest of the queue and the options offered. */
  datatype Quiz = Finished | Active(word: Entry, words: seq<Entry>, answerList: seq<Answer>)

  /** The answer state: the index of the option chosen, -1 before any, and
      the verdict recorded with it. A click records a verdict; a digit key
      records none (the page's `result` is then `''` or `undefined`). */
  datatype AnswerState = AnswerState(clicked: int, result: Option<Verdict>)

  const Unanswered := AnswerState(-1, None)

  /** The state of one study card: the learner, absent for an anonymous
      visitor, the quiz and the answer. */
  datatype Card = Card(username: Option<string>, quiz: Quiz, answer: AnswerState)

  /** The random choices made while generating one word's options. */
  datatype Dice = Dice(draws: seq<nat>, slot: nat)

  predicate DiceFit(e: Entry, d: Dice)
  {
    Fits(WordOf(e), d.draws, d.slot)
  }

  function Last<T>(s: seq<T>): T
    requires s != []
  {
    s[|s| - 1]
  }

  /** The entries not yet answered correctly: the queue and the word under
      question. */
  function Pending(q: Quiz): multiset<Entry>
  {
    match q
    case Finished => multiset{}
    case Active(w, ws, _) => multiset(ws) + multiset{w}
  }

  /** Take the next word: pop the last entry of the queue and build its
      options; an empty queue finishes the session. */
  function GetNextWord(words: seq<Entry>, d: Dice): (q: Quiz)
    requires words != [] ==> DiceFit(Last(words), d)
    ensures q.Finished? <==> words == []
    ensures q.Active? ==> q.word == Last(words) && q.words == words[..|words| - 1]
    ensures q.Active? ==> q.answerList == GenerateAnswers(Some(WordOf(q.word)), d.draws, d.slot)
  {
    if words == [] then Finished
    else
      var w := Last(words);
      Active(w, words[..|words| - 1], GenerateAnswers(Some(WordOf(w)), d.draws, d.slot))
  }

  /** Taking the next word loses no entry: the word under question and the
      new queue together hold exactly the old queue. */
  lemma GetNextWordPending(words: seq<Entry>, d: Dice)
    requires words != [] ==> DiceFit(Last(words), d)
    ensures Pending(GetNextWord(words, d)) == multiset(words)
  {
    if words != [] {
      PrefixSnoc(words, |words|);
      assert words[..|words|] == words;
    }
  }

  /** Start a session on the entries fetched: shuffle them, then take the
      first word. */
  function StartSession(username: Option<string>, entries: seq<Entry>, r: seq<nat>, d: Dice): (c: Card)
    requires ValidDraws(r, |entries|)
    requires entries != [] ==> DiceFit(Last(FisherYates(entries, r)), d)
    ensures Pending(c.quiz) == multiset(entries)
    ensures c.quiz.Finished? <==> entries == []
    ensures c.answer == Unanswered && c.username == username
  {
    GetNextWordPending(FisherYates(entries, r), d);
    Card(username, GetNextWord(FisherYates(entries, r), d), Unanswered)
  }

  /** The queue the card pops from when moving on: the word under question
      goes to its front when, and only when, the recorded verdict is
      incorrect. */
  function Requeue(q: Quiz, a: AnswerState): (ws: seq<Entry>)
    requires q.Active?
    ensures a.result == Some(Incorrect) ==> ws == [q.word] + q.words
    ensures a.result != Some(Incorrect) ==> ws == q.words
  {
    if a.result == Some(Incorrect) then [q.word] + q.words else q.words
  }

  /** The entries still to come after moving on: all pending ones after a
      wrong answer, all but the current word otherwise. */
  lemma RequeuePending(q: Quiz, a: AnswerState)
    requires q.Active?
    ensures a.result == Some(Incorrect) ==> multiset(Requeue(q, a)) == Pending(q)
    ensures a.result != Some(Incorrect) ==> multiset(Requeue(q, a)) == Pending(q) - multiset{q.word}
  {
    var m := multiset{q.word};
    if a.result == Some(Incorrect) {
      assert multiset(Requeue(q, a)) == m + multiset(q.words);
    } else {
      assert multiset(q.words) == (multiset(q.words) + m) - m;
    }
  }

  /** Move on to the next word, forgetting the answer. */
  function ToNextWord(c: Card, d: Dice): (c': Card)
    requires c.quiz.Active?
    requires Requeue(c.quiz, c.answer) != [] ==> DiceFit(Last(Requeue(c.quiz, c.answer)), d)
    ensures c'.username == c.username && c'.answer == Unanswered
    ensures c.answer.result == Some(Incorrect) ==> Pending(c'.quiz) == Pending(c.quiz)
    ensures c.answer.result != Some(Incorrect) ==>
      Pending(c'.quiz) == Pending(c.quiz) - multiset{c.quiz.word}
    ensures c.answer.result != Some(Incorrect) ==> |Pending(c'.quiz)| == |Pending(c.quiz)| - 1
    ensures c'.quiz.Finished? <==> c.quiz.words == [] && c.answer.result != Some(Incorrect)
  {
    var q := c.quiz;
    var ws := Requeue(q, c.answer);
    RequeuePending(q, c.answer);
    GetNextWordPending(ws, d);
    Card(c.username, GetNextWord(ws, d), Unanswered)
  }

  /** The page's `if(quizState.username)`: a username counts only when it is
      present and not the empty string. */
  predicate SignedIn(username: Option<string>)
  {
    username.Some? && username.value != ""
  }

  /** Clicking option `i`: a disabled button (an answer is already chosen)
      does nothing; otherwise the choice and its verdict are recorded and,
      for a signed-in learner (a non-empty username), the study item's next due time and interval
      are computed at time `now`. */
  function Click(c: Card, i: nat, now: int): (r: (AnswerState, Option<Update>))
    requires c.quiz.Active? && i < |c.quiz.answerList|
    requires SignedIn(c.username) ==> c.quiz.word.Studied?
    ensures c.answer.clicked != -1 ==> r == (c.answer, None)
    ensures c.answer.clicked == -1 ==> r.0.clicked == i
    ensures c.answer.clicked == -1 ==>
      (r.0.result == Some(Correct) <==> IsCorrect(c.quiz.answerList[i]))
    ensures c.answer.clicked == -1 ==> r.0.result.Some?
    ensures r.1.Some? <==> c.answer.clicked == -1 && SignedIn(c.username)
    ensures r.1.Some? ==> r.1.value == Schedule(c.quiz.word.studyItem, r.0.result.value, now)
  {
    if c.answer.clicked != -1 then (c.answer, None)
    else
      var verdict := if IsCorrect(c.quiz.answerList[i]) then Correct else Incorrect;
      var update := if SignedIn(c.username) then Some(Schedule(c.quiz.word.studyItem, verdict, now)) else None;
      (AnswerState(i, Some(verdict)), update)
  }

  /** Keys the card listens to. */
  datatype Key = Enter | ArrowRight | KeyD | Digit(n: int) | OtherKey

  /** What a key press does: move on, choose an option, or nothing that
      concerns the quiz (KeyD only shows or hides the word's details). */
  datatype KeyEffect = MoveOn | Choose(index: nat) | NoEffect

  /** The key handler. Enter and ArrowRight move on once an answer is
      chosen. Digit 1 chooses the first option; digits 2 to 4 choose their
      option when that many options are shown. Digits are not blocked by an
      earlier answer. */
  function KeyPress(a: AnswerState, optionCount: nat, k: Key): (e: KeyEffect)
    ensures e.MoveOn? <==> a.clicked != -1 && (k == Enter || k == ArrowRight)
    ensures e.Choose? <==> k.Digit? && (k.n == 1 || (2 <= k.n <= 4 && k.n <= optionCount))
    ensures e.Choose? ==> e.index == k.n - 1
    ensures e.Choose? && optionCount >= 1 ==> e.index < optionCount
  {
    if a.clicked != -1 && (k == Enter || k == ArrowRight) then MoveOn
    else if k == Digit(1) then Choose(0)
    else if k.Digit? && 2 <= k.n <= 4 && optionCount >= k.n then Choose(k.n - 1)
    else NoEffect
  }

  /** A key press on the card. Choosing by key records the index only, with
      no verdict and no schedule update. */
  function HandleInput(c: Card, k: Key, d: Dice): (c': Card)
    requires c.quiz.Active?
    requires KeyPress(c.answer, |c.quiz.answerList|, k).MoveOn? && Requeue(c.quiz, c.answer) != [] ==>
      DiceFit(Last(Requeue(c.quiz, c.answer)), d)
    ensures KeyPress(c.answer, |c.quiz.answerList|, k).Choose? ==>
      c' == c.(answer := AnswerState(KeyPress(c.answer, |c.quiz.answerList|, k).index, None))
    ensures KeyPress(c.answer, |c.quiz.answerList|, k).NoEffect? ==> c' == c
    ensures KeyPress(c.answer, |c.quiz.answerList|, k).MoveOn? ==> c' == ToNextWord(c, d)
  {
    match KeyPress(c.answer, |c.quiz.answerList|, k)
    case MoveOn => ToNextWord(c, d)
    case Choose(i) => c.(answer := AnswerState(i, None))
    case NoEffect => c
  }

  /** Every entry of `ws` is a study item. */
  predicate AllStudied(ws: seq<Entry>)
  {
    forall i :: 0 <= i < |ws| ==> ws[i].Studied?
  }

  /** A signed-in learner's session only holds study items. */
  predicate SignedInHoldsItems(c: Card)
  {
    SignedIn(c.username) ==>
      match c.quiz
      case Finished => true
      case Active(w, ws, _) => w.Studied? && AllStudied(ws)
  }

  lemma AllStudiedCons(w: Entry, ws: seq<Entry>)
    requires w.Studied? && AllStudied(ws)
    ensures AllStudied([w] + ws)
  {
    var s := [w] + ws;
    forall i | 0 <= i < |s|
      ensures s[i].Studied?
    {
      if i > 0 {
        assert s[i] == ws[i - 1];
      }
    }
  }

  lemma AllStudiedPop(ws: seq<Entry>)
    requires ws != [] && AllStudied(ws)
    ensures Last(ws).Studied? && AllStudied(ws[..|ws| - 1])
  {
  }

  /** Moving on keeps a signed-in session made of study items. */
  lemma ToNextWordKeepsItems(c: Card, d: Dice)
    requires c.quiz.Active?
    requires Requeue(c.quiz, c.answer) != [] ==> DiceFit(Last(Requeue(c.quiz, c.answer)), d)
    requires SignedInHoldsItems(c)
    ensures SignedInHoldsItems(ToNextWord(c, d))
  {
    var ws := Requeue(c.quiz, c.answer);
    if SignedIn(c.username) && ws != [] {
      if c.answer.result == Some(Incorrect) {
        AllStudiedCons(c.quiz.word, c.quiz.words);
      }
      AllStudiedPop(ws);
    }
  }

  /** A signed-in session starts on study items alone, as the items query
      supplies them, so its first word can be clicked. */
  lemma StartSessionHoldsItems(username: Option<string>, entries: seq<Entry>, r: seq<nat>, d: Dice)
    requires ValidDraws(r, |entries|)
    requires entries != [] ==> DiceFit(Last(FisherYates(entries, r)), d)
    requires SignedIn(username) ==> AllStudied(entries)
    ensures SignedInHoldsItems(StartSession(username, entries, r, d))
  {
    var shuffled := FisherYates(entries, r);
    if SignedIn(username) && entries != [] {
      forall i | 0 <= i < |shuffled|
        ensures shuffled[i].Studied?
      {
        assert shuffled[i] in multiset(entries);
      }
      AllStudiedPop(shuffled);
    }
  }

  /** No key press brings a bare word into a signed-in session. */
  lemma HandleInputKeepsItems(c: Card, k: Key, d: Dice)
    requires c.quiz.Active?
    requires KeyPress(c.answer, |c.quiz.answerList|, k).MoveOn? && Requeue(c.quiz, c.answer) != [] ==>
      DiceFit(Last(Requeue(c.quiz, c.answer)), d)
    requires SignedInHoldsItems(c)
    ensures SignedInHoldsItems(HandleInput(c, k, d))
  {
    if KeyPress(c.answer, |c.quiz.answerList|, k).MoveOn? {
      ToNextWordKeepsItems(c, d);
    }
  }

  /** The order in which the queue's entries come up when every answer is
      right: from the end of the queue to its front. */
  function PresentationOrder(ws: seq<Entry>): seq<Entry>
  {
    if ws == [] then [] else [Last(ws)] + PresentationOrder(ws[..|ws| - 1])
  }

  /** Every entry of the queue comes up, as often as it is queued. */
  lemma {:induction false} PresentationOrderPermutes(ws: seq<Entry>)
    ensures |PresentationOrder(ws)| == |ws|
    ensures multiset(PresentationOrder(ws)) == multiset(ws)
  {
    if ws != [] {
      var ws' := ws[..|ws| - 1];
      PresentationOrderPermutes(ws');
      assert ws == ws' + [Last(ws)];
    }
  }

  /** A word put back on the front of the queue comes up only after every
      entry already waiting in it. */
  lemma {:induction false} RequeuedComesLast(w: Entry, ws: seq<Entry>)
    ensures PresentationOrder([w] + ws) == PresentationOrder(ws) + [w]
    decreases |ws|
  {
    if ws == [] {
      assert [w][..0] == [];
    } else {
      var q := [w] + ws;
      var ws' := ws[..|ws| - 1];
      assert Last(q) == Last(ws);
      assert q[..|q| - 1] == [w] + ws';
      RequeuedComesLast(w, ws');
    }
  }

  /** Taking the next word takes the first entry of the presentation order
      and leaves the rest of it to the new queue. */
  lemma GetNextWordFollowsOrder(words: seq<Entry>, d: Dice)
    requires words != [] && DiceFit(Last(words), d)
    ensures GetNextWord(words, d).word == PresentationOrder(words)[0]
    ensures PresentationOrder(GetNextWord(words, d).words) == PresentationOrder(words)[1..]
  {
  }

  /** The order in which the words of a quiz come up when every answer is
      right: the current word, then the queue from its end. */
  function QuizOrder(q: Quiz): seq<Entry>
  {
    match q
    case Finished => []
    case Active(w, ws, _) => [w] + PresentationOrder(ws)
  }

  /** Moving on presents the rest of the queue in its order, and a wrongly
      answered word only after all of it. */
  lemma ToNextWordOrder(c: Card, d: Dice)
    requires c.quiz.Active?
    requires Requeue(c.quiz, c.answer) != [] ==> DiceFit(Last(Requeue(c.quiz, c.answer)), d)
    ensures c.answer.result == Some(Incorrect) ==>
      QuizOrder(ToNextWord(c, d).quiz) == PresentationOrder(c.quiz.words) + [c.quiz.word]
    ensures c.answer.result != Some(Incorrect) ==>
      QuizOrder(ToNextWord(c, d).quiz) == PresentationOrder(c.quiz.words)
  {
    var ws := Requeue(c.quiz, c.answer);
    if ws != [] {
      GetNextWordFollowsOrder(ws, d);
      var po := PresentationOrder(ws);
      assert po == [po[0]] + po[1..];
    }
    if c.answer.result == Some(Incorrect) {
      RequeuedComesLast(c.quiz.word, c.quiz.words);
    }
  }

  /** Once an option is chosen, clicking again changes nothing and computes
      no schedule update. */
  lemma SecondClickIgnored(c: Card, i: nat, j: nat, now: int, later: int)
    requires c.quiz.Active? && i < |c.quiz.answerList| && j < |c.quiz.answerList|
    requires SignedIn(c.username) ==> c.quiz.word.Studied?
    requires c.answer.clicked == -1
    ensures Click(c.(answer := Click(c, i, now).0), j, later) == (Click(c, i, now).0, None)
  {
  }

  /** A digit key pressed after a wrong click overwrites the recorded
      verdict, so moving on then drops the word instead of requeuing it. */
  lemma DigitAfterWrongClickDropsWord(c: Card, i: nat, now: int, d: Dice)
    requires c.quiz.Active? && i < |c.quiz.answerList|
    requires SignedIn(c.username) ==> c.quiz.word.Studied?
    requires c.answer.clicked == -1 && !IsCorrect(c.quiz.answerList[i])
    requires c.quiz.words != [] ==> DiceFit(Last(c.quiz.words), d)
    ensures Click(c, i, now).0.result == Some(Incorrect)
    ensures var c1 := c.(answer := Click(c, i, now).0);
      var c2 := HandleInput(c1, Digit(1), d);
      c2.answer == AnswerState(0, None) && Requeue(c2.quiz, c2.answer) == c.quiz.words
  {
  }

  /** A click on a correct option, then moving on, removes the word from the
      session for good; a click on a wrong one keeps it pending. */
  lemma ClickThenMoveOn(c: Card, i: nat, now: int, d: Dice)
    requires c.quiz.Active? && i < |c.quiz.answerList|
    requires SignedIn(c.username) ==> c.quiz.word.Studied?
    requires c.answer.clicked == -1
    requires var c1 := c.(answer := Click(c, i, now).0);
      Requeue(c1.quiz, c1.answer) != [] ==> DiceFit(Last(Requeue(c1.quiz, c1.answer)), d)
    ensures var c2 := ToNextWord(c.(answer := Click(c, i, now).0), d);
      if IsCorrect(c.quiz.answerList[i]) then Pending(c2.quiz) == Pending(c.quiz) - multiset{c.quiz.word}
      else Pending(c2.quiz) == Pending(c.quiz)
  {
  }

  /** A wrong answer on the last word of the queue brings the same entry
      straight back, with options generated from the same word. */
  lemma WrongAnswerComesBack(c: Card, d: Dice)
    requires c.quiz.Active? && c.quiz.words == [] && c.answer.result == Some(Incorrect)
    requires DiceFit(c.quiz.word, d)
    ensures ToNextWord(c, d).quiz ==
      Active(c.quiz.word, [], GenerateAnswers(Some(WordOf(c.quiz.word)), d.draws, d.slot))
  {
    assert Requeue(c.quiz, c.answer) == [c.quiz.word];
  }

  /** The objects the page keeps in its queue, as it actually builds them: a
      study item record, a bare word record, or the `{item: …}` wrapper put
      around a bare word when it becomes the current word. */
  datatype Shape = ItemShape(studyItem: StudyItem) | WordShape(word: Word) | Wrapped(inner: Shape)

  /** How the option list comes out: built from a word, or a `TypeError`
      thrown by the segmenter reading `undefined.split`. */
  datatype Build = BuildFrom(word: Word) | Throws

  /** The page's pop step on one object: the object stored as the current
      word, and the word the options are generated from. Anything that is
      not a study item record is wrapped and handed on itself; a wrapper has
      no reading, so the segmenter is called on `undefined` and throws. */
  function PopShape(x: Shape): (r: (Shape, Build))
    ensures x.ItemShape? ==> r.0 == x
    ensures !x.ItemShape? ==> r.0 == Wrapped(x)
    ensures r.1.Throws? <==> x.Wrapped?
  {
    match x
    case ItemShape(si) => (x, BuildFrom(si.item))
    case WordShape(w) => (Wrapped(x), BuildFrom(w))
    case Wrapped(_) => (Wrapped(x), Throws)
  }

  /** As written, a bare word answered wrongly goes back to the queue inside
      its wrapper; when it comes up again the options are asked of the
      wrapper, which has no reading, and the page throws. A study item
      comes back as it was. */
  lemma AnonymousRetryLosesReading(w: Word, si: StudyItem)
    ensures PopShape(WordShape(w)).1 == BuildFrom(w)
    ensures PopShape(PopShape(WordShape(w)).0).1 == Throws
    ensures PopShape(PopShape(ItemShape(si)).0) == (ItemShape(si), BuildFrom(si.item))
  {
  }
}
