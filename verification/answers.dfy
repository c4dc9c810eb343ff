/** The distractor generator: builds the multiple-choice options for the
    pitch-accent question about one word. One option per pitch class
    `0..|morae|`; the correct one is set aside, the others are shuffled,
    filtered, cut to three, and the correct one is spliced back in at a
    random index. */
module Answers {
  import opened Types
  import opened Morae
  import opened Shuffle

  /** One option of the answer grid. `Placeholder` stands for the empty
      object the page splices in when the word's pitch is not one of the
      pitch classes its reading allows. */
  datatype Answer = Answer(yomi: string, pitch: int, correct: bool) | Placeholder

  /** Whether picking the option scores as correct; the placeholder has no
      `correct` field and scores as incorrect. */
  predicate IsCorrect(a: Answer)
  {
    a.Answer? && a.correct
  }

  /** The geminate っ and the long-vowel mark ー cannot carry an accent drop. */
  predicate Unaccentable(c: char)
  {
    c == 'っ' || c == 'ー'
  }

  /** The distractor filter on a reading and a pitch. Pitch 0 always passes.
      Otherwise the character at index `pitch - 1` of the reading is looked
      up (a character index, not a mora index); an index past the end reads
      `undefined`, which passes. */
  predicate KeepPitch(yomi: string, pitch: int)
  {
    pitch == 0 || !(0 <= pitch - 1 < |yomi| && Unaccentable(yomi[pitch - 1]))
  }

  predicate Keep(a: Answer)
  {
    a.Answer? && KeepPitch(a.yomi, a.pitch)
  }

  function Min(a: int, b: int): int
  {
    if a <= b then a else b
  }

  function Max(a: int, b: int): int
  {
    if a >= b then a else b
  }

  /** No element occurs twice. */
  predicate NoDup<T(==)>(s: seq<T>)
  {
    forall k, l :: 0 <= k < l < |s| ==> s[k] != s[l]
  }

  /** No two options that carry a pitch carry the same one. */
  predicate DistinctPitches(s: seq<Answer>)
  {
    forall k, l :: 0 <= k < l < |s| && s[k].Answer? && s[l].Answer? ==> s[k].pitch != s[l].pitch
  }

  /** `a` is a wrong option for `w`: same reading, one of the pitch classes
      `0..|morae|` of the reading, not the word's own, flagged not correct. */
  predicate WrongOption(w: Word, a: Answer)
  {
    && a.Answer?
    && a.yomi == w.yomi
    && !a.correct
    && 0 <= a.pitch <= MoraCount(w.yomi)
    && a.pitch != w.pitch
  }

  /** The wrong options for pitch classes `i..n`, in increasing order. */
  function PoolFrom(w: Word, i: nat, n: nat): (p: seq<Answer>)
    ensures forall k :: 0 <= k < |p| ==>
      p[k].Answer? && p[k].yomi == w.yomi && !p[k].correct && i <= p[k].pitch <= n && p[k].pitch != w.pitch
    ensures forall k, l :: 0 <= k < l < |p| ==> p[k].pitch < p[l].pitch
    ensures forall q :: i <= q <= n && q != w.pitch ==> Answer(w.yomi, q, false) in p
    ensures i <= n + 1 ==> |p| == n + 1 - i - (if i <= w.pitch <= n then 1 else 0)
    decreases n + 1 - i
  {
    if i > n then []
    else (if i == w.pitch then [] else [Answer(w.yomi, i, false)]) + PoolFrom(w, i + 1, n)
  }

  /** Every wrong option, one per pitch class of the reading other than the
      word's own. */
  function Pool(w: Word): seq<Answer>
  {
    PoolFrom(w, 0, MoraCount(w.yomi))
  }

  /** The option set aside as the right answer: the one whose pitch is the
      word's, or the empty object when no pitch class matched. */
  function CorrectAnswer(w: Word): Answer
  {
    if 0 <= w.pitch <= MoraCount(w.yomi) then Answer(w.yomi, w.pitch, true) else Placeholder
  }

  /** The options the filter lets through, in their order. */
  function FilterKeep(s: seq<Answer>): seq<Answer>
  {
    if s == [] then []
    else (if Keep(s[0]) then [s[0]] else []) + FilterKeep(s[1..])
  }

  /** The distractors offered: the shuffled pool, filtered, at most three. */
  function Distractors(w: Word, r: seq<nat>): (ds: seq<Answer>)
    requires ValidDraws(r, |Pool(w)|)
    ensures |ds| == Min(3, |FilterKeep(Pool(w))|)
    ensures forall a :: a in ds ==> WrongOption(w, a) && Keep(a)
    ensures DistinctPitches(ds)
    ensures |FilterKeep(Pool(w))| <= 3 ==>
      forall a :: WrongOption(w, a) && Keep(a) ==> a in ds
  {
    var shuffled := FisherYates(Pool(w), r);
    var f := FilterKeep(shuffled);
    var ds := if |f| > 3 then f[..3] else f;
    FilterPermutation(shuffled, Pool(w));
    TakeFacts(f, ds);
    SameMembers(shuffled, Pool(w));
    FilterMembers(shuffled);
    PoolNoDup(w);
    NoDupCounts(Pool(w));
    CountsNoDup(ds);
    PoolIsWrongOptions(w);
    WrongOptionsDistinct(w, ds);
    ds
  }

  /** The filter keeps exactly the options that pass it. */
  lemma {:induction false} FilterMembers(s: seq<Answer>)
    ensures forall a :: a in FilterKeep(s) <==> a in s && Keep(a)
    ensures multiset(FilterKeep(s)) <= multiset(s)
  {
    if s != [] {
      FilterMembers(s[1..]);
      assert s == [s[0]] + s[1..];
    }
  }

  /** Distinct wrong options of one word have distinct pitches. */
  lemma WrongOptionsDistinct(w: Word, ds: seq<Answer>)
    requires NoDup(ds)
    requires forall a :: a in ds ==> WrongOption(w, a)
    ensures DistinctPitches(ds)
  {
    forall k, l | 0 <= k < l < |ds| && ds[k].Answer? && ds[l].Answer?
      ensures ds[k].pitch != ds[l].pitch
    {
      assert ds[k] in ds && ds[l] in ds;
    }
  }

  /** The pool holds exactly the wrong options. */
  lemma PoolIsWrongOptions(w: Word)
    ensures forall a :: a in Pool(w) <==> WrongOption(w, a)
  {
    forall a
      ensures a in Pool(w) <==> WrongOption(w, a)
    {
      if WrongOption(w, a) {
        assert a == Answer(w.yomi, a.pitch, false);
      }
    }
  }

  lemma SameMembers<T>(a: seq<T>, b: seq<T>)
    requires multiset(a) == multiset(b)
    ensures forall x :: x in a <==> x in b
  {
    forall x
      ensures x in a <==> x in b
    {
      assert x in a <==> x in multiset(a);
      assert x in b <==> x in multiset(b);
    }
  }

  /** Facts about the first (at most) three filtered options. */
  lemma TakeFacts(f: seq<Answer>, ds: seq<Answer>)
    requires ds == if |f| > 3 then f[..3] else f
    ensures multiset(ds) <= multiset(f)
    ensures |ds| == Min(3, |multiset(f)|)
    ensures forall a :: a in ds ==> a in f
  {
    assert f == ds + f[|ds|..];
  }

  /** The page's `splice(slot, 0, c)`: insert `c` before index `slot`. */
  function Splice<T>(ds: seq<T>, slot: nat, c: T): (res: seq<T>)
    requires slot <= |ds|
    ensures |res| == |ds| + 1
    ensures res[slot] == c
    ensures res[..slot] + res[slot + 1..] == ds
    ensures forall k :: 0 <= k < slot ==> res[k] == ds[k]
    ensures forall k :: slot < k < |res| ==> res[k] == ds[k - 1]
  {
    var res := ds[..slot] + [c] + ds[slot..];
    assert res[..slot] == ds[..slot];
    assert res[slot + 1..] == ds[slot..];
    res
  }

  /** The random choices the page makes for one word: the shuffle's draws,
      and the splice index `floor(random * k)` for `k` distractors, which is
      0 when there are none. */
  predicate Fits(w: Word, r: seq<nat>, slot: nat)
  {
    ValidDraws(r, |Pool(w)|) && slot < Max(1, |Distractors(w, r)|)
  }

  /** The options for the question about word `w`: the distractors with the
      correct option spliced in at `slot`. */
  function OptionsFor(w: Word, r: seq<nat>, slot: nat): (res: seq<Answer>)
    requires Fits(w, r, slot)
    ensures 1 <= |res| <= 4 && slot < |res|
    ensures res[slot] == CorrectAnswer(w)
    ensures |res| > 1 ==> slot < |res| - 1
    ensures res[..slot] + res[slot + 1..] == Distractors(w, r)
    ensures forall k :: 0 <= k < |res| && k != slot ==> WrongOption(w, res[k]) && Keep(res[k])
    ensures DistinctPitches(res)
  {
    var ds := Distractors(w, r);
    var res := Splice(ds, slot, CorrectAnswer(w));
    SpliceKeeps(ds, slot, CorrectAnswer(w), res);
    res
  }

  /** The page's option list: none without a word. */
  function GenerateAnswers(word: Option<Word>, r: seq<nat>, slot: nat): (res: seq<Answer>)
    requires word.Some? ==> Fits(word.value, r, slot)
    ensures word.None? ==> res == []
    ensures word.Some? ==> res == OptionsFor(word.value, r, slot)
  {
    match word
    case None => []
    case Some(w) => OptionsFor(w, r, slot)
  }

  /** What the splice does to the distractors: each keeps its properties, and
      two of them keep distinct pitches. */
  lemma SpliceKeeps(ds: seq<Answer>, slot: nat, c: Answer, res: seq<Answer>)
    requires slot <= |ds| && res == Splice(ds, slot, c)
    ensures forall k :: 0 <= k < |res| && k != slot ==> res[k] in ds
    ensures DistinctPitches(ds) && (forall a :: a in ds && a.Answer? && c.Answer? ==> a.pitch != c.pitch) ==>
      DistinctPitches(res)
  {
    forall k | 0 <= k < |res| && k != slot
      ensures res[k] in ds
    {
      if k < slot {
        assert res[k] == ds[k];
      } else {
        assert res[k] == ds[k - 1];
      }
    }
    if DistinctPitches(ds) && (forall a :: a in ds && a.Answer? && c.Answer? ==> a.pitch != c.pitch) {
      forall k, l | 0 <= k < l < |res| && res[k].Answer? && res[l].Answer?
        ensures res[k].pitch != res[l].pitch
      {
        if k != slot && l != slot {
          var k' := if k < slot then k else k - 1;
          var l' := if l < slot then l else l - 1;
          assert res[k] == ds[k'] && res[l] == ds[l'];
        }
      }
    }
  }

  /** Exactly one option of a generated list scores as correct when the
      word's pitch is one its reading allows (and it is the one at the
      splice index); none does otherwise. */
  lemma ExactlyOneCorrect(w: Word, r: seq<nat>, slot: nat)
    requires Fits(w, r, slot)
    ensures forall k :: 0 <= k < |OptionsFor(w, r, slot)| ==>
      (IsCorrect(OptionsFor(w, r, slot)[k]) <==> k == slot && 0 <= w.pitch <= MoraCount(w.yomi))
  {
    var res := OptionsFor(w, r, slot);
    forall k | 0 <= k < |res|
      ensures IsCorrect(res[k]) <==> k == slot && 0 <= w.pitch <= MoraCount(w.yomi)
    {
      if k != slot {
        assert WrongOption(w, res[k]);
      }
    }
  }

  lemma PoolNoDup(w: Word)
    ensures NoDup(Pool(w))
  {
  }

  lemma {:induction false} NoDupCounts<T>(s: seq<T>)
    requires NoDup(s)
    ensures forall x :: multiset(s)[x] <= 1
  {
    if s != [] {
      NoDupCounts(s[1..]);
      assert s == [s[0]] + s[1..];
      assert s[0] !in s[1..];
    }
  }

  lemma CountsNoDup<T>(s: seq<T>)
    requires forall x :: multiset(s)[x] <= 1
    ensures NoDup(s)
  {
    forall k, l | 0 <= k < l < |s|
      ensures s[k] != s[l]
    {
      assert s == s[..l] + s[l..];
      assert s[k] in s[..l] && s[l] in s[l..];
      assert multiset(s)[s[l]] == multiset(s[..l])[s[l]] + multiset(s[l..])[s[l]];
    }
  }

  /** The filter keeps every copy of an option that passes it and none of
      one that fails it. */
  lemma {:induction false} FilterCount(s: seq<Answer>, x: Answer)
    ensures multiset(FilterKeep(s))[x] == if Keep(x) then multiset(s)[x] else 0
  {
    if s != [] {
      FilterCount(s[1..], x);
      assert s == [s[0]] + s[1..];
    }
  }

  /** The options the filter keeps depend only on the multiset of its input,
      so the number of distractors does not depend on the shuffle. */
  lemma FilterPermutation(a: seq<Answer>, b: seq<Answer>)
    requires multiset(a) == multiset(b)
    ensures multiset(FilterKeep(a)) == multiset(FilterKeep(b))
  {
    forall x
      ensures multiset(FilterKeep(a))[x] == multiset(FilterKeep(b))[x]
    {
      FilterCount(a, x);
      FilterCount(b, x);
    }
  }

  /** The filter as its variable name reads it: by mora, dropping a pitch
      whose drop would follow a っ or ー mora. */
  predicate KeepByMora(morae: seq<string>, pitch: int)
  {
    pitch == 0 || !(1 <= pitch <= |morae| && (morae[pitch - 1] == "っ" || morae[pitch - 1] == "ー"))
  }

  /** On a reading without small kana, reading the character at `pitch - 1`
      is reading the mora at `pitch - 1`: the two filters agree. */
  lemma CharFilterIsMoraFilter(yomi: string, pitch: int)
    requires yomi != [] && forall i :: 0 <= i < |yomi| ==> !IsSmall(yomi[i])
    requires 0 <= pitch <= MoraCount(yomi)
    ensures KeepPitch(yomi, pitch) <==> KeepByMora(Segment(yomi), pitch)
  {
    SegmentCount(yomi);
    SingleCharMorae(yomi);
  }

  /** With a small kana before it, the character index runs ahead of the
      mora index. In しゃっき (morae しゃ・っ・き), pitch 2 puts the drop after
      the っ mora yet passes the filter, which reads ゃ; pitch 3 puts it
      after き yet is dropped, because the filter reads っ. */
  lemma CharFilterMisreadsYoon()
    ensures Segment("しゃっき") == ["しゃ", "っ", "き"]
    ensures KeepPitch("しゃっき", 2) && !KeepByMora(Segment("しゃっき"), 2)
    ensures !KeepPitch("しゃっき", 3) && KeepByMora(Segment("しゃっき"), 3)
  {
    var w := "しゃっき";
    assert w[1..] == "ゃっき";
    assert "し" + ['ゃ'] == "しゃ";
    assert "ゃっき"[1..] == "っき";
    assert "っき"[1..] == "き";
    assert Scan("しゃ", "っき") == ["しゃ"] + Scan("っ", "き");
    assert Scan("っ", "き") == ["っ"] + Scan("き", "");
  }
}
