/** The mora segmenter: splits a kana reading into the units over which the
    pitch-accent position is counted. A small ゃ, ゅ or ょ belongs to the
    mora before it; every other character starts a new mora. */
module Morae {
  import opened Types

  /** The small kana that glue onto the preceding mora (hiragana only). */
  predicate IsSmall(c: char)
  {
    c == 'ゃ' || c == 'ゅ' || c == 'ょ'
  }

  /** The concatenation of a list of strings. */
  function Concat(ms: seq<string>): string
  {
    if ms == [] then [] else ms[0] + Concat(ms[1..])
  }

  /** Number of characters of `s` that start a new mora. */
  function CountNonSmall(s: string): nat
  {
    if s == [] then 0 else (if IsSmall(s[0]) then 0 else 1) + CountNonSmall(s[1..])
  }

  /** `ms` is a division of `word` into morae: non-empty pieces that
      concatenate to `word`, where each piece is one character followed only
      by small kana, and no piece but the first starts with a small kana. */
  ghost predicate IsSegmentation(ms: seq<string>, word: string)
  {
    && |ms| >= 1
    && Concat(ms) == word
    && (forall i :: 0 <= i < |ms| ==> ms[i] != [])
    && (forall i :: 0 < i < |ms| ==> !IsSmall(ms[i][0]))
    && (forall i, j :: 0 <= i < |ms| && 0 < j < |ms[i]| ==> IsSmall(ms[i][j]))
  }

  /** The loop of the segmenter: `current` is the mora being built and
      `rest` the characters not yet read. */
  function Scan(current: string, rest: string): seq<string>
    decreases |rest|
  {
    if rest == [] then [current]
    else if IsSmall(rest[0]) then Scan(current + [rest[0]], rest[1..])
    else [current] + Scan([rest[0]], rest[1..])
  }

  /** Segmentation of a non-empty reading: the first character opens the
      first mora whatever it is. */
  function Segment(word: string): seq<string>
    requires word != []
  {
    Scan([word[0]], word[1..])
  }

  /** The segmenter as the page calls it. On the empty reading the first
      mora is `undefined` and the result is a one-element list holding it;
      otherwise every mora is present. */
  function GetMorae(word: string): (r: seq<Option<string>>)
    ensures |r| >= 1
    ensures word == [] ==> r == [None]
    ensures word != [] ==> (forall i :: 0 <= i < |r| ==> r[i].Some?)
    ensures word != [] ==> |r| == 1 + CountNonSmall(word[1..])
  {
    if word == [] then [None]
    else
      SegmentCount(word);
      var ms := Segment(word);
      seq(|ms|, i requires 0 <= i < |ms| => Some(ms[i]))
  }

  /** The morae of a non-empty reading are all present and divide it as a
      segmentation must. */
  lemma GetMoraeSegments(word: string)
    requires word != []
    ensures IsSegmentation(Present(GetMorae(word)), word)
  {
    SegmentIsSegmentation(word);
    assert Present(GetMorae(word)) == Segment(word);
  }

  /** The morae of a list in which all of them are present. */
  function Present(r: seq<Option<string>>): (ms: seq<string>)
    requires forall i :: 0 <= i < |r| ==> r[i].Some?
    ensures |ms| == |r|
    ensures forall i :: 0 <= i < |r| ==> r[i] == Some(ms[i])
  {
    seq(|r|, i requires 0 <= i < |r| => r[i].value)
  }

  /** Number of morae of a reading, which bounds its pitch classes. */
  function MoraCount(word: string): nat
  {
    |GetMorae(word)|
  }

  lemma ConcatCons(m: string, ms: seq<string>)
    ensures Concat([m] + ms) == m + Concat(ms)
  {
    assert ([m] + ms)[1..] == ms;
  }

  /** Scanning from a well-formed partial mora yields a segmentation of
      everything read so far. */
  lemma {:induction false} ScanSegments(current: string, rest: string)
    requires current != []
    requires forall j :: 0 < j < |current| ==> IsSmall(current[j])
    ensures IsSegmentation(Scan(current, rest), current + rest)
    decreases |rest|
  {
    if rest == [] {
      assert Scan(current, rest) == [current];
      assert Concat([current]) == current + Concat([]) by { ConcatCons(current, []); }
      assert current + rest == current;
    } else if IsSmall(rest[0]) {
      var next := current + [rest[0]];
      ScanSegments(next, rest[1..]);
      assert next + rest[1..] == current + rest;
    } else {
      var tail := Scan([rest[0]], rest[1..]);
      ScanSegments([rest[0]], rest[1..]);
      assert [rest[0]] + rest[1..] == rest;
      var ms := [current] + tail;
      ConcatCons(current, tail);
      assert Concat(tail) == tail[0] + Concat(tail[1..]);
      assert tail[0][0] == rest[0];
      forall i | 0 < i < |ms|
        ensures !IsSmall(ms[i][0])
      {
        assert ms[i] == tail[i - 1];
      }
      forall i, j | 0 <= i < |ms| && 0 < j < |ms[i]|
        ensures IsSmall(ms[i][j])
      {
        if i > 0 {
          assert ms[i] == tail[i - 1];
        }
      }
    }
  }

  /** The segmenter's output is a segmentation of its input. */
  lemma SegmentIsSegmentation(word: string)
    requires word != []
    ensures IsSegmentation(Segment(word), word)
  {
    ScanSegments([word[0]], word[1..]);
    assert [word[0]] + word[1..] == word;
  }

  lemma {:induction false} ScanCount(current: string, rest: string)
    ensures |Scan(current, rest)| == 1 + CountNonSmall(rest)
    decreases |rest|
  {
    if rest != [] {
      if IsSmall(rest[0]) {
        ScanCount(current + [rest[0]], rest[1..]);
      } else {
        ScanCount([rest[0]], rest[1..]);
      }
    }
  }

  /** One mora for the first character and one more for every following
      character that is not a small kana. */
  lemma SegmentCount(word: string)
    requires word != []
    ensures |Segment(word)| == 1 + CountNonSmall(word[1..])
  {
    ScanCount([word[0]], word[1..]);
  }

  /** A reading has at most as many morae as characters. */
  lemma {:induction false} CountNonSmallBound(s: string)
    ensures CountNonSmall(s) <= |s|
  {
    if s != [] {
      CountNonSmallBound(s[1..]);
    }
  }

  lemma MoraCountBound(word: string)
    ensures 1 <= MoraCount(word)
    ensures word != [] ==> MoraCount(word) <= |word|
  {
    if word != [] {
      CountNonSmallBound(word[1..]);
    }
  }

  /** The first mora of a segmentation is a prefix of the word, and the word
      goes on with the rest of the segmentation. */
  lemma SegmentationSplit(ms: seq<string>, word: string)
    requires IsSegmentation(ms, word)
    ensures |ms[0]| <= |word| && word[..|ms[0]|] == ms[0]
    ensures Concat(ms[1..]) == word[|ms[0]|..]
  {
    assert Concat(ms) == ms[0] + Concat(ms[1..]);
  }

  /** A reading has only one segmentation, so `Segment` is the segmentation
      and not merely one of several. */
  lemma {:induction false} SegmentationUnique(a: seq<string>, b: seq<string>, word: string)
    requires IsSegmentation(a, word) && IsSegmentation(b, word)
    ensures a == b
    decreases |word|
  {
    SegmentationSplit(a, word);
    SegmentationSplit(b, word);
    HeadsAgree(a, b, word);
    assert a[0] == b[0];
    if |a| == 1 || |b| == 1 {
      LoneMoraIsWord(a, b, word);
    } else {
      TailSegmentation(a, word);
      TailSegmentation(b, word);
      SegmentationUnique(a[1..], b[1..], word[|a[0]|..]);
      assert a == [a[0]] + a[1..];
      assert b == [b[0]] + b[1..];
    }
  }

  /** Two segmentations of a word agree on the length of their first mora:
      a shorter one would end where the longer one still reads a small kana,
      yet the next mora cannot start with one. */
  lemma HeadsAgree(a: seq<string>, b: seq<string>, word: string)
    requires IsSegmentation(a, word) && IsSegmentation(b, word)
    ensures |a[0]| == |b[0]|
  {
    var x, y := |a[0]|, |b[0]|;
    if x < y {
      SmallInsideHead(b, word, x);
      NextMoraStart(a, word);
    } else if y < x {
      SmallInsideHead(a, word, y);
      NextMoraStart(b, word);
    }
  }

  /** Inside the first mora every character after the first is small. */
  lemma SmallInsideHead(ms: seq<string>, word: string, k: nat)
    requires IsSegmentation(ms, word) && 0 < k < |ms[0]|
    ensures k < |word| && IsSmall(word[k])
  {
    SegmentationSplit(ms, word);
    assert word[k] == ms[0][k];
  }

  /** Where the first mora ends before the word does, a second mora starts,
      and it starts with a character that is not small. */
  lemma NextMoraStart(ms: seq<string>, word: string)
    requires IsSegmentation(ms, word) && |ms[0]| < |word|
    ensures |ms| > 1 && !IsSmall(word[|ms[0]|])
  {
    SegmentationSplit(ms, word);
    var rest := ms[1..];
    assert Concat(rest) == rest[0] + Concat(rest[1..]);
    assert word[|ms[0]|] == ms[1][0];
  }

  /** With equal first morae, one segmentation has a single mora exactly when
      the other does. */
  lemma LoneMoraIsWord(a: seq<string>, b: seq<string>, word: string)
    requires IsSegmentation(a, word) && IsSegmentation(b, word)
    requires a[0] == b[0]
    requires |a| == 1 || |b| == 1
    ensures a == b
  {
    SegmentationSplit(a, word);
    SegmentationSplit(b, word);
  }

  lemma TailSegmentation(ms: seq<string>, word: string)
    requires IsSegmentation(ms, word) && |ms| > 1
    ensures IsSegmentation(ms[1..], word[|ms[0]|..])
  {
    SegmentationSplit(ms, word);
    var t := ms[1..];
    forall i | 0 < i < |t|
      ensures !IsSmall(t[i][0])
    {
      assert t[i] == ms[i + 1];
    }
    forall i, j | 0 <= i < |t| && 0 < j < |t[i]|
      ensures IsSmall(t[i][j])
    {
      assert t[i] == ms[i + 1];
    }
  }

  /** Every segmentation of a non-empty reading is the one the segmenter
      produces. */
  lemma SegmentationIsSegment(ms: seq<string>, word: string)
    requires word != [] && IsSegmentation(ms, word)
    ensures ms == Segment(word)
  {
    SegmentIsSegmentation(word);
    SegmentationUnique(ms, Segment(word), word);
  }

  /** Every character on its own. */
  function Singles(s: string): (ms: seq<string>)
    ensures |ms| == |s|
    ensures forall i :: 0 <= i < |s| ==> ms[i] == [s[i]]
  {
    seq(|s|, i requires 0 <= i < |s| => [s[i]])
  }

  lemma {:induction false} ConcatSingles(s: string)
    ensures Concat(Singles(s)) == s
  {
    if s != [] {
      assert Singles(s)[1..] == Singles(s[1..]);
      ConcatSingles(s[1..]);
      assert s == [s[0]] + s[1..];
    }
  }

  /** Without small kana every character is a mora of its own, so a mora
      index and a character index name the same kana. */
  lemma SingleCharMorae(word: string)
    requires word != []
    requires forall i :: 0 <= i < |word| ==> !IsSmall(word[i])
    ensures Segment(word) == Singles(word)
  {
    ConcatSingles(word);
    SegmentationIsSegment(Singles(word), word);
  }

  /** Kana reading "しゃしん": the small ゃ joins し, giving three morae. */
  lemma ShashinExample()
    ensures Segment("しゃしん") == ["しゃ", "し", "ん"]
  {
    var w := "しゃしん";
    assert w[1..] == "ゃしん";
    assert "し" + ['ゃ'] == "しゃ";
    assert "ゃしん"[1..] == "しん";
    assert "しん"[1..] == "ん";
  }
}
