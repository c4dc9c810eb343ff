/** The Fisher–Yates shuffler. The page walks the copy from the last index
    down to 0 and swaps each position `i` with a random index in `0..i`;
    here the random indices are an explicit argument `r`, with `r[i]` the
    index drawn when the walk is at position `i`. */
module Shuffle {

  /** Random draws the shuffler can make: at position `i` an index in `0..i`. */
  predicate ValidDraws(r: seq<nat>, n: nat)
  {
    |r| == n && forall i :: 0 <= i < |r| ==> r[i] <= i
  }

  /** Exchange the elements at `i` and `j`. */
  function Swap<T>(s: seq<T>, i: nat, j: nat): (t: seq<T>)
    requires i < |s| && j < |s|
    ensures |t| == |s|
    ensures t[i] == s[j] && t[j] == s[i]
    ensures forall k :: 0 <= k < |s| && k != i && k != j ==> t[k] == s[k]
    ensures multiset(t) == multiset(s)
  {
    s[i := s[j]][j := s[i]]
  }

  /** The shuffle loop with positions `0..i-1` still to visit. */
  function SwapDown<T>(s: seq<T>, r: seq<nat>, i: nat): (t: seq<T>)
    requires i <= |s| && ValidDraws(r, |s|)
    ensures |t| == |s|
    ensures multiset(t) == multiset(s)
    ensures t[i..] == s[i..]
    decreases i
  {
    if i == 0 then s
    else SwapDown(Swap(s, r[i - 1], i - 1), r, i - 1)
  }

  /** The shuffled copy; the input itself is a value and stays as it was. */
  function FisherYates<T>(arr: seq<T>, r: seq<nat>): (shuffled: seq<T>)
    requires ValidDraws(r, |arr|)
    ensures |shuffled| == |arr|
    ensures multiset(shuffled) == multiset(arr)
  {
    SwapDown(arr, r, |arr|)
  }

  /** The draws that leave every element where it is. */
  function StayDraws(n: nat): (r: seq<nat>)
    ensures ValidDraws(r, n)
  {
    seq(n, i => i)
  }

  /** Drawing the current position at every step leaves the array as it
      was. */
  lemma {:induction false} StayKeeps<T>(arr: seq<T>)
    ensures FisherYates(arr, StayDraws(|arr|)) == arr
  {
    StayKeepsFrom(arr, |arr|);
  }

  lemma {:induction false} StayKeepsFrom<T>(s: seq<T>, i: nat)
    requires i <= |s|
    ensures SwapDown(s, StayDraws(|s|), i) == s
    decreases i
  {
    if i > 0 {
      var r := StayDraws(|s|);
      assert r[i - 1] == i - 1;
      assert Swap(s, i - 1, i - 1) == s;
      StayKeepsFrom(s, i - 1);
    }
  }

  /** The loop only reads the draws for positions it has still to visit. */
  lemma {:induction false} SwapDownReadsPrefix<T>(s: seq<T>, r1: seq<nat>, r2: seq<nat>, i: nat)
    requires i <= |s| && ValidDraws(r1, |s|) && ValidDraws(r2, |s|)
    requires r1[..i] == r2[..i]
    ensures SwapDown(s, r1, i) == SwapDown(s, r2, i)
    decreases i
  {
    if i > 0 {
      assert r1[i - 1] == r1[..i][i - 1] == r2[..i][i - 1] == r2[i - 1];
      assert r1[..i - 1] == r1[..i][..i - 1];
      assert r2[..i - 1] == r2[..i][..i - 1];
      SwapDownReadsPrefix(Swap(s, r1[i - 1], i - 1), r1, r2, i - 1);
    }
  }

  /** Swapping two positions below `i` keeps the multiset of the prefix. */
  lemma SwapKeepsPrefix<T>(s: seq<T>, j: nat, i: nat)
    requires j < i <= |s|
    ensures multiset(Swap(s, j, i - 1)[..i]) == multiset(s[..i])
  {
    assert Swap(s, j, i - 1)[..i] == Swap(s[..i], j, i - 1);
  }

  lemma PrefixSnoc<T>(s: seq<T>, i: nat)
    requires 0 < i <= |s|
    ensures multiset(s[..i]) == multiset(s[..i - 1]) + multiset{s[i - 1]}
  {
    assert s[..i] == s[..i - 1] + [s[i - 1]];
  }

  /** Bringing the wanted element to position `i - 1` leaves a shorter
      prefix still to arrange. */
  lemma PlaceLast<T>(s: seq<T>, t: seq<T>, j: nat, i: nat)
    requires |s| == |t| && j < i <= |s|
    requires multiset(s[..i]) == multiset(t[..i])
    requires s[i..] == t[i..]
    requires s[j] == t[i - 1]
    ensures multiset(Swap(s, j, i - 1)[..i - 1]) == multiset(t[..i - 1])
    ensures Swap(s, j, i - 1)[i - 1..] == t[i - 1..]
  {
    PlacedPrefix(s, t, j, i);
    var s' := Swap(s, j, i - 1);
    assert s'[i - 1..] == [s'[i - 1]] + s'[i..];
    assert t[i - 1..] == [t[i - 1]] + t[i..];
  }

  lemma PlacedPrefix<T>(s: seq<T>, t: seq<T>, j: nat, i: nat)
    requires |s| == |t| && j < i <= |s|
    requires multiset(s[..i]) == multiset(t[..i])
    requires s[j] == t[i - 1]
    ensures multiset(Swap(s, j, i - 1)[..i - 1]) == multiset(t[..i - 1])
  {
    var s' := Swap(s, j, i - 1);
    SwapKeepsPrefix(s, j, i);
    PrefixSnoc(s', i);
    PrefixSnoc(t, i);
    var x := multiset{t[i - 1]};
    assert multiset(s'[..i - 1]) == (multiset(s'[..i - 1]) + x) - x;
    assert multiset(t[..i - 1]) == (multiset(t[..i - 1]) + x) - x;
  }

  /** An element of the target prefix is found in the same prefix of the
      source. */
  lemma PickSource<T>(s: seq<T>, t: seq<T>, i: nat) returns (j: nat)
    requires |s| == |t| && 0 < i <= |s|
    requires multiset(s[..i]) == multiset(t[..i])
    ensures j < i && s[j] == t[i - 1]
  {
    assert t[i - 1] == t[..i][i - 1];
    assert t[i - 1] in multiset(s[..i]);
    var k :| 0 <= k < i && s[..i][k] == t[i - 1];
    j := k;
  }

  /** Prepending the draw `j` for position `i - 1` to draws that finish the
      job from there. */
  lemma ExtendDraws<T>(s: seq<T>, r': seq<nat>, j: nat, i: nat) returns (r: seq<nat>)
    requires j < i <= |s| && ValidDraws(r', |s|)
    ensures ValidDraws(r, |s|)
    ensures SwapDown(s, r, i) == SwapDown(Swap(s, j, i - 1), r', i - 1)
  {
    r := r'[i - 1 := j];
    assert r[..i - 1] == r'[..i - 1];
    SwapDownReadsPrefix(Swap(s, j, i - 1), r, r', i - 1);
  }

  /** Draws for positions below `i` that turn `s` into the rearrangement
      `t`, which agrees with `s` from `i` on. */
  lemma {:induction false} DrawsReaching<T>(s: seq<T>, t: seq<T>, i: nat) returns (r: seq<nat>)
    requires |s| == |t| && i <= |s|
    requires multiset(s[..i]) == multiset(t[..i])
    requires s[i..] == t[i..]
    ensures ValidDraws(r, |s|) && SwapDown(s, r, i) == t
    decreases i
  {
    if i == 0 {
      assert s == s[0..] == t[0..] == t;
      r := StayDraws(|s|);
    } else {
      var j := PickSource(s, t, i);
      PlaceLast(s, t, j, i);
      var r' := DrawsReaching(Swap(s, j, i - 1), t, i - 1);
      r := ExtendDraws(s, r', j, i);
    }
  }

  /** Every permutation of the input is a possible outcome of the shuffle:
      the shuffle misses no arrangement. */
  lemma FisherYatesReachesAll<T>(arr: seq<T>, t: seq<T>)
    requires multiset(t) == multiset(arr)
    ensures exists r :: ValidDraws(r, |arr|) && FisherYates(arr, r) == t
  {
    assert |t| == |multiset(t)| == |multiset(arr)| == |arr|;
    assert arr[..|arr|] == arr;
    assert t[..|arr|] == t;
    var r := DrawsReaching(arr, t, |arr|);
    assert ValidDraws(r, |arr|) && FisherYates(arr, r) == t;
  }

  /** The element that ends in the last position is the one drawn for it:
      later steps only touch positions before it. */
  lemma LastIsFirstDraw<T>(arr: seq<T>, r: seq<nat>)
    requires ValidDraws(r, |arr|) && |arr| > 0
    ensures FisherYates(arr, r)[|arr| - 1] == arr[r[|arr| - 1]]
  {
    var n := |arr|;
    var t := SwapDown(Swap(arr, r[n - 1], n - 1), r, n - 1);
    assert t[n - 1..] == Swap(arr, r[n - 1], n - 1)[n - 1..];
    assert t[n - 1] == t[n - 1..][0];
  }
}
