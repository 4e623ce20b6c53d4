/**
  The longest-match search: for one position, the longest acceptable run that also occurs further on.
 */
module Search {
  import opened Language
  import opened Corpora
  import opened HashIndex

  // ---------- What is searched for ----------

  /** The tokens `k` places behind `i0` and `i1` are the same. */
  ghost predicate Alike(c: Corpus, i0: nat, i1: nat, k: nat) {
    i0 + k < |c.tokens| && i1 + k < |c.tokens| && c.tokens[i0 + k] == c.tokens[i1 + k]
  }

  /** The `s` tokens from `i0` and `i1` are the same, stay below their limits, and do not overlap. */
  ghost predicate Stretch(c: Corpus, i0: nat, i1: nat, limit0: nat, limit1: nat, s: nat) {
    && i0 + s <= limit0
    && i1 + s <= limit1
    && i0 + s <= i1
    && forall k :: 0 <= k < s ==> Alike(c, i0, i1, k)
  }

  ghost function LongestFrom(c: Corpus, i0: nat, i1: nat, limit0: nat, limit1: nat, s: nat): (r: nat)
    requires Stretch(c, i0, i1, limit0, limit1, s)
    ensures r >= s && Stretch(c, i0, i1, limit0, limit1, r) && !Stretch(c, i0, i1, limit0, limit1, r + 1)
    decreases limit0 - s
  {
    if Stretch(c, i0, i1, limit0, limit1, s + 1) then LongestFrom(c, i0, i1, limit0, limit1, s + 1) else s
  }

  /** The length of the longest equal stretch from `i0` in text `n` and the later `i1` in its own text. */
  ghost function Longest(c: Corpus, n: nat, i0: nat, i1: nat): nat
    requires c.Valid() && c.In(n, i0) && i0 < i1 < |c.tokens|
  {
    LongestFrom(c, i0, i1, c.texts[n].limit, c.texts[c.Owner(i1)].limit, 0)
  }

  /** The size of the run at `i0` and `i1` that the language accepts; 0 if it is below the minimum. */
  ghost function Score(c: Corpus, n: nat, i0: nat, i1: nat): (s: nat)
    requires c.Valid() && c.In(n, i0) && i0 < i1 < |c.tokens|
    ensures s <= Longest(c, n, i0, i1)
  {
    var accepted :=
      if MayStartRun(c.lang, c.tokens[i0]) then BestSize(c.lang, c.tokens[i0..], Longest(c, n, i0, i1)) else 0;
    if accepted >= c.minRun then accepted else 0
  }

  /** Position `i1` is one that the search from `i0` must consider. */
  ghost predicate Candidate(c: Corpus, i0: nat, lo: nat, hi: nat, i1: nat) {
    i0 < i1 && lo <= i1 < hi && i1 < |c.tokens|
  }

  /**
    Among all positions in [lo, hi) behind `i0`, `at` is the first one with the highest score; 0 means
    there is none.
   */
  ghost predicate IsBest(c: Corpus, n: nat, i0: nat, lo: nat, hi: nat, size: nat, at: nat)
    requires c.Valid() && c.In(n, i0)
  {
    && (forall i1: nat :: Candidate(c, i0, lo, hi, i1) ==> Score(c, n, i0, i1) <= size)
    && (size > 0 ==>
          && Candidate(c, i0, lo, hi, at)
          && Score(c, n, i0, at) == size
          && forall i1: nat :: Candidate(c, i0, lo, at, i1) ==> Score(c, n, i0, i1) < size)
  }

  /**
    A stretch is extended as far as it goes before it is offered to the language: of all stretches
    from these two positions that one gets the most accepted.
   */
  lemma LongestGetsMost(c: Corpus, n: nat, i0: nat, i1: nat, s: nat)
    requires c.Valid() && c.In(n, i0) && i0 < i1 < |c.tokens|
    requires Stretch(c, i0, i1, c.texts[n].limit, c.texts[c.Owner(i1)].limit, s)
    ensures s <= Longest(c, n, i0, i1) <= |c.tokens[i0..]|
    ensures BestSize(c.lang, c.tokens[i0..], s) <= BestSize(c.lang, c.tokens[i0..], Longest(c, n, i0, i1))
  {
    var r := Longest(c, n, i0, i1);
    assert r < s ==> Stretch(c, i0, i1, c.texts[n].limit, c.texts[c.Owner(i1)].limit, r + 1);
    BestSizeMonotone(c.lang, c.tokens[i0..], s, r);
  }

  /** It does not matter to which of its two places a run is offered. */
  lemma SameAtBothEnds(c: Corpus, i0: nat, i1: nat, limit0: nat, limit1: nat, s: nat)
    requires Stretch(c, i0, i1, limit0, limit1, s) && limit0 <= |c.tokens| && limit1 <= |c.tokens|
    ensures BestSize(c.lang, c.tokens[i0..], s) == BestSize(c.lang, c.tokens[i1..], s)
  {
    var a, b := c.tokens[i0..], c.tokens[i1..];
    forall k | 0 <= k < s ensures a[..s][k] == b[..s][k] {
      assert Alike(c, i0, i1, k);
    }
    assert a[..s] == b[..s];
    BestSizeLocal(c.lang, a, b, s);
  }

  /** There is only one answer. */
  lemma BestIsUnique(c: Corpus, n: nat, i0: nat, lo: nat, hi: nat, s: nat, a: nat, t: nat, b: nat)
    requires c.Valid() && c.In(n, i0)
    requires IsBest(c, n, i0, lo, hi, s, a) && IsBest(c, n, i0, lo, hi, t, b)
    ensures s == t && (s > 0 ==> a == b)
  {
    if s > 0 && t > 0 {
      if a < b {
        assert Candidate(c, i0, lo, b, a);
      } else if b < a {
        assert Candidate(c, i0, lo, a, b);
      }
    }
  }

  /** A position whose stretch is no longer than the best so far changes nothing. */
  lemma NotBetter(c: Corpus, n: nat, i0: nat, lo: nat, i1: nat, size: nat, at: nat)
    requires c.Valid() && c.In(n, i0) && i1 < |c.tokens|
    requires IsBest(c, n, i0, lo, i1, size, at)
    requires lo <= i1 && i0 < i1 ==> Score(c, n, i0, i1) <= size
    ensures IsBest(c, n, i0, lo, i1 + 1, size, at)
  {
    hide Score;
    forall r: nat | Candidate(c, i0, lo, i1 + 1, r) ensures Score(c, n, i0, r) <= size {
      if r < i1 {
        assert Candidate(c, i0, lo, i1, r);
      }
    }
  }

  lemma Better(c: Corpus, n: nat, i0: nat, lo: nat, i1: nat, size: nat, at: nat)
    requires c.Valid() && c.In(n, i0) && i0 < i1 < |c.tokens| && lo <= i1
    requires IsBest(c, n, i0, lo, i1, size, at)
    requires Score(c, n, i0, i1) > size
    ensures IsBest(c, n, i0, lo, i1 + 1, Score(c, n, i0, i1), i1)
  {
    hide Score;
    forall r: nat | Candidate(c, i0, lo, i1 + 1, r) ensures Score(c, n, i0, r) <= Score(c, n, i0, i1) {
      if r < i1 {
        assert Candidate(c, i0, lo, i1, r);
      }
    }
  }

  /** The exhaustive search: tries every position below `hi`. */
  ghost function ExhaustiveBest(c: Corpus, n: nat, i0: nat, lo: nat, hi: nat): (r: (nat, nat))
    requires c.Valid() && c.In(n, i0) && hi <= |c.tokens|
    ensures r.0 > 0 ==> Candidate(c, i0, lo, hi, r.1)
  {
    if hi == 0 then
      (0, 0)
    else
      var r := ExhaustiveBest(c, n, i0, lo, hi - 1);
      if Candidate(c, i0, lo, hi, hi - 1) && Score(c, n, i0, hi - 1) > r.0 then (Score(c, n, i0, hi - 1), hi - 1) else r
  }

  lemma {:induction false} ExhaustiveBestIsBest(c: Corpus, n: nat, i0: nat, lo: nat, hi: nat)
    requires c.Valid() && c.In(n, i0) && hi <= |c.tokens|
    ensures var r := ExhaustiveBest(c, n, i0, lo, hi); IsBest(c, n, i0, lo, hi, r.0, r.1)
  {
    hide Score, IsBest;
    if hi > 0 {
      ExhaustiveBestIsBest(c, n, i0, lo, hi - 1);
      var r := ExhaustiveBest(c, n, i0, lo, hi - 1);
      if Candidate(c, i0, lo, hi, hi - 1) && Score(c, n, i0, hi - 1) > r.0 {
        Better(c, n, i0, lo, hi - 1, r.0, r.1);
      } else {
        NotBetter(c, n, i0, lo, hi - 1, r.0, r.1);
      }
    } else {
      NoneBelowZero(c, n, i0, lo);
    }
  }

  lemma NoneBelowZero(c: Corpus, n: nat, i0: nat, lo: nat)
    requires c.Valid() && c.In(n, i0)
    ensures IsBest(c, n, i0, lo, 0, 0, 0)
  {
  }
  // ---------- What that comes to ----------

  /** The `s` tokens of text `n` from `i0` occur again in text `m`, from the later position `i1`, without overlap. */
  ghost predicate Repeats(c: Corpus, n: nat, i0: nat, m: nat, i1: nat, s: nat)
    requires c.Valid()
  {
    && c.In(n, i0) && i0 + s <= c.texts[n].limit
    && c.In(m, i1) && i1 + s <= c.texts[m].limit
    && i0 < i1 && i0 + s <= i1
    && c.tokens[i0..i0 + s] == c.tokens[i1..i1 + s]
  }

  /** There is a run of `size` tokens from `i0` to `i1`: the language accepts it, and it is large enough. */
  ghost predicate Acceptable(c: Corpus, n: nat, i0: nat, m: nat, i1: nat, size: nat)
    requires c.Valid()
  {
    && size >= c.minRun
    && c.In(n, i0) && MayStartRun(c.lang, c.tokens[i0])
    && exists s: nat :: Repeats(c, n, i0, m, i1, s) && size == BestSize(c.lang, c.tokens[i0..], s)
  }

  /**
    No acceptable run from `i0` to a position in [lo, hi) is larger than `size`, and none that is as large
    comes before position `at` in text `m`, where there is one unless `size` is 0.
   */
  ghost predicate IsLongest(c: Corpus, n: nat, i0: nat, lo: nat, hi: nat, size: nat, m: nat, at: nat)
    requires c.Valid()
  {
    && (size > 0 ==> lo <= at < hi && Acceptable(c, n, i0, m, at, size))
    && forall j: nat, i1: nat, t: nat :: lo <= i1 < hi && Acceptable(c, n, i0, j, i1, t) ==>
         t <= size && (i1 < at ==> t < size)
  }

  lemma RepeatsIsStretch(c: Corpus, n: nat, i0: nat, m: nat, i1: nat, s: nat)
    requires c.Valid() && c.In(n, i0) && c.In(m, i1) && i0 < i1
    ensures m == c.Owner(i1)
    ensures Repeats(c, n, i0, m, i1, s) <==> Stretch(c, i0, i1, c.texts[n].limit, c.texts[m].limit, s)
  {
    OwnerUnique(c, m, c.Owner(i1), i1);
    if i0 + s <= c.texts[n].limit && i1 + s <= c.texts[m].limit {
      var a, b := c.tokens[i0..i0 + s], c.tokens[i1..i1 + s];
      assert forall k :: 0 <= k < s ==> (a[k] == b[k] <==> Alike(c, i0, i1, k));
    }
  }

  /** The score is the size of the largest acceptable run between two positions, or 0. */
  lemma ScoreIsLargest(c: Corpus, n: nat, i0: nat, m: nat, i1: nat, t: nat)
    requires c.Valid() && c.In(n, i0) && c.In(m, i1) && i0 < i1
    ensures Acceptable(c, n, i0, m, i1, t) ==> t <= Score(c, n, i0, i1)
    ensures Score(c, n, i0, i1) > 0 ==> Acceptable(c, n, i0, m, i1, Score(c, n, i0, i1))
  {
    hide Stretch, BestSize;
    var r := Longest(c, n, i0, i1);
    RepeatsIsStretch(c, n, i0, m, i1, r);
    if Acceptable(c, n, i0, m, i1, t) {
      var s: nat :| Repeats(c, n, i0, m, i1, s) && t == BestSize(c.lang, c.tokens[i0..], s);
      RepeatsIsStretch(c, n, i0, m, i1, s);
      LongestGetsMost(c, n, i0, i1, s);
    }
  }

  lemma BestIsLongest(c: Corpus, n: nat, i0: nat, lo: nat, hi: nat, size: nat, m: nat, at: nat)
    requires c.Valid() && c.In(n, i0) && hi <= |c.tokens|
    requires IsBest(c, n, i0, lo, hi, size, at) && (size > 0 ==> m == c.Owner(at))
    ensures IsLongest(c, n, i0, lo, hi, size, m, at)
  {
    hide Score, Acceptable, Partition;
    if size > 0 {
      ScoreIsLargest(c, n, i0, m, at, size);
    }
    forall j: nat, i1: nat, t: nat | lo <= i1 < hi && Acceptable(c, n, i0, j, i1, t)
      ensures t <= size && (i1 < at ==> t < size)
    {
      AcceptablePlaces(c, n, i0, j, i1, t);
      ScoreIsLargest(c, n, i0, j, i1, t);
      assert Candidate(c, i0, lo, hi, i1);
      assert i1 < at ==> size > 0 && Candidate(c, i0, lo, at, i1);
    }
  }

  lemma AcceptablePlaces(c: Corpus, n: nat, i0: nat, m: nat, i1: nat, t: nat)
    requires c.Valid() && Acceptable(c, n, i0, m, i1, t)
    ensures c.In(n, i0) && c.In(m, i1) && i0 < i1 < |c.tokens| && 0 < t
  {
  }

  // ---------- Why the index loses nothing ----------

  lemma LongestIs(c: Corpus, n: nat, i0: nat, i1: nat, s: nat)
    requires c.Valid() && c.In(n, i0) && i0 < i1 < |c.tokens|
    requires Stretch(c, i0, i1, c.texts[n].limit, c.texts[c.Owner(i1)].limit, s)
    requires !Stretch(c, i0, i1, c.texts[n].limit, c.texts[c.Owner(i1)].limit, s + 1)
    ensures Longest(c, n, i0, i1) == s
  {
  }

  /** Only positions with the code of `i0` can score. */
  lemma ScoreNeedsCode(c: Corpus, tableSize: nat, n: nat, i0: nat, i1: nat)
    requires c.Valid() && c.In(n, i0) && i0 < i1 < |c.tokens| && tableSize >= 1
    requires Score(c, n, i0, i1) > 0
    ensures CodeAt(c, tableSize, i0).Some? && CodeAt(c, tableSize, i0) == CodeAt(c, tableSize, i1)
  {
    var m, raw := c.Owner(i1), Longest(c, n, i0, i1);
    assert Alike(c, i0, i1, 0);
    assert Starts(c, n, i0) && Starts(c, m, i1);
    EligibleFits(c, i0);
    EligibleFits(c, i1);
    var w0, w1 := c.tokens[i0..i0 + c.minRun], c.tokens[i1..i1 + c.minRun];
    forall k | 0 <= k < c.minRun ensures w0[k] == w1[k] {
      assert Alike(c, i0, i1, k);
    }
    assert SameWindow(c, i0, i1);
    SameWindowSameCode(c, tableSize, i0, i1);
  }

  /** The chain has come to `i1`, or to its end if `i1` is 0. */
  ghost predicate OnChain(c: Corpus, tableSize: nat, i0: nat, i1: nat)
    requires c.Valid() && tableSize >= 1 && i0 < |c.tokens|
  {
    i1 == 0 || (i0 <= i1 < |c.tokens| && CodeAt(c, tableSize, i1) == CodeAt(c, tableSize, i0))
  }

  /** What has been considered when the chain has come to `i1`. */
  ghost function Reached(c: Corpus, hi: nat, i1: nat): nat {
    if i1 == 0 || hi < i1 then hi else i1
  }

  /** Following a link keeps the best of what has been considered: nothing between two links scores. */
  lemma FollowLink(c: Corpus, tableSize: nat, n: nat, i0: nat, lo: nat, hi: nat, size: nat, at: nat, i1: nat, next: nat)
    requires c.Valid() && tableSize >= 1 && c.In(n, i0) && i1 != 0 && OnChain(c, tableSize, i0, i1)
    requires i1 < hi <= |c.tokens|
    requires IsNext(c, tableSize, i1, next)
    requires IsBest(c, n, i0, lo, i1 + 1, size, at)
    ensures OnChain(c, tableSize, i0, next)
    ensures IsBest(c, n, i0, lo, Reached(c, hi, next), size, at)
  {
    hide CodeAt, Score;
    forall r: nat | Candidate(c, i0, lo, Reached(c, hi, next), r) ensures Score(c, n, i0, r) <= size {
      if r <= i1 {
        assert Candidate(c, i0, lo, i1 + 1, r);
      } else if Score(c, n, i0, r) > 0 {
        ScoreNeedsCode(c, tableSize, n, i0, r);
        assert false;
      }
    }
  }

  // ---------- The search ----------

  /** Compares backwards from the end: is there a stretch of `minSize` tokens? */
  method ReachesMinimum(c: Corpus, i0: nat, i1: nat, limit0: nat, limit1: nat, minSize: nat) returns (ok: bool)
    requires minSize >= 1 && limit0 <= |c.tokens| && limit1 <= |c.tokens|
    ensures ok <==> Stretch(c, i0, i1, limit0, limit1, minSize)
  {
    var j0, j1 := i0 + minSize - 1, i1 + minSize - 1;
    if j0 < limit0 && j1 < limit1 && j0 + minSize <= j1 {
      var cnt := minSize;
      while cnt != 0 && c.tokens[j0] == c.tokens[j1]
        invariant 0 <= cnt <= minSize
        invariant cnt != 0 ==> j0 == i0 + cnt - 1 && j1 == i1 + cnt - 1
        invariant forall k :: cnt <= k < minSize ==> Alike(c, i0, i1, k)
      {
        assert Alike(c, i0, i1, cnt - 1);
        cnt := cnt - 1;
        if cnt != 0 {
          j0, j1 := j0 - 1, j1 - 1;
        }
      }
      assert cnt != 0 ==> !Alike(c, i0, i1, cnt - 1);
      ok := cnt == 0;
    } else {
      ok := false;
    }
  }

  /** Extends a stretch of `minSize` tokens forwards as far as it goes. */
  method Extend(c: Corpus, i0: nat, i1: nat, limit0: nat, limit1: nat, minSize: nat) returns (size: nat)
    requires limit0 <= |c.tokens| && limit1 <= |c.tokens|
    requires Stretch(c, i0, i1, limit0, limit1, minSize)
    ensures Stretch(c, i0, i1, limit0, limit1, size) && !Stretch(c, i0, i1, limit0, limit1, size + 1)
  {
    size := minSize;
    var j0, j1 := i0 + minSize, i1 + minSize;
    while j0 < limit0 && j1 < limit1 && j0 + size < j1 && c.tokens[j0] == c.tokens[j1]
      invariant j0 == i0 + size && j1 == i1 + size
      invariant Stretch(c, i0, i1, limit0, limit1, size)
    {
      assert Alike(c, i0, i1, size);
      j0, j1, size := j0 + 1, j1 + 1, size + 1;
    }
    assert Stretch(c, i0, i1, limit0, limit1, size + 1) ==> Alike(c, i0, i1, size);
  }

  /** Bumps `txt` to the text that `i1` belongs to. */
  method FindText(c: Corpus, txt: nat, i1: nat) returns (m: nat)
    requires c.Valid() && txt < |c.texts| && c.texts[txt].start <= i1 && 1 <= i1 < |c.tokens|
    ensures m == c.Owner(i1) && m >= txt
  {
    m := txt;
    while i1 >= c.texts[m].limit
      invariant txt <= m < |c.texts| && c.texts[m].start <= i1
      decreases |c.texts| - m
    {
      m := m + 1;
    }
    OwnerUnique(c, m, c.Owner(i1), i1);
  }

  /** The run at `i0` and `i1` as far as it beats `sizeBest`; 0 if it does not. */
  method Examine(c: Corpus, n: nat, i0: nat, i1: nat, txt1: nat, sizeBest: nat) returns (newSize: nat)
    requires c.Valid() && c.In(n, i0) && i0 <= i1 < |c.tokens| && txt1 == c.Owner(i1)
    ensures newSize == if i0 < i1 && Score(c, n, i0, i1) > sizeBest then Score(c, n, i0, i1) else 0
  {
    var limit0, limit1 := c.texts[n].limit, c.texts[txt1].limit;
    var minSize := if sizeBest != 0 then sizeBest + 1 else c.minRun;
    var ok := ReachesMinimum(c, i0, i1, limit0, limit1, minSize);
    if !ok {
      return 0;
    }
    newSize := Extend(c, i0, i1, limit0, limit1, minSize);
    LongestIs(c, n, i0, i1, newSize);
    if MayStartRun(c.lang, c.tokens[i0]) {
      newSize := BestRunSize(c.lang, c.tokens[i0..], newSize);
    } else {
      newSize := 0;
    }
    if !(newSize >= c.minRun && newSize > sizeBest) {
      newSize := 0;
    }
  }

  /**
    Finds the longest acceptable run that starts precisely at `i0` and occurs again behind it,
    at a position from `iFirst` and below `iLimit`.
   */
  method Lcs(c: Corpus, index: ForwardIndex, n: nat, i0: nat, iFirst: nat, iLimit: nat)
    returns (sizeBest: nat, txtBest: nat, iBest: nat)
    requires c.Valid() && index.Valid() && index.corpus == c
    requires c.In(n, i0) && iLimit <= |c.tokens|
    ensures IsLongest(c, n, i0, iFirst, iLimit, sizeBest, txtBest, iBest)
    ensures var b := ExhaustiveBest(c, n, i0, iFirst, iLimit); sizeBest == b.0 && (sizeBest > 0 ==> iBest == b.1)
    ensures sizeBest > 0 ==> txtBest == c.Owner(iBest)
  {
    sizeBest, txtBest, iBest := 0, n, i0;
    var txt1: nat, i1: nat := n, i0;
    while i1 != 0 && i1 < iLimit
      invariant OnChain(c, index.tableSize, i0, i1)
      invariant txt1 < |c.texts| && (i1 != 0 ==> c.texts[txt1].start <= i1)
      invariant IsBest(c, n, i0, iFirst, Reached(c, iLimit, i1), sizeBest, iBest)
      invariant sizeBest > 0 ==> txtBest == c.Owner(iBest)
      decreases if i1 == 0 then 0 else |c.tokens| - i1
    {
      if i1 >= iFirst {
        txt1 := FindText(c, txt1, i1);
        var newSize := Examine(c, n, i0, i1, txt1, sizeBest);
        if newSize != 0 {
          Better(c, n, i0, iFirst, i1, sizeBest, iBest);
          sizeBest, txtBest, iBest := newSize, txt1, i1;
        } else {
          NotBetter(c, n, i0, iFirst, i1, sizeBest, iBest);
        }
      }
      var next := index.Get(i1);
      FollowLink(c, index.tableSize, n, i0, iFirst, iLimit, sizeBest, iBest, i1, next);
      i1 := next;
    }
    ghost var b := ExhaustiveBest(c, n, i0, iFirst, iLimit);
    ExhaustiveBestIsBest(c, n, i0, iFirst, iLimit);
    BestIsUnique(c, n, i0, iFirst, iLimit, sizeBest, iBest, b.0, b.1);
    BestIsLongest(c, n, i0, iFirst, iLimit, sizeBest, txtBest, iBest);
  }
}
