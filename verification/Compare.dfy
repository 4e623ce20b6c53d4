/**
  The comparison of all new texts to all texts they must be compared to, and the runs it reports.
 */
module Comparison {
  import opened Corpora
  import opened HashIndex
  import opened Search

  /** The options -e, -s and -S. */
  datatype Options = Options(eachSeparately: bool, notToSelf: bool, oldOnly: bool)

  /** `size` tokens from `pos0` in text `text0` occur again from `pos1` in text `text1`. */
  datatype Run = Run(text0: nat, pos0: nat, text1: nat, pos1: nat, size: nat)

  // ---------- What must be reported ----------

  /** The runs of text `n` from position `i0` against [lo, hi): the best one where there is one, and on behind it. */
  ghost function GreedyRuns(c: Corpus, n: nat, lo: nat, hi: nat, i0: nat): seq<Run>
    requires c.Valid() && n < |c.texts| && c.texts[n].start <= i0 && hi <= |c.tokens|
    decreases c.texts[n].limit - i0
  {
    if i0 + c.minRun > c.texts[n].limit then []
    else
      var (size, at) := ExhaustiveBest(c, n, i0, lo, hi);
      if size > 0 then [Run(n, i0, c.Owner(at), at, size)] + GreedyRuns(c, n, lo, hi, i0 + size)
      else GreedyRuns(c, n, lo, hi, i0 + 1)
  }

  /** The runs of text `n` against the texts from `first` and below `limit`. */
  ghost function TextRuns(c: Corpus, n: nat, first: nat, limit: nat): seq<Run>
    requires c.Valid() && n < |c.texts| && first < limit <= |c.texts|
  {
    GreedyRuns(c, n, c.texts[first].start, c.texts[limit - 1].limit, c.texts[n].start)
  }

  /** The first text that text `n` is compared to. */
  function FirstText(c: Corpus, o: Options, n: nat): nat {
    if o.oldOnly then c.newTexts + 1 else if o.notToSelf then n + 1 else n
  }

  ghost function SeparateRuns(c: Corpus, n: nat, first: nat, limit: nat): seq<Run>
    requires c.Valid() && n < |c.texts| && limit <= |c.texts|
  {
    if limit <= first then [] else SeparateRuns(c, n, first, limit - 1) + TextRuns(c, n, limit - 1, limit)
  }

  ghost function RunsOf(c: Corpus, o: Options, n: nat): seq<Run>
    requires c.Valid() && n < |c.texts|
  {
    var first := FirstText(c, o, n);
    if o.eachSeparately then SeparateRuns(c, n, first, |c.texts|)
    else if first < |c.texts| then TextRuns(c, n, first, |c.texts|)
    else []
  }

  /** The runs of the first `n` texts. */
  ghost function AllRuns(c: Corpus, o: Options, n: nat): seq<Run>
    requires c.Valid() && n <= |c.texts|
  {
    if n == 0 then [] else AllRuns(c, o, n - 1) + RunsOf(c, o, n - 1)
  }

  /** How the greedy runs go on at a position where a run fits. */
  lemma GreedyStep(c: Corpus, n: nat, lo: nat, hi: nat, i0: nat)
    requires c.Valid() && c.In(n, i0) && i0 + c.minRun <= c.texts[n].limit && hi <= |c.tokens|
    ensures var (size, at) := ExhaustiveBest(c, n, i0, lo, hi);
      && i0 + size <= c.texts[n].limit
      && GreedyRuns(c, n, lo, hi, i0) ==
         if size > 0 then [Run(n, i0, c.Owner(at), at, size)] + GreedyRuns(c, n, lo, hi, i0 + size)
         else GreedyRuns(c, n, lo, hi, i0 + 1)
  {
    hide ExhaustiveBest, Genuine, IsBest;
    if ExhaustiveBest(c, n, i0, lo, hi).0 > 0 {
      BestFits(c, n, i0, lo, hi);
    }
  }

  lemma GreedyEnd(c: Corpus, n: nat, lo: nat, hi: nat, i0: nat)
    requires c.Valid() && n < |c.texts| && c.texts[n].start <= i0 && hi <= |c.tokens|
    requires c.texts[n].limit < i0 + c.minRun
    ensures GreedyRuns(c, n, lo, hi, i0) == []
  {
  }

  // ---------- The comparison ----------

  method CompareOneText(c: Corpus, index: ForwardIndex, n: nat, first: nat, limit: nat) returns (runs: seq<Run>)
    requires c.Valid() && index.Valid() && index.corpus == c
    requires n < |c.texts| && first < limit <= |c.texts|
    ensures runs == TextRuns(c, n, first, limit)
  {
    hide GreedyRuns, ExhaustiveBest, IsBest, IsLongest, Links;
    runs := [];
    var iFirst, iLimit := c.texts[first].start, c.texts[limit - 1].limit;
    var i0 := c.texts[n].start;
    while i0 + c.minRun <= c.texts[n].limit
      invariant c.texts[n].start <= i0 <= c.texts[n].limit
      invariant runs + GreedyRuns(c, n, iFirst, iLimit, i0) == TextRuns(c, n, first, limit)
    {
      var sizeBest, txtBest, iBest := Lcs(c, index, n, i0, iFirst, iLimit);
      GreedyStep(c, n, iFirst, iLimit, i0);
      if sizeBest != 0 {
        runs := runs + [Run(n, i0, txtBest, iBest, sizeBest)];
        i0 := i0 + sizeBest;
      } else {
        i0 := i0 + 1;
      }
    }
    GreedyEnd(c, n, iFirst, iLimit, i0);
  }

  method CompareSeparately(c: Corpus, index: ForwardIndex, n: nat, first: nat) returns (runs: seq<Run>)
    requires c.Valid() && index.Valid() && index.corpus == c && n < |c.texts|
    ensures runs == SeparateRuns(c, n, first, |c.texts|)
  {
    hide TextRuns, Corpus.Valid;
    runs := [];
    var m := first;
    while m < |c.texts|
      invariant first <= m && (first <= |c.texts| ==> m <= |c.texts|)
      invariant runs == if first <= |c.texts| then SeparateRuns(c, n, first, m) else []
    {
      var more := CompareOneText(c, index, n, m, m + 1);
      runs := runs + more;
      m := m + 1;
    }
  }

  /** Compares all new texts. Every reported run is one that must be reported, and nothing is missed. */
  method CompareFiles(c: Corpus, index: ForwardIndex, o: Options) returns (runs: seq<Run>)
    requires c.Valid() && index.Valid() && index.corpus == c
    ensures runs == AllRuns(c, o, c.newTexts)
    ensures (forall r :: r in runs ==> Admissible(c, o, r)) && Complete(c, o, runs)
  {
    hide TextRuns, SeparateRuns, Admissible, Complete;
    AllRunsAdmissible(c, o, c.newTexts);
    AllRunsComplete(c, o);
    runs := [];
    for n := 0 to c.newTexts
      invariant runs == AllRuns(c, o, n)
    {
      var first := FirstText(c, o, n);
      var more := [];
      if o.eachSeparately {
        more := CompareSeparately(c, index, n, first);
      } else if first < |c.texts| {
        more := CompareOneText(c, index, n, first, |c.texts|);
      }
      runs := runs + more;
    }
  }

  /** Builds the index and compares. What is reported does not depend on the size of the hash table. */
  method FindRuns(c: Corpus, o: Options, tableSize: nat) returns (runs: seq<Run>)
    requires c.Valid() && tableSize >= 1
    ensures runs == AllRuns(c, o, c.newTexts)
    ensures (forall r :: r in runs ==> Admissible(c, o, r)) && Complete(c, o, runs)
  {
    hide AllRuns, Admissible, Complete;
    var index := new ForwardIndex(c, tableSize);
    runs := CompareFiles(c, index, o);
  }

  // ---------- What the reported runs are ----------

  /**
    A run that may be reported for text `n` against the positions in [lo, hi): its tokens occur twice, and
    no acceptable run that starts where it starts is larger, or as large and nearer.
   */
  ghost predicate Genuine(c: Corpus, n: nat, lo: nat, hi: nat, r: Run)
    requires c.Valid()
  {
    && r.text0 == n && lo <= r.pos1 < hi && r.size >= c.minRun
    && Repeats(c, n, r.pos0, r.text1, r.pos1, r.size)
    && IsLongest(c, n, r.pos0, lo, hi, r.size, r.text1, r.pos1)
  }

  lemma BestFits(c: Corpus, n: nat, i0: nat, lo: nat, hi: nat)
    requires c.Valid() && c.In(n, i0) && hi <= |c.tokens|
    requires ExhaustiveBest(c, n, i0, lo, hi).0 > 0
    ensures var (size, at) := ExhaustiveBest(c, n, i0, lo, hi); Genuine(c, n, lo, hi, Run(n, i0, c.Owner(at), at, size))
    ensures i0 + ExhaustiveBest(c, n, i0, lo, hi).0 <= c.texts[n].limit
  {
    var (size, at) := ExhaustiveBest(c, n, i0, lo, hi);
    ExhaustiveBestIsBest(c, n, i0, lo, hi);
    BestIsLongest(c, n, i0, lo, hi, size, c.Owner(at), at);
    assert size <= Longest(c, n, i0, at);
    RepeatsIsStretch(c, n, i0, c.Owner(at), at, size);
  }

  /** Position `p` lies in one of the runs. */
  ghost predicate Covered(runs: seq<Run>, p: nat) {
    exists k :: 0 <= k < |runs| && runs[k].pos0 <= p < runs[k].pos0 + runs[k].size
  }

  /** From `p` no acceptable run starts that occurs again in [lo, hi). */
  ghost predicate Hopeless(c: Corpus, n: nat, lo: nat, hi: nat, p: nat)
    requires c.Valid()
  {
    forall m: nat, i1: nat, size: nat :: lo <= i1 < hi ==> !Acceptable(c, n, p, m, i1, size)
  }

  /** Every run starts behind the end of the one before, the first at or behind `p`. */
  ghost predicate Consecutive(runs: seq<Run>, p: nat) {
    runs != [] ==> p <= runs[0].pos0 && Consecutive(runs[1..], runs[0].pos0 + runs[0].size)
  }

  /** Every reported run is genuine and the best one at its position; the runs follow one another in text `n`. */
  lemma {:induction false} RunsAreGenuine(c: Corpus, n: nat, lo: nat, hi: nat, i0: nat)
    requires c.Valid() && n < |c.texts| && c.texts[n].start <= i0 && hi <= |c.tokens|
    ensures var runs := GreedyRuns(c, n, lo, hi, i0);
      && (forall r :: r in runs ==> Genuine(c, n, lo, hi, r))
      && Consecutive(runs, i0)
    decreases c.texts[n].limit - i0
  {
    hide Genuine, ExhaustiveBest, IsBest;
    if i0 + c.minRun <= c.texts[n].limit {
      var (size, at) := ExhaustiveBest(c, n, i0, lo, hi);
      if size > 0 {
        BestFits(c, n, i0, lo, hi);
        RunsAreGenuine(c, n, lo, hi, i0 + size);
      } else {
        RunsAreGenuine(c, n, lo, hi, i0 + 1);
      }
    }
  }

  /** Nothing is missed: where a run could start, either one is reported, or none is acceptable. */
  lemma {:induction false} RunsAreComplete(c: Corpus, n: nat, lo: nat, hi: nat, i0: nat, p: nat)
    requires c.Valid() && n < |c.texts| && c.texts[n].start <= i0 <= p && hi <= |c.tokens|
    requires p + c.minRun <= c.texts[n].limit
    requires !Covered(GreedyRuns(c, n, lo, hi, i0), p)
    ensures Hopeless(c, n, lo, hi, p)
    decreases p - i0
  {
    hide Genuine, ExhaustiveBest, Score, Candidate, Partition, Acceptable, IsBest, Hopeless;
    var (size, at) := ExhaustiveBest(c, n, i0, lo, hi);
    var runs := GreedyRuns(c, n, lo, hi, i0);
    if size > 0 {
      var rest := GreedyRuns(c, n, lo, hi, i0 + size);
      assert runs[0].pos0 == i0 && runs[0].size == size;
      assert forall k :: 0 <= k < |rest| ==> rest[k] == runs[k + 1];
      RunsAreComplete(c, n, lo, hi, i0 + size, p);
    } else if i0 < p {
      RunsAreComplete(c, n, lo, hi, i0 + 1, p);
    } else {
      ExhaustiveBestIsBest(c, n, i0, lo, hi);
      BestIsLongest(c, n, i0, lo, hi, size, 0, at);
      NoneIsLongest(c, n, i0, lo, hi, at);
    }
  }

  lemma NoneIsLongest(c: Corpus, n: nat, i0: nat, lo: nat, hi: nat, at: nat)
    requires c.Valid() && IsLongest(c, n, i0, lo, hi, 0, 0, at)
    ensures Hopeless(c, n, lo, hi, i0)
  {
    hide Acceptable;
    forall m: nat, i1: nat, size: nat | lo <= i1 < hi ensures !Acceptable(c, n, i0, m, i1, size) {
      if Acceptable(c, n, i0, m, i1, size) {
        AcceptablePlaces(c, n, i0, m, i1, size);
        assert false;
      }
    }
  }

  /** The options let text `n` be compared to text `m`. */
  ghost predicate Allowed(c: Corpus, o: Options, n: nat, m: nat) {
    && n < c.newTexts && m < |c.texts|
    && (if o.oldOnly then m > c.newTexts else if o.notToSelf then m > n else m >= n)
  }

  /** Runs lead from new texts, to the texts that the options allow. */
  ghost predicate Admissible(c: Corpus, o: Options, r: Run)
    requires c.Valid()
  {
    && Allowed(c, o, r.text0, r.text1)
    && r.pos0 + r.size <= r.pos1
    && exists lo: nat, hi: nat :: Genuine(c, r.text0, lo, hi, r)
  }

  lemma TextRunsAdmissible(c: Corpus, o: Options, n: nat, first: nat, limit: nat)
    requires c.Valid() && n < c.newTexts && FirstText(c, o, n) <= first < limit <= |c.texts|
    ensures forall r :: r in TextRuns(c, n, first, limit) ==>
      Admissible(c, o, r) && r.text0 == n && first <= r.text1 < limit
  {
    hide GreedyRuns, Genuine, Stretch, IsBest;
    var lo, hi := c.texts[first].start, c.texts[limit - 1].limit;
    RunsAreGenuine(c, n, lo, hi, c.texts[n].start);
    forall r | r in TextRuns(c, n, first, limit)
      ensures Admissible(c, o, r) && r.text0 == n && first <= r.text1 < limit
    {
      GenuineIsAdmissible(c, o, n, first, limit, r);
    }
  }

  lemma GenuineIsAdmissible(c: Corpus, o: Options, n: nat, first: nat, limit: nat, r: Run)
    requires c.Valid() && n < c.newTexts && FirstText(c, o, n) <= first < limit <= |c.texts|
    requires Genuine(c, n, c.texts[first].start, c.texts[limit - 1].limit, r)
    ensures Admissible(c, o, r) && r.text0 == n && first <= r.text1 < limit
  {
    hide IsBest;
    if r.text1 < first {
      TextsAscend(c.texts, |c.tokens|, r.text1, first);
    } else if limit <= r.text1 {
      TextsAscend(c.texts, |c.tokens|, limit - 1, r.text1);
    }
  }

  lemma {:induction false} SeparateRunsAdmissible(c: Corpus, o: Options, n: nat, first: nat, limit: nat)
    requires c.Valid() && n < c.newTexts && FirstText(c, o, n) <= first && limit <= |c.texts|
    ensures forall r :: r in SeparateRuns(c, n, first, limit) ==> Admissible(c, o, r) && r.text0 == n
    decreases limit
  {
    hide TextRuns, Admissible, Partition;
    if first < limit {
      SeparateRunsAdmissible(c, o, n, first, limit - 1);
      TextRunsAdmissible(c, o, n, limit - 1, limit);
    }
  }

  /** Everything that is reported is admissible. */
  lemma {:induction false} AllRunsAdmissible(c: Corpus, o: Options, n: nat)
    requires c.Valid() && n <= c.newTexts
    ensures forall r :: r in AllRuns(c, o, n) ==> Admissible(c, o, r)
  {
    hide TextRuns, SeparateRuns, Admissible, Partition;
    if n > 0 {
      AllRunsAdmissible(c, o, n - 1);
      var first := FirstText(c, o, n - 1);
      if o.eachSeparately {
        SeparateRunsAdmissible(c, o, n - 1, first, |c.texts|);
      } else if first < |c.texts| {
        TextRunsAdmissible(c, o, n - 1, first, |c.texts|);
      }
    }
  }

  // ---------- Nothing that must be compared is left out ----------

  /** A run covers position `p` of text `n`, and leads to text `m` if texts are compared one by one. */
  ghost predicate Reported(o: Options, runs: seq<Run>, n: nat, m: nat, p: nat) {
    exists r :: r in runs && r.text0 == n && r.pos0 <= p < r.pos0 + r.size && (o.eachSeparately ==> r.text1 == m)
  }

  /** From `p` no acceptable run starts that occurs again in text `m`. */
  ghost predicate NoRunInto(c: Corpus, n: nat, m: nat, p: nat)
    requires c.Valid()
  {
    forall i1: nat, size: nat :: !Acceptable(c, n, p, m, i1, size)
  }

  /** For any two texts that must be compared, and any position where a run could start, it is reported or none does. */
  ghost predicate Complete(c: Corpus, o: Options, runs: seq<Run>)
    requires c.Valid()
  {
    forall n: nat, m: nat, p: nat ::
      Allowed(c, o, n, m) && c.In(n, p) && p + c.minRun <= c.texts[n].limit ==>
        Reported(o, runs, n, m, p) || NoRunInto(c, n, m, p)
  }

  lemma ReportedInMore(o: Options, runs: seq<Run>, more: seq<Run>, n: nat, m: nat, p: nat)
    requires Reported(o, runs, n, m, p) && forall r :: r in runs ==> r in more
    ensures Reported(o, more, n, m, p)
  {
  }

  /** One comparison of text `n` deals with a text in its range. */
  lemma TextRunsComplete(c: Corpus, o: Options, n: nat, first: nat, limit: nat, m: nat, p: nat)
    requires c.Valid() && n < c.newTexts && FirstText(c, o, n) <= first <= m < limit <= |c.texts|
    requires c.In(n, p) && p + c.minRun <= c.texts[n].limit
    requires o.eachSeparately ==> limit == first + 1
    ensures Reported(o, TextRuns(c, n, first, limit), n, m, p) || NoRunInto(c, n, m, p)
  {
    hide GreedyRuns, Acceptable, Admissible, Genuine;
    var runs, lo, hi := TextRuns(c, n, first, limit), c.texts[first].start, c.texts[limit - 1].limit;
    TextRunsAdmissible(c, o, n, first, limit);
    if Covered(runs, p) {
      var k :| 0 <= k < |runs| && runs[k].pos0 <= p < runs[k].pos0 + runs[k].size;
      assert runs[k] in runs;
    } else {
      RunsAreComplete(c, n, lo, hi, c.texts[n].start, p);
      TextWithin(c, first, m, limit);
      forall i1: nat, size: nat ensures !Acceptable(c, n, p, m, i1, size) {
        if Acceptable(c, n, p, m, i1, size) {
          AcceptablePlaces(c, n, p, m, i1, size);
        }
      }
    }
  }

  lemma TextWithin(c: Corpus, first: nat, m: nat, limit: nat)
    requires c.Valid() && first <= m < limit <= |c.texts|
    ensures c.texts[first].start <= c.texts[m].start && c.texts[m].limit <= c.texts[limit - 1].limit
  {
    if first < m {
      TextsAscend(c.texts, |c.tokens|, first, m);
    }
    if m < limit - 1 {
      TextsAscend(c.texts, |c.tokens|, m, limit - 1);
    }
  }

  lemma {:induction false} SeparateRunsContain(c: Corpus, n: nat, first: nat, limit: nat, m: nat)
    requires c.Valid() && n < |c.texts| && first <= m < limit <= |c.texts|
    ensures forall r :: r in TextRuns(c, n, m, m + 1) ==> r in SeparateRuns(c, n, first, limit)
  {
    if m < limit - 1 {
      SeparateRunsContain(c, n, first, limit - 1, m);
    }
  }

  lemma {:induction false} AllRunsContain(c: Corpus, o: Options, n: nat, k: nat)
    requires c.Valid() && n < k <= |c.texts|
    ensures forall r :: r in RunsOf(c, o, n) ==> r in AllRuns(c, o, k)
  {
    hide RunsOf;
    if n < k - 1 {
      AllRunsContain(c, o, n, k - 1);
    }
  }

  lemma PairComplete(c: Corpus, o: Options, n: nat, m: nat, p: nat)
    requires c.Valid() && Allowed(c, o, n, m) && c.In(n, p) && p + c.minRun <= c.texts[n].limit
    ensures Reported(o, AllRuns(c, o, c.newTexts), n, m, p) || NoRunInto(c, n, m, p)
  {
    hide TextRuns, NoRunInto, Reported;
    var first := FirstText(c, o, n);
    var here := if o.eachSeparately then TextRuns(c, n, m, m + 1) else TextRuns(c, n, first, |c.texts|);
    if o.eachSeparately {
      TextRunsComplete(c, o, n, m, m + 1, m, p);
      SeparateRunsContain(c, n, first, |c.texts|, m);
    } else {
      TextRunsComplete(c, o, n, first, |c.texts|, m, p);
    }
    if Reported(o, here, n, m, p) {
      AllRunsContain(c, o, n, c.newTexts);
      ReportedInMore(o, here, AllRuns(c, o, c.newTexts), n, m, p);
    }
  }

  /** All that must be compared is compared. */
  lemma AllRunsComplete(c: Corpus, o: Options)
    requires c.Valid()
    ensures Complete(c, o, AllRuns(c, o, c.newTexts))
  {
    forall n: nat, m: nat, p: nat | Allowed(c, o, n, m) && c.In(n, p) && p + c.minRun <= c.texts[n].limit
      ensures Reported(o, AllRuns(c, o, c.newTexts), n, m, p) || NoRunInto(c, n, m, p)
    {
      PairComplete(c, o, n, m, p);
    }
  }
}
