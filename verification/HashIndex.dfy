/**
  The forward-reference index: for every position the next position where a run may start that has
  the same hash codes. It is built by one hash function, and then refined in place by a second.
 */
module HashIndex {
  import opened Basics
  import opened Tokens
  import opened Language
  import opened Corpora

  const SAMPLES: nat := 24
  const LAST: nat := SAMPLES - 1
  const HALF: nat := LAST / 2
  const QUARTER: nat := LAST * 1 / 4
  const THREE_QUARTERS: nat := LAST * 3 / 4

  // ---------- The two hash codes of a window ----------

  /** Where in a window of `minRun` tokens sample `n` is taken. */
  function SamplePosition(minRun: nat, n: nat): (p: nat)
    requires minRun >= 1 && n < SAMPLES
    ensures p < minRun
  {
    SampleBound(minRun, n);
    (2 * n * (minRun - 1) + (SAMPLES - 1)) / (2 * (SAMPLES - 1))
  }

  lemma SampleBound(minRun: nat, n: nat)
    requires minRun >= 1 && n < SAMPLES
    ensures 0 <= (2 * n * (minRun - 1) + (SAMPLES - 1)) / (2 * (SAMPLES - 1)) < minRun
  {
    var x := n * (minRun - 1);
    assert 0 <= x <= 23 * (minRun - 1);
    assert 2 * n * (minRun - 1) == 2 * x;
    SampleQuotient(x, minRun - 1);
  }

  lemma SampleQuotient(x: nat, m: nat)
    requires x <= 23 * m
    ensures 0 <= (2 * x + 23) / 46 <= m
  {
  }

  /** A whole window fits behind position `p`. */
  predicate Fits(c: Corpus, p: nat) {
    c.minRun >= 1 && p + c.minRun <= |c.tokens|
  }

  function Sample(c: Corpus, p: nat, n: nat): Token
    requires Fits(c, p) && n < SAMPLES
  {
    c.tokens[p + SamplePosition(c.minRun, n)]
  }

  const TWO31: nat := 0x8000_0000

  /** Exclusive or, bit by bit. */
  function Xor(a: nat, b: nat): nat {
    if a == 0 then b
    else if b == 0 then a
    else 2 * Xor(a / 2, b / 2) + (a % 2 + b % 2) % 2
  }

  /** The bits of an exclusive or stay below those of its operands. */
  lemma {:induction false} XorBound(a: nat, b: nat, bound: nat)
    requires a < Power(bound) && b < Power(bound)
    ensures Xor(a, b) < Power(bound)
  {
    if a != 0 && b != 0 {
      assert bound > 0;
      XorBound(a / 2, b / 2, bound - 1);
    }
  }

  function Power(n: nat): nat {
    if n == 0 then 1 else 2 * Power(n - 1)
  }

  /** A rotation to the left by one of the low 31 bits of a 32-bit value whose top bit is clear. */
  function Rotate(h: nat): (r: nat)
    requires h < TWO31
    ensures r < TWO31
  {
    if 2 * h < TWO31 then 2 * h else 2 * h - TWO31 + 1
  }

  /** One round of the first hash; it leaves the top bit clear again. */
  function Mix(h: nat, tk: Token): (r: nat)
    requires h < TWO31
    ensures r < TWO31
  {
    Power31();
    XorBound(Rotate(h), tk, 31);
    Xor(Rotate(h), tk)
  }

  lemma {:induction false} PowerSum(a: nat, b: nat)
    ensures Power(a + b) == Power(a) * Power(b)
  {
    if b > 0 {
      PowerSum(a, b - 1);
    }
  }

  /** The samples of the window at `p`; all that the hash functions look at. */
  ghost function Samples(c: Corpus, p: nat): (s: seq<Token>)
    requires Fits(c, p)
    ensures |s| == SAMPLES
  {
    seq(SAMPLES, n requires 0 <= n < SAMPLES => Sample(c, p, n))
  }

  lemma Power31()
    ensures Power(31) == TWO31
  {
    Power16();
    PowerSum(15, 16);
    assert Power(16) == 2 * Power(15);
  }

  lemma Power16()
    ensures Power(16) == 0x1_0000
  {
    PowerSum(8, 8);
  }

  ghost function Mixed(s: seq<Token>, n: nat): (h: nat)
    requires n <= |s|
    ensures h < TWO31
  {
    if n == 0 then 0 else Mix(Mixed(s, n - 1), s[n - 1])
  }

  /** The first hash, used as an index in the hash table. */
  ghost function Bucket(c: Corpus, p: nat, tableSize: nat): nat
    requires Fits(c, p) && tableSize >= 1
  {
    Mixed(Samples(c, p), SAMPLES) % tableSize
  }

  /** A token shifted to the left in 64 bits. */
  function Shifted(tk: Token, bits: nat): nat {
    tk * Power(bits) % TWO64
  }

  function Spread(s0: Token, s1: Token, s2: Token, s3: Token, s4: Token): nat {
    Xor(Xor(Xor(Xor(s0, Shifted(s1, 12)), Shifted(s2, 25)), Shifted(s3, 38)), Shifted(s4, 51))
  }

  /** The second hash: five samples spread over 64 bits. */
  ghost function Representative(s: seq<Token>): nat
    requires |s| == SAMPLES
  {
    Spread(s[0], s[LAST], s[HALF], s[QUARTER], s[THREE_QUARTERS])
  }

  /** The windows at `p` and `q` hold the same tokens. */
  ghost predicate SameWindow(c: Corpus, p: nat, q: nat)
    requires Fits(c, p) && Fits(c, q)
  {
    c.tokens[p..p + c.minRun] == c.tokens[q..q + c.minRun]
  }

  /** Equal windows have equal hash codes: hashing can only separate windows that differ. */
  lemma SameWindowSameCode(c: Corpus, tableSize: nat, p: nat, q: nat)
    requires c.Valid() && tableSize >= 1
    requires Eligible(c, p) && Eligible(c, q)
    requires Fits(c, p) && Fits(c, q) && SameWindow(c, p, q)
    ensures CodeAt(c, tableSize, p) == CodeAt(c, tableSize, q)
  {
    forall n | 0 <= n < SAMPLES ensures Samples(c, p)[n] == Samples(c, q)[n] {
      var k := SamplePosition(c.minRun, n);
      assert c.tokens[p..p + c.minRun][k] == c.tokens[q..q + c.minRun][k];
    }
    assert Samples(c, p) == Samples(c, q);
  }

  // ---------- What the index is ----------

  /** A run may start at `p`: a whole window lies in one text, and its first token is acceptable. */
  ghost predicate Eligible(c: Corpus, p: nat) {
    && p < |c.tokens|
    && MayStartRun(c.lang, c.tokens[p])
    && exists k :: Starts(c, k, p)
  }

  lemma EligibleFits(c: Corpus, p: nat)
    requires c.Valid() && Eligible(c, p)
    ensures p >= 1 && Fits(c, p)
  {
  }

  ghost predicate Starts(c: Corpus, k: nat, p: nat) {
    k < |c.texts| && c.texts[k].start <= p && p + c.minRun <= c.texts[k].limit
  }

  /**
    The position after `p` that comes next among those with the code of `p`: `q`, or none if `q` is 0.
    Positions without a code have no successor, and are no successor.
   */
  ghost predicate NextAlike<K>(codes: seq<Option<K>>, p: nat, q: nat)
    requires p < |codes|
  {
    if codes[p].None? then q == 0
    else if q == 0 then forall r :: p < r < |codes| ==> codes[r] != codes[p]
    else p < q < |codes| && codes[q] == codes[p] && forall r :: p < r < q ==> codes[r] != codes[p]
  }

  ghost predicate Links<K>(codes: seq<Option<K>>, refs: seq<nat>) {
    |refs| == |codes| && forall p :: 0 <= p < |refs| ==> NextAlike(codes, p, refs[p])
  }

  ghost function BucketAt(c: Corpus, tableSize: nat, p: nat): Option<nat>
    requires c.Valid() && tableSize >= 1
  {
    if Eligible(c, p) then EligibleFits(c, p); Some(Bucket(c, p, tableSize)) else None
  }

  ghost function CodeAt(c: Corpus, tableSize: nat, p: nat): Option<(nat, nat)>
    requires c.Valid() && tableSize >= 1
  {
    if Eligible(c, p) then EligibleFits(c, p); Some((Bucket(c, p, tableSize), Representative(Samples(c, p)))) else None
  }

  ghost function Buckets(c: Corpus, tableSize: nat): seq<Option<nat>>
    requires c.Valid() && tableSize >= 1
  {
    seq(|c.tokens|, p requires p >= 0 => BucketAt(c, tableSize, p))
  }

  ghost function Codes(c: Corpus, tableSize: nat): seq<Option<(nat, nat)>>
    requires c.Valid() && tableSize >= 1
  {
    seq(|c.tokens|, p requires p >= 0 => CodeAt(c, tableSize, p))
  }

  /** The reference from `p`, in terms of the corpus: the next position with both hash codes of `p`, else 0. */
  ghost predicate IsNext(c: Corpus, tableSize: nat, p: nat, q: nat)
    requires c.Valid() && tableSize >= 1
  {
    && (q != 0 ==>
          && p < q < |c.tokens|
          && CodeAt(c, tableSize, p).Some?
          && CodeAt(c, tableSize, q) == CodeAt(c, tableSize, p))
    && forall r: nat :: p < r < |c.tokens| && (q == 0 || r < q) && CodeAt(c, tableSize, r).Some? ==>
         CodeAt(c, tableSize, r) != CodeAt(c, tableSize, p)
  }

  lemma NextByCode(c: Corpus, tableSize: nat, p: nat, q: nat)
    requires c.Valid() && tableSize >= 1 && p < |c.tokens|
    requires NextAlike(Codes(c, tableSize), p, q)
    ensures IsNext(c, tableSize, p, q)
  {
    hide CodeAt;
    var codes := Codes(c, tableSize);
    assert forall r: nat :: r < |codes| ==> codes[r] == CodeAt(c, tableSize, r);
  }

  /** Following the references from `p` leads to `q`. */
  ghost predicate LeadsTo(refs: seq<nat>, p: nat, q: nat)
    requires q < |refs|
    decreases q - p
  {
    p == q || (p < q && p < refs[p] <= q && LeadsTo(refs, refs[p], q))
  }

  /** A chain contains every later position with the same code. */
  lemma {:induction false} ChainIsComplete<K>(codes: seq<Option<K>>, refs: seq<nat>, p: nat, q: nat)
    requires Links(codes, refs) && p <= q < |refs| && codes[p].Some? && codes[p] == codes[q]
    ensures LeadsTo(refs, p, q)
    decreases q - p
  {
    assert NextAlike(codes, p, refs[p]);
    if p < q {
      ChainIsComplete(codes, refs, refs[p], q);
    }
  }

  /** A chain ascends, and contains nothing else. */
  lemma {:induction false} ChainIsPure<K>(codes: seq<Option<K>>, refs: seq<nat>, p: nat, q: nat)
    requires Links(codes, refs) && q < |refs| && LeadsTo(refs, p, q)
    ensures p <= q && codes[p] == codes[q]
    decreases q - p
  {
    if p < q {
      assert NextAlike(codes, p, refs[p]);
      ChainIsPure(codes, refs, refs[p], q);
    }
  }

  /** Two chains never meet, unless one is part of the other. */
  lemma ChainsNeverMerge<K>(codes: seq<Option<K>>, refs: seq<nat>, p: nat, q: nat)
    requires Links(codes, refs) && p < |refs| && q < |refs| && refs[p] == refs[q] != 0
    ensures p == q
  {
    assert NextAlike(codes, p, refs[p]) && NextAlike(codes, q, refs[q]);
  }

  /** In a complete index the chain from `p` contains every later position whose window is the same. */
  lemma SameWindowOnChain(c: Corpus, tableSize: nat, refs: seq<nat>, p: nat, q: nat)
    requires c.Valid() && tableSize >= 1 && Links(Codes(c, tableSize), refs)
    requires p <= q && Eligible(c, p) && Eligible(c, q) && Fits(c, p) && Fits(c, q) && SameWindow(c, p, q)
    ensures LeadsTo(refs, p, q)
  {
    SameWindowSameCode(c, tableSize, p, q);
    ChainIsComplete(Codes(c, tableSize), refs, p, q);
  }

  // ---------- The first pass ----------

  /** The last position below `f` that has code `h`, or 0. */
  ghost predicate LastWith(codes: seq<Option<nat>>, f: nat, h: nat, q: nat)
    requires f <= |codes|
  {
    if q == 0 then forall r :: 0 <= r < f ==> codes[r] != Some(h)
    else q < f && codes[q] == Some(h) && forall r :: q < r < f ==> codes[r] != Some(h)
  }

  /** The state of the first pass when the positions below `f` have been treated. */
  ghost predicate Recorded(codes: seq<Option<nat>>, refs: seq<nat>, last: seq<nat>, f: nat) {
    && f <= |codes| == |refs|
    && (forall p :: 0 <= p < f ==> NextAlike(codes[..f], p, refs[p]))
    && (forall p :: f <= p < |refs| ==> refs[p] == 0)
    && (forall h :: 0 <= h < |last| ==> LastWith(codes, f, h, last[h]))
    && (forall p :: 0 <= p < |codes| && codes[p].Some? ==> p > 0 && codes[p].value < |last|)
  }

  lemma SkipUncoded(codes: seq<Option<nat>>, refs: seq<nat>, last: seq<nat>, f: nat, g: nat)
    requires Recorded(codes, refs, last, f) && f <= g <= |codes|
    requires forall p :: f <= p < g ==> codes[p].None?
    ensures Recorded(codes, refs, last, g)
  {
    forall p | 0 <= p < g ensures NextAlike(codes[..g], p, refs[p]) {
      if p < f {
        assert NextAlike(codes[..f], p, refs[p]);
      }
    }
    forall h | 0 <= h < |last| ensures LastWith(codes, g, h, last[h]) {
      assert LastWith(codes, f, h, last[h]);
    }
  }

  /** Position `f` is linked to the last position with its code, and becomes that position itself. */
  lemma RecordCoded(codes: seq<Option<nat>>, refs: seq<nat>, last: seq<nat>, f: nat, h: nat)
    requires Recorded(codes, refs, last, f) && f < |codes| && codes[f] == Some(h)
    ensures h < |last| && last[h] < |refs|
    ensures Recorded(codes, if last[h] != 0 then refs[last[h] := f] else refs, last[h := f], f + 1)
  {
    assert LastWith(codes, f, h, last[h]);
    var refs1 := if last[h] != 0 then refs[last[h] := f] else refs;
    forall p | 0 <= p < f + 1 ensures NextAlike(codes[..f + 1], p, refs1[p]) {
      if p < f {
        assert NextAlike(codes[..f], p, refs[p]);
        LinkedLast(codes, refs, f, h, last[h], p);
      }
    }
    var last1 := last[h := f];
    forall g | 0 <= g < |last| ensures LastWith(codes, f + 1, g, last1[g]) {
      assert LastWith(codes, f, g, last[g]);
    }
  }

  lemma LinkedLast(codes: seq<Option<nat>>, refs: seq<nat>, f: nat, h: nat, q: nat, p: nat)
    requires p < f < |codes| == |refs| && codes[f] == Some(h)
    requires LastWith(codes, f, h, q) && NextAlike(codes[..f], p, refs[p])
    ensures NextAlike(codes[..f + 1], p, if q != 0 && p == q then f else refs[p])
  {
    var a, b := codes[..f], codes[..f + 1];
    assert forall r :: 0 <= r < f ==> a[r] == b[r] == codes[r];
    if codes[p] == Some(h) && p != q {
      assert p < q;
    }
  }

  lemma NothingRecorded(c: Corpus, tableSize: nat, refs: seq<nat>, last: seq<nat>)
    requires c.Valid() && |last| == tableSize >= 1 && |refs| == |c.tokens|
    requires forall p :: 0 <= p < |refs| ==> refs[p] == 0
    requires forall h :: 0 <= h < |last| ==> last[h] == 0
    ensures Recorded(Buckets(c, tableSize), refs, last, 1)
  {
    var codes := Buckets(c, tableSize);
    assert codes[0].None?;
    assert NextAlike(codes[..1], 0, refs[0]);
    forall p | 0 <= p < |codes| && codes[p].Some? ensures p > 0 && codes[p].value < |last| {
      EligibleFits(c, p);
    }
  }

  lemma SkipUnstartable(c: Corpus, tableSize: nat, refs: seq<nat>, last: seq<nat>, j: nat)
    requires c.Valid() && tableSize >= 1 && j < |c.tokens| && !MayStartRun(c.lang, c.tokens[j])
    requires Recorded(Buckets(c, tableSize), refs, last, j)
    ensures Recorded(Buckets(c, tableSize), refs, last, j + 1)
  {
    hide Recorded;
    SkipUncoded(Buckets(c, tableSize), refs, last, j, j + 1);
  }

  /** No run starts in the last `minRun - 1` positions of a text. */
  lemma SkipTail(c: Corpus, tableSize: nat, refs: seq<nat>, last: seq<nat>, n: nat, j: nat)
    requires c.Valid() && tableSize >= 1 && n < |c.texts|
    requires c.texts[n].start <= j <= c.texts[n].limit < j + c.minRun
    requires Recorded(Buckets(c, tableSize), refs, last, j)
    ensures Recorded(Buckets(c, tableSize), refs, last, c.texts[n].limit)
  {
    forall p | j <= p < c.texts[n].limit ensures !Eligible(c, p) {
      if k :| Starts(c, k, p) {
        OwnerUnique(c, n, k, p);
      }
    }
    SkipUncoded(Buckets(c, tableSize), refs, last, j, c.texts[n].limit);
  }

  // ---------- The second pass ----------

  /** The codes tell apart what the buckets tell apart, and more. */
  ghost predicate Refines(buckets: seq<Option<nat>>, codes: seq<Option<(nat, nat)>>) {
    && |buckets| == |codes|
    && (forall p :: 0 <= p < |codes| ==> (codes[p].None? <==> buckets[p].None?))
    && (forall p :: 0 <= p < |codes| && codes[p].Some? ==> codes[p].value.0 == buckets[p].value)
  }

  lemma CodesRefine(c: Corpus, tableSize: nat)
    requires c.Valid() && tableSize >= 1
    ensures Refines(Buckets(c, tableSize), Codes(c, tableSize))
  {
  }

  lemma CodesLength(c: Corpus, tableSize: nat)
    requires c.Valid() && tableSize >= 1
    ensures |Buckets(c, tableSize)| == |Codes(c, tableSize)| == |c.tokens|
  {
  }

  /** In one bucket the second hash tells the codes apart. */
  lemma SameBucket(c: Corpus, tableSize: nat, i: nat, j: nat)
    requires c.Valid() && tableSize >= 1 && i < |c.tokens| && j < |c.tokens|
    requires Buckets(c, tableSize)[i].Some? && Buckets(c, tableSize)[j] == Buckets(c, tableSize)[i]
    ensures Fits(c, i) && Fits(c, j)
    ensures Codes(c, tableSize)[i] == Codes(c, tableSize)[j] <==>
            Representative(Samples(c, i)) == Representative(Samples(c, j))
  {
    EligibleFits(c, i);
    EligibleFits(c, j);
  }

  /** The state of the second pass when the positions below `i` have been treated. */
  ghost predicate HalfClean(buckets: seq<Option<nat>>, codes: seq<Option<(nat, nat)>>, refs: seq<nat>, i: nat) {
    && |refs| == |codes| == |buckets|
    && (forall p :: 0 <= p < i && p < |refs| ==> NextAlike(codes, p, refs[p]))
    && (forall p :: i <= p < |refs| ==> NextAlike(buckets, p, refs[p]))
  }

  /** The walk down the chain of `i` has come to `j`, and has passed no position with the code of `i`. */
  ghost predicate Walked(buckets: seq<Option<nat>>, codes: seq<Option<(nat, nat)>>, i: nat, j: nat)
    requires i < |buckets| == |codes|
  {
    && (j != 0 ==> buckets[i].Some? && i < j < |buckets| && buckets[j] == buckets[i])
    && forall r :: i < r < |codes| && (j == 0 || r < j) && codes[i].Some? ==> codes[r] != codes[i]
  }

  lemma WalkOn(buckets: seq<Option<nat>>, codes: seq<Option<(nat, nat)>>, i: nat, j: nat, next: nat)
    requires i < |buckets| && Refines(buckets, codes) && j != 0 && Walked(buckets, codes, i, j)
    requires codes[j] != codes[i] && NextAlike(buckets, j, next)
    ensures Walked(buckets, codes, i, next)
  {
  }

  lemma RestIsClean(c: Corpus, tableSize: nat, refs: seq<nat>, i: nat)
    requires c.Valid() && tableSize >= 1 && i + c.minRun >= |c.tokens|
    requires HalfClean(Buckets(c, tableSize), Codes(c, tableSize), refs, i)
    ensures Links(Codes(c, tableSize), refs)
  {
    forall p | i <= p < |refs| ensures NextAlike(Codes(c, tableSize), p, refs[p]) {
      assert NextAlike(Buckets(c, tableSize), p, refs[p]);
      forall r | p < r < |refs| ensures !Eligible(c, r) {
      }
    }
  }

  class ForwardIndex {
    const corpus: Corpus
    const tableSize: nat
    var samplePosition: array<nat>
    var forwardReference: array<nat>

    /** The index is complete. */
    ghost predicate Valid()
      reads this, forwardReference
    {
      && corpus.Valid() && tableSize >= 1
      && Links(Codes(corpus, tableSize), forwardReference[..])
    }

    constructor (c: Corpus, size: nat)
      requires c.Valid() && size >= 1
      ensures Valid() && corpus == c && tableSize == size
      ensures fresh(forwardReference)
    {
      corpus, tableSize := c, size;
      samplePosition := new nat[SAMPLES];
      forwardReference := new nat[|c.tokens|](_ => 0);
      new;
      FindSamplePositions();
      MakeForwardReferences();
      CleanForwardReferences();
    }

    ghost predicate Sampling()
      reads this, samplePosition
    {
      && corpus.Valid() && tableSize >= 1
      && samplePosition.Length == SAMPLES
      && forall n :: 0 <= n < SAMPLES ==> samplePosition[n] == SamplePosition(corpus.minRun, n)
    }

    method FindSamplePositions()
      requires corpus.Valid() && tableSize >= 1 && samplePosition.Length == SAMPLES
      modifies samplePosition
      ensures Sampling()
    {
      for n := 0 to SAMPLES
        invariant forall i :: 0 <= i < n ==> samplePosition[i] == SamplePosition(corpus.minRun, i)
      {
        samplePosition[n] := SamplePosition(corpus.minRun, n);
      }
    }

    method TakeSample(p: nat, n: nat) returns (tk: Token)
      requires Sampling() && Fits(corpus, p) && n < SAMPLES
      ensures tk == Sample(corpus, p, n)
    {
      tk := corpus.tokens[p + samplePosition[n]];
    }

    /** The first hash code, of the window at `p`. */
    method Hash1(p: nat) returns (h: nat)
      requires Sampling() && Fits(corpus, p)
      ensures h == Mixed(Samples(corpus, p), SAMPLES)
    {
      h := 0;
      for n := 0 to SAMPLES
        invariant h == Mixed(Samples(corpus, p), n)
      {
        var tk := TakeSample(p, n);
        h := Mix(h, tk);
      }
    }

    /** The second hash code, of the window at `p`. */
    method Hash2(p: nat) returns (h: nat)
      requires Sampling() && Fits(corpus, p)
      ensures h == Representative(Samples(corpus, p))
    {
      var s0 := TakeSample(p, 0);
      var s1 := TakeSample(p, LAST);
      var s2 := TakeSample(p, HALF);
      var s3 := TakeSample(p, QUARTER);
      var s4 := TakeSample(p, THREE_QUARTERS);
      h := Spread(s0, s1, s2, s3, s4);
    }

    /** The first pass has treated the positions below `f`. */
    ghost predicate Entered(lastIndex: array<nat>, f: nat)
      reads this, samplePosition, forwardReference, lastIndex
    {
      && Sampling()
      && forwardReference.Length == |corpus.tokens| && lastIndex.Length == tableSize
      && lastIndex != forwardReference && samplePosition != lastIndex && samplePosition != forwardReference
      && Recorded(Buckets(corpus, tableSize), forwardReference[..], lastIndex[..], f)
    }

    /** Links the last position in the bucket of `j` to `j`. */
    method Enter(j: nat, lastIndex: array<nat>)
      requires Entered(lastIndex, j) && Eligible(corpus, j)
      modifies forwardReference, lastIndex
      ensures Entered(lastIndex, j + 1)
    {
      EligibleFits(corpus, j);
      var h := Hash1(j);
      h := h % tableSize;
      ghost var refs, last := forwardReference[..], lastIndex[..];
      RecordCoded(Buckets(corpus, tableSize), refs, last, j, h);
      if lastIndex[h] != 0 {
        forwardReference[lastIndex[h]] := j;
        assert forwardReference[..] == refs[last[h] := j];
      }
      lastIndex[h] := j;
      assert lastIndex[..] == last[h := j];
    }

    /** Enters position `j` of text `n` if a run may start there. */
    method EnterPosition(n: nat, j: nat, lastIndex: array<nat>)
      requires Entered(lastIndex, j) && Starts(corpus, n, j)
      modifies forwardReference, lastIndex
      ensures Entered(lastIndex, j + 1)
    {
      if MayStartRun(corpus.lang, corpus.tokens[j]) {
        Enter(j, lastIndex);
      } else {
        SkipUnstartable(corpus, tableSize, forwardReference[..], lastIndex[..], j);
      }
    }

    lemma EnterTail(n: nat, j: nat, lastIndex: array<nat>)
      requires Entered(lastIndex, j) && n < |corpus.texts|
      requires corpus.texts[n].start <= j <= corpus.texts[n].limit < j + corpus.minRun
      ensures Entered(lastIndex, corpus.texts[n].limit)
    {
      SkipTail(corpus, tableSize, forwardReference[..], lastIndex[..], n, j);
    }

    /** Enters all positions of text `n` where a run may start. */
    method EnterText(n: nat, lastIndex: array<nat>)
      requires n < |corpus.texts| && Entered(lastIndex, corpus.texts[n].start)
      modifies forwardReference, lastIndex
      ensures Entered(lastIndex, corpus.texts[n].limit)
    {
      hide Recorded;
      var j := corpus.texts[n].start;
      while j + corpus.minRun - 1 < corpus.texts[n].limit
        invariant corpus.texts[n].start <= j <= corpus.texts[n].limit
        invariant Entered(lastIndex, j)
      {
        EnterPosition(n, j, lastIndex);
        j := j + 1;
      }
      EnterTail(n, j, lastIndex);
    }

    /** Links every position where a run may start to the next such position in the same bucket. */
    method MakeForwardReferences()
      requires Sampling() && forwardReference.Length == |corpus.tokens| && samplePosition != forwardReference
      requires forall p :: 0 <= p < forwardReference.Length ==> forwardReference[p] == 0
      modifies forwardReference
      ensures Links(Buckets(corpus, tableSize), forwardReference[..])
    {
      var lastIndex := new nat[tableSize](_ => 0);
      NothingRecorded(corpus, tableSize, forwardReference[..], lastIndex[..]);
      for n := 0 to |corpus.texts|
        invariant Entered(lastIndex, if n == 0 then 1 else corpus.texts[n - 1].limit)
      {
        EnterText(n, lastIndex);
      }
      ghost var codes := Buckets(corpus, tableSize);
      assert codes[..|codes|] == codes;
    }

    /** Finds the first position down the chain of `i` that has the same second hash code. */
    method FirstAlike(i: nat) returns (j: nat)
      requires Sampling() && forwardReference.Length == |corpus.tokens| && Fits(corpus, i)
      requires HalfClean(Buckets(corpus, tableSize), Codes(corpus, tableSize), forwardReference[..], i)
      ensures NextAlike(Codes(corpus, tableSize), i, j)
    {
      ghost var buckets, codes := Buckets(corpus, tableSize), Codes(corpus, tableSize);
      CodesRefine(corpus, tableSize);
      hide Buckets, Codes, Representative, Samples, Eligible, Refines;
      assert |buckets| == |codes| == |corpus.tokens| by { CodesLength(corpus, tableSize); }
      var h2 := Hash2(i);
      assert NextAlike(buckets, i, forwardReference[..][i]);
      j := forwardReference[i];
      while j != 0
        invariant Walked(buckets, codes, i, j)
        decreases if j == 0 then 0 else |corpus.tokens| - j
      {
        SameBucket(corpus, tableSize, i, j);
        var g := Hash2(j);
        if g == h2 {
          return;
        }
        assert NextAlike(buckets, j, forwardReference[..][j]);
        WalkOn(buckets, codes, i, j, forwardReference[j]);
        j := forwardReference[j];
      }
    }

    /**
      Redirects every reference to the first position down its chain that also has the same second
      hash code. Chains lead forward, so what is overwritten is not needed again.
     */
    method CleanForwardReferences()
      requires Sampling() && forwardReference.Length == |corpus.tokens| && samplePosition != forwardReference
      requires Links(Buckets(corpus, tableSize), forwardReference[..])
      modifies forwardReference
      ensures Links(Codes(corpus, tableSize), forwardReference[..])
    {
      ghost var buckets, codes := Buckets(corpus, tableSize), Codes(corpus, tableSize);
      var i := 0;
      while i + corpus.minRun < |corpus.tokens|
        invariant 0 <= i <= |corpus.tokens|
        invariant HalfClean(buckets, codes, forwardReference[..], i)
      {
        ghost var refs := forwardReference[..];
        var j := FirstAlike(i);
        forwardReference[i] := j;
        assert forwardReference[..] == refs[i := j];
        i := i + 1;
      }
      RestIsClean(corpus, tableSize, forwardReference[..], i);
    }

    /** The next position in the chain of `i`, or 0. */
    method Get(i: nat) returns (r: nat)
      requires Valid() && 1 <= i < |corpus.tokens|  // anything else is fatal
      ensures IsNext(corpus, tableSize, i, r)
    {
      assert NextAlike(Codes(corpus, tableSize), i, forwardReference[..][i]);
      r := forwardReference[i];
      NextByCode(corpus, tableSize, i, r);
    }
  }
}
