/**
  What the first pass leaves behind: one token sequence, cut into contiguous texts, together with the
  parameters of the comparison.
 */
module Corpora {
  import opened Tokens
  import opened Language

  /** A text is the stretch [start, limit) of the token sequence; it may be empty. */
  datatype Text = Text(start: nat, limit: nat)

  /** Position 0 of the token sequence is not used. `newTexts` is the number of texts before the separator. */
  datatype Corpus = Corpus(tokens: seq<Token>, texts: seq<Text>, newTexts: nat, minRun: nat, lang: Language)
  {
    /** The texts partition the token sequence from position 1, in order. */
    ghost predicate Valid() {
      && |tokens| >= 1
      && minRun >= 1
      && newTexts <= |texts|
      && Partition(texts, |tokens|)
    }

    /** Position `p` belongs to text `k`. */
    predicate In(k: nat, p: nat) {
      Within(texts, k, p)
    }

    /** The text that position `p` belongs to. */
    ghost function Owner(p: nat): (k: nat)
      requires Valid() && 1 <= p < |tokens|
      ensures In(k, p)
    {
      OwnerExists(texts, |tokens|, p);
      var k: nat :| Within(texts, k, p);
      k
    }
  }

  predicate Within(texts: seq<Text>, k: nat, p: nat) {
    k < |texts| && texts[k].start <= p < texts[k].limit
  }

  ghost predicate Partition(texts: seq<Text>, end: nat) {
    && (forall k :: 0 <= k < |texts| ==> 1 <= texts[k].start <= texts[k].limit <= end)
    && (forall k :: 0 < k < |texts| ==> texts[k].start == texts[k - 1].limit)
    && (if |texts| == 0 then end == 1 else texts[0].start == 1 && texts[|texts| - 1].limit == end)
  }

  /** Later texts lie behind earlier ones. */
  lemma {:induction false} TextsAscend(texts: seq<Text>, end: nat, a: nat, b: nat)
    requires Partition(texts, end) && a < b < |texts|
    ensures texts[a].limit <= texts[b].start
    decreases b
  {
    if a + 1 < b {
      TextsAscend(texts, end, a, b - 1);
    }
  }

  /** Every used position belongs to a text. */
  lemma {:induction false} OwnerExists(texts: seq<Text>, end: nat, p: nat)
    requires Partition(texts, end) && 1 <= p < end
    ensures exists k: nat :: Within(texts, k, p)
  {
    var k := 0;
    while p >= texts[k].limit
      invariant 0 <= k < |texts| && texts[k].start <= p
      decreases |texts| - k
    {
      assert k + 1 < |texts|;
      k := k + 1;
    }
    assert Within(texts, k, p);
  }

  /** No position belongs to two texts. */
  lemma OwnerUnique(c: Corpus, a: nat, b: nat, p: nat)
    requires c.Valid() && c.In(a, p) && c.In(b, p)
    ensures a == b
  {
    if a < b {
      TextsAscend(c.texts, |c.tokens|, a, b);
    } else if b < a {
      TextsAscend(c.texts, |c.tokens|, b, a);
    }
  }
}
