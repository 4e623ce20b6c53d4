/**
  Access to the lexical scanner, and the newline cache: during the first pass the numbers of tokens
  between line ends are saved, so that the second pass need not read the files again.
 */
module TextReading {
  import opened Tokens
  import opened GrowableArrays

  // ---------- Lines of a token stream ----------

  /** The number of tokens, not counting line ends. */
  ghost function Count(s: seq<Token>): nat {
    if s == [] then 0
    else Count(s[..|s| - 1]) + if s[|s| - 1] == END_OF_LINE then 0 else 1
  }

  /** For each line end, the number of tokens before it. */
  ghost function LineEnds(s: seq<Token>): (r: seq<nat>)
    ensures forall i :: 0 <= i < |r| ==> r[i] <= Count(s)
    ensures forall i, j :: 0 <= i < j < |r| ==> r[i] <= r[j]
  {
    if s == [] then []
    else
      LineEnds(s[..|s| - 1]) + if s[|s| - 1] == END_OF_LINE then [Count(s[..|s| - 1])] else []
  }

  /** The number of the line that token `p` is in, counting both from the start; lines start at 1. */
  ghost function LineOf(s: seq<Token>, p: nat): nat
    requires p < Count(s)
  {
    var before := s[..|s| - 1];
    if p < Count(before) then LineOf(before, p) else 1 + |LineEnds(before)|
  }

  ghost function LastOr0(s: seq<nat>): nat {
    if s == [] then 0 else s[|s| - 1]
  }

  /** There are tokens behind the last line end. */
  ghost predicate Unterminated(s: seq<Token>) {
    LastOr0(LineEnds(s)) != Count(s)
  }

  /** The line ends, with the end of the stream for one more if the last line is not terminated. */
  ghost function Ends(s: seq<Token>): seq<nat> {
    LineEnds(s) + if Unterminated(s) then [Count(s)] else []
  }

  /** Line ends up to a token are those that have no more tokens before them than it has. */
  lemma {:induction false} LineEndsBefore(s: seq<Token>, p: nat)
    requires p < Count(s)
    ensures var n := LineOf(s, p) - 1;
      && 0 <= n <= |LineEnds(s)|
      && (forall i :: 0 <= i < n ==> LineEnds(s)[i] <= p)
      && (forall i :: n <= i < |LineEnds(s)| ==> LineEnds(s)[i] > p)
  {
    var before := s[..|s| - 1];
    if p < Count(before) {
      LineEndsBefore(before, p);
    }
  }

  // ---------- Differences ----------

  ghost function Sum(d: seq<nat>): nat {
    if d == [] then 0 else Sum(d[..|d| - 1]) + d[|d| - 1]
  }

  ghost function PrefixSums(d: seq<nat>): (r: seq<nat>)
    ensures |r| == |d|
  {
    seq(|d|, i requires 0 <= i < |d| => Sum(d[..i + 1]))
  }

  lemma SumAppend(d: seq<nat>, x: nat)
    ensures Sum(d + [x]) == Sum(d) + x
  {
    var e := d + [x];
    assert e[..|e| - 1] == d;
  }

  lemma LastPrefixSum(d: seq<nat>)
    ensures LastOr0(PrefixSums(d)) == Sum(d)
  {
    assert d[..|d|] == d;
  }

  lemma PrefixSumsAppend(d: seq<nat>, x: nat)
    ensures PrefixSums(d + [x]) == PrefixSums(d) + [Sum(d) + x]
  {
    hide Sum;
    SumAppend(d, x);
    var e := d + [x];
    assert e[..|e|] == e;
    forall i | 0 <= i < |d| ensures PrefixSums(e)[i] == PrefixSums(d)[i] {
      assert e[..i + 1] == d[..i + 1];
    }
  }

  lemma NextDifference(d: seq<nat>, k: nat)
    requires k < |d|
    ensures LastOr0(PrefixSums(d)[..k + 1]) == LastOr0(PrefixSums(d)[..k]) + d[k]
  {
    hide Sum;
    SumAppend(d[..k], d[k]);
    assert d[..k] + [d[k]] == d[..k + 1];
    SumEmpty();
  }

  lemma SumEmpty()
    ensures Sum([]) == 0
  {
  }

  lemma {:induction false} LineEndsPrefix(s: seq<Token>, k: nat)
    requires k <= |s|
    ensures LineEnds(s[..k]) <= LineEnds(s) && Count(s[..k]) <= Count(s)
  {
    if k < |s| {
      LineEndsPrefix(s[..|s| - 1], k);
      assert s[..|s| - 1][..k] == s[..k];
    } else {
      assert s[..k] == s;
    }
  }

  /** The entries from `start` and below `limit` are those of a text. */
  ghost predicate CachedIn(cache: seq<nat>, s: seq<Token>, start: nat, limit: nat) {
    start <= limit <= |cache| && PrefixSums(cache[start..limit]) == Ends(s)
  }

  lemma CacheGrows(cache: seq<nat>, more: seq<nat>, s: seq<Token>, start: nat, limit: nat)
    requires CachedIn(cache, s, start, limit) && cache <= more
    ensures CachedIn(more, s, start, limit)
  {
    assert more[start..limit] == cache[start..limit];
  }

  lemma ReadOne(s: seq<Token>, at: nat)
    requires at < |s|
    ensures var tk, was, now := s[at], s[..at], s[..at + 1];
      && Count(now) == Count(was) + (if tk == END_OF_LINE then 0 else 1)
      && LineEnds(now) == LineEnds(was) + (if tk == END_OF_LINE then [Count(was)] else [])
  {
    var now := s[..at + 1];
    assert now[..|now| - 1] == s[..at];
  }

  // ---------- What fits in the cache ----------

  const MAX_DIFFERENCE: nat := 0xFFFF  // what an unsigned 16-bit field holds

  ghost function EndBefore(ends: seq<nat>, i: nat): nat
    requires i <= |ends|
  {
    if i == 0 then 0 else ends[i - 1]
  }

  /** The differences between line ends fit in the cache. */
  ghost predicate Fit(ends: seq<nat>) {
    forall i: nat :: i < |ends| ==> ends[i] <= EndBefore(ends, i) + 65535
  }

  /**
    Whether there `is` a cache, when there `was` one before: only if what was to be stored `fits`, and
    certainly if it does and there is memory.
   */
  ghost predicate Survives(memory: bool, was: bool, isNow: bool, fits: bool) {
    && (isNow ==> was && fits)
    && (memory && was && fits ==> isNow)
  }

  lemma SurvivesBoth(memory: bool, more: bool, a: bool, b: bool, c: bool, fits: bool, fitsToo: bool, fitsAll: bool)
    requires Survives(memory, a, b, fits) && Survives(more, b, c, fitsToo)
    requires (memory ==> more) && (fitsAll <==> fits && fitsToo)
    ensures Survives(memory, a, c, fitsAll)
  {
  }

  /** No line of the text has too many tokens for the cache, be it terminated or not. */
  ghost predicate ShortLines(s: seq<Token>) {
    Fit(Ends(s))
  }

  /** If there is a line end at `at`, its line is short. */
  ghost predicate LineFits(s: seq<Token>, at: nat)
    requires at <= |s|
  {
    at < |s| && s[at] == END_OF_LINE ==> Count(s[..at]) - LastOr0(LineEnds(s[..at])) <= MAX_DIFFERENCE
  }

  /** The last line is short if it is not terminated. */
  ghost predicate TailFits(s: seq<Token>) {
    Count(s) - LastOr0(LineEnds(s)) <= MAX_DIFFERENCE
  }

  lemma FitNext(s: seq<Token>, at: nat)
    requires at < |s|
    ensures Fit(LineEnds(s[..at + 1])) <==> Fit(LineEnds(s[..at])) && LineFits(s, at)
  {
    hide LineEnds, Count;
    ReadOne(s, at);
    FitAppended(LineEnds(s[..at]), Count(s[..at]));
    assert LineEnds(s[..at]) + [] == LineEnds(s[..at]);
  }

  lemma FitAll(s: seq<Token>)
    ensures ShortLines(s) <==> Fit(LineEnds(s)) && TailFits(s)
  {
    hide LineEnds, Count;
    FitAppended(LineEnds(s), Count(s));
    assert LineEnds(s) + [] == LineEnds(s);
  }

  lemma FitAppended(ends: seq<nat>, x: nat)
    ensures Fit(ends + [x]) <==> Fit(ends) && x - LastOr0(ends) <= MAX_DIFFERENCE
  {
    var now := ends + [x];
    assert EndBefore(now, |ends|) == LastOr0(ends) && now[|ends|] == x;
    assert forall i: nat :: i < |ends| ==> EndBefore(now, i) == EndBefore(ends, i);
  }

  // ---------- The reader ----------

  class Reader {
    // the scanner
    var stream: seq<Token>
    var at: nat
    var lexToken: Token
    var lexLineCount: nat
    var lexTokenCount: nat
    // the newline cache; null when it has been abandoned
    var buffer: Growable?<nat>
    var bufferNext: nat
    var bufferLimit: nat
    var lastTokenCount: nat
    var lastLineCount: nat

    /** The cache is in order, if there is one. */
    ghost predicate Valid()
      reads this`buffer, buffer, if buffer == null then {} else {buffer.data}
    {
      buffer != null ==> buffer.Valid()
    }

    /** The differences in the cache. */
    ghost function Cache(): seq<nat>
      requires Valid()
      reads this`buffer, buffer, if buffer == null then {} else {buffer.data}
    {
      if buffer == null then [] else buffer.Contents()
    }

    ghost function Repr(): set<object?>
      reads this`buffer, buffer
    {
      if buffer == null then {this} else {this, buffer, buffer.data}
    }

    constructor (memory: bool)
      ensures Valid() && fresh(Repr() - {this})
      ensures (buffer != null) == memory && Cache() == []
    {
      stream, at, lexToken, lexLineCount, lexTokenCount := [], 0, NO_TOKEN, 1, 0;
      bufferNext, bufferLimit, lastTokenCount, lastLineCount := 0, 0, 0, 0;
      buffer := null;
      new;
      if memory {
        buffer := new Growable<nat>(1024);
      }
    }

    method OpenStream(s: seq<Token>)
      modifies this`stream, this`at, this`lexLineCount, this`lexTokenCount
      ensures stream == s && at == 0 && lexLineCount == 1 && lexTokenCount == 0
    {
      stream, at, lexLineCount, lexTokenCount := s, 0, 1, 0;
    }

    /** The scanner counts what it delivers. */
    ghost predicate Counting()
      reads this
    {
      && at <= |stream|
      && lexTokenCount == Count(stream[..at])
      && lexLineCount == 1 + |LineEnds(stream[..at])|
    }

    method NextStreamToken() returns (ok: bool)
      requires Counting()
      modifies this`at, this`lexToken, this`lexLineCount, this`lexTokenCount
      ensures Counting() && ok == (old(at) < |stream|)
      ensures if ok then at == old(at) + 1 && lexToken == stream[old(at)]
              else at == old(at) && lexToken == old(lexToken)
    {
      ok := at < |stream|;
      if ok {
        ReadOne(stream, at);
        lexToken := stream[at];
        at := at + 1;
        if lexToken == END_OF_LINE {
          lexLineCount := lexLineCount + 1;
        } else {
          lexTokenCount := lexTokenCount + 1;
        }
      }
    }

    // ---------- First pass ----------

    /**
      Saves the number of tokens since the last line end; abandons the cache when there is no memory
      for it, or the number does not fit.
     */
    method StoreNewline(memory: bool)
      requires Valid() && lastTokenCount <= lexTokenCount
      modifies this`buffer, Repr() - {this}
      ensures Valid() && (buffer == null || buffer == old(buffer)) && fresh(Repr() - old(Repr()))
      ensures buffer != null ==>
        old(buffer) != null && Cache() == old(Cache()) + [lexTokenCount - lastTokenCount]
      ensures lexTokenCount - lastTokenCount > MAX_DIFFERENCE ==> buffer == null
      ensures memory && old(buffer) != null && lexTokenCount - lastTokenCount <= MAX_DIFFERENCE ==> buffer != null
    {
      if buffer == null {
        return;
      }
      var difference := lexTokenCount - lastTokenCount;
      var ok := buffer.Store(difference % (MAX_DIFFERENCE + 1), memory);
      if !ok || difference % (MAX_DIFFERENCE + 1) != difference {
        buffer := null;
      }
    }

    /** A text whose cache entries start at `base` has been read up to `at`. */
    ghost predicate Saving(base: nat)
      reads Repr()
    {
      && Valid() && Counting()
      && lastTokenCount == LastOr0(LineEnds(stream[..at]))
      && (buffer != null ==> base <= |Cache()| && PrefixSums(Cache()[base..]) == LineEnds(stream[..at]))
    }

    method OpenFirst(s: seq<Token>) returns (base: nat)
      requires Valid()
      modifies this`lastTokenCount, this`stream, this`at, this`lexLineCount, this`lexTokenCount
      ensures Saving(base) && stream == s && at == 0
      ensures buffer != null ==> base == |Cache()|
    {
      base := 0;
      lastTokenCount := 0;
      if buffer != null {
        base := buffer.free;
      }
      OpenStream(s);
    }

    /** Saves a line end of the text whose entries start at `base`. */
    method SaveLineEnd(ghost base: nat, memory: bool)
      requires Valid() && lastTokenCount <= lexTokenCount
      requires buffer != null ==> base <= |Cache()| && LastOr0(PrefixSums(Cache()[base..])) == lastTokenCount
      modifies this`buffer, Repr() - {this}
      ensures Valid() && (buffer == null || buffer == old(buffer)) && fresh(Repr() - old(Repr()))
      ensures buffer != null ==>
        && old(buffer) != null && base <= |old(Cache())| && old(Cache()) <= Cache()
        && PrefixSums(Cache()[base..]) == PrefixSums(old(Cache())[base..]) + [lexTokenCount]
      ensures Survives(memory, old(buffer) != null, buffer != null, lexTokenCount - lastTokenCount <= MAX_DIFFERENCE)
    {
      ghost var d := Cache();
      hide PrefixSums, Sum, LastOr0;
      StoreNewline(memory);
      if buffer != null {
        LastPrefixSum(d[base..]);
        PrefixSumsAppend(d[base..], lexTokenCount - lastTokenCount);
        assert Cache()[base..] == d[base..] + [lexTokenCount - lastTokenCount];
      }
    }

    /** Delivers the next token or line end; saves the latter. The cache survives if the line is short. */
    method NextToken(ghost base: nat, memory: bool) returns (ok: bool)
      requires Saving(base)
      modifies Repr()
      ensures Saving(base) && stream == old(stream) && fresh(Repr() - old(Repr()))
      ensures ok == (old(at) < |stream|)
      ensures if ok then at == old(at) + 1 && lexToken == stream[old(at)]
              else at == old(at) && lexToken == old(lexToken)
      ensures buffer != null ==> old(buffer) != null && old(Cache()) <= Cache()
      ensures Survives(memory, old(buffer) != null, buffer != null, LineFits(stream, old(at)))
    {
      hide Count, LineEnds, Sum, PrefixSums;
      if at < |stream| {
        ReadOne(stream, at);
      }
      ok := NextStreamToken();
      if ok && lexToken == END_OF_LINE {
        SaveLineEnd(base, memory);
        lastTokenCount := lexTokenCount;
      }
    }

    /** Saves the end of the text if its last line is not terminated. */
    method CloseFirst(ghost base: nat, memory: bool) returns (limit: nat)
      requires Saving(base) && at == |stream|
      modifies Repr()
      ensures Valid() && stream == old(stream) && fresh(Repr() - old(Repr()))
      ensures Caches(stream, base, limit)
      ensures buffer != null ==> old(buffer) != null && old(Cache()) <= Cache()
      ensures Survives(memory, old(buffer) != null, buffer != null, TailFits(stream))
    {
      hide Count, LineEnds, Sum, PrefixSums;
      limit := 0;
      assert stream[..at] == stream;
      if buffer != null {
        if lastTokenCount != lexTokenCount {
          SaveLineEnd(base, memory);
        }
        if buffer != null {
          limit := buffer.free;
          assert Cache()[base..limit] == Cache()[base..];
        }
      }
    }

    // ---------- Second pass ----------

    /** The cache entries from `start` and below `limit` are those of a text. */
    ghost predicate Caches(s: seq<Token>, start: nat, limit: nat)
      reads this`buffer, buffer, if buffer == null then {} else {buffer.data}
    {
      Valid() && (buffer != null ==> CachedIn(Cache(), s, start, limit))
    }

    /** The line ends that the second pass gets to see: the cached ones, or those in the file itself. */
    ghost function SeenEnds(s: seq<Token>): seq<nat>
      reads this`buffer
    {
      if buffer != null then Ends(s) else LineEnds(s)
    }

    /** The second pass over a text stands behind the first `k` of its line ends. */
    ghost predicate Behind(s: seq<Token>, start: nat, limit: nat, k: nat)
      reads Repr()
    {
      && Caches(s, start, limit) && k <= |SeenEnds(s)|
      && lexLineCount == 1 + k && lexTokenCount == LastOr0(SeenEnds(s)[..k])
      && (if buffer != null then
            bufferNext == start + k && bufferLimit == limit &&
            lastTokenCount == lexTokenCount && lastLineCount == lexLineCount
          else
            stream == s && Counting())
    }

    /** The second pass has read the file itself to its end. */
    ghost predicate Exhausted(s: seq<Token>)
      reads Repr()
    {
      && Valid() && buffer == null && stream == s && at == |s|
      && lexTokenCount == Count(s) && lexLineCount == 1 + |LineEnds(s)|
    }

    /** Opens a text for the second pass; fails if there is no cache and the file cannot be opened. */
    method OpenSecond(s: seq<Token>, start: nat, limit: nat, readable: bool) returns (ok: bool)
      requires Caches(s, start, limit)
      modifies this`lastTokenCount, this`bufferNext, this`bufferLimit, this`lastLineCount, this`lexLineCount,
               this`lexTokenCount, this`stream, this`at
      ensures ok == (buffer != null || readable)
      ensures ok ==> Behind(s, start, limit, 0)
      ensures Caches(s, start, limit)
    {
      lastTokenCount := 0;
      if buffer != null {
        bufferNext, bufferLimit, lastLineCount, lexLineCount, lexTokenCount := start, limit, 1, 1, 0;
        return true;
      }
      OpenStream(if readable then s else []);
      ok := readable;
    }

    method NextCachedEol(ghost s: seq<Token>, ghost start: nat, ghost limit: nat, ghost k: nat) returns (ok: bool)
      requires Behind(s, start, limit, k) && buffer != null
      modifies this`bufferNext, this`lastTokenCount, this`lastLineCount, this`lexLineCount, this`lexTokenCount,
               this`lexToken
      ensures ok == (k < |Ends(s)|)
      ensures Behind(s, start, limit, if ok then k + 1 else k)
    {
      hide Count, LineEnds, PrefixSums, Sum;
      ghost var d := Cache()[start..limit];
      ok := bufferNext != bufferLimit;
      if ok {
        NextDifference(d, k);
        var difference := buffer.data[bufferNext];
        assert difference == d[k];
        bufferNext := bufferNext + 1;
        lastLineCount := lastLineCount + 1;
        lexLineCount := lastLineCount;
        lastTokenCount := lastTokenCount + difference;
        lexTokenCount := lastTokenCount;
        lexToken := END_OF_LINE;
      }
    }

    method NextFileEol(ghost s: seq<Token>, ghost k: nat) returns (ok: bool)
      requires buffer == null && stream == s && Counting() && k == |LineEnds(s[..at])|
      modifies this`at, this`lexToken, this`lexLineCount, this`lexTokenCount
      ensures ok == (k < |LineEnds(s)|) && Counting()
      ensures ok ==> k + 1 == |LineEnds(s[..at])| && lexTokenCount == LineEnds(s[..at])[k]
      ensures !ok ==> at == |s|
    {
      hide Count, LineEnds;
      ReadNext(s, at);
      ok := NextStreamToken();
      while ok && lexToken != END_OF_LINE
        invariant Counting() && (!ok ==> at == |s|) && (ok ==> at > 0 && lexToken == s[at - 1])
        invariant |LineEnds(s[..at])| == k + if ok && lexToken == END_OF_LINE then 1 else 0
        invariant ok && lexToken == END_OF_LINE ==> lexTokenCount == LineEnds(s[..at])[k]
        decreases |s| - at, ok
      {
        ReadNext(s, at);
        ok := NextStreamToken();
      }
      LineEndsPrefix(s, at);
      assert s[..|s|] == s;
    }

    lemma ReadNext(s: seq<Token>, at: nat)
      requires at <= |s|
      ensures at < |s| && s[at] == END_OF_LINE ==>
        LineEnds(s[..at + 1]) == LineEnds(s[..at]) + [Count(s[..at])] && Count(s[..at + 1]) == Count(s[..at])
      ensures at < |s| && s[at] != END_OF_LINE ==> LineEnds(s[..at + 1]) == LineEnds(s[..at])
    {
      if at < |s| {
        ReadOne(s, at);
      }
    }

    /** Goes on behind the next line end, from the cache or from the file itself. */
    method NextEol(ghost s: seq<Token>, ghost start: nat, ghost limit: nat, ghost k: nat) returns (ok: bool)
      requires Behind(s, start, limit, k)
      modifies this`bufferNext, this`lastTokenCount, this`lastLineCount, this`lexLineCount, this`lexTokenCount,
               this`lexToken, this`at
      ensures ok == (k < |SeenEnds(s)|)
      ensures ok ==> Behind(s, start, limit, k + 1)
      ensures !ok ==> if buffer != null then Behind(s, start, limit, k) else Exhausted(s)
    {
      hide Count, LineEnds, PrefixSums, Sum;
      if buffer != null {
        ok := NextCachedEol(s, start, limit, k);
      } else {
        ok := NextFileEol(s, k);
        LineEndsPrefix(s, at);
        assert s[..|s|] == s;
      }
    }
  }
}
