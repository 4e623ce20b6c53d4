/**
  The first pass: reads the input files into one token array, cuts that into texts, and saves the line ends.
 */
module FirstPass {
  import opened Tokens
  import opened Language
  import opened Corpora
  import opened GrowableArrays
  import opened TextReading
  import opened LineRecovery

  /** An argument of the program: a file, as the scanner delivers it, or the separator of new and old files. */
  datatype Argument = Separator | File(stream: seq<Token>)
  {
    function Stream(): seq<Token> {
      if Separator? then [] else stream
    }
  }

  /** The tokens without the line ends. */
  ghost function PlainTokens(s: seq<Token>): (r: seq<Token>)
    ensures |r| == Count(s)
  {
    if s == [] then []
    else PlainTokens(s[..|s| - 1]) + if s[|s| - 1] == END_OF_LINE then [] else [s[|s| - 1]]
  }

  /** Everything that is in the token array when the first `n` files have been read. */
  ghost function AllTokens(files: seq<Argument>, n: nat): (r: seq<Token>)
    requires n <= |files|
    ensures |r| >= 1
  {
    if n == 0 then [NO_TOKEN] else AllTokens(files, n - 1) + PlainTokens(files[n - 1].Stream())
  }

  /** The texts of the first `n` files. */
  ghost function TextsOf(files: seq<Argument>, n: nat): (r: seq<Text>)
    requires n <= |files|
    ensures |r| == n
  {
    if n == 0 then []
    else TextsOf(files, n - 1) + [Text(|AllTokens(files, n - 1)|, |AllTokens(files, n)|)]
  }

  /** The number of texts before the last separator among the first `n`; all of them if there is none. */
  function NewTexts(files: seq<Argument>, n: nat): nat
    requires n <= |files|
  {
    if n == 0 then |files| else if files[n - 1].Separator? then n - 1 else NewTexts(files, n - 1)
  }

  /** `n` is the position of the last separator, or the number of files if there is none. */
  ghost predicate IsLastSeparator(files: seq<Argument>, n: nat) {
    && n <= |files|
    && (n < |files| ==> files[n].Separator?)
    && forall k: nat :: k < |files| && files[k].Separator? ==> k <= n < |files|
  }

  lemma {:induction false} NewTextsIs(files: seq<Argument>, n: nat)
    requires n <= |files| && forall k :: n <= k < |files| ==> !files[k].Separator?
    ensures IsLastSeparator(files, NewTexts(files, n))
  {
    if n > 0 && !files[n - 1].Separator? {
      NewTextsIs(files, n - 1);
    }
  }

  /** What the first pass makes of the files. */
  ghost function CorpusOf(files: seq<Argument>, minRun: nat, lang: Language): Corpus {
    Corpus(AllTokens(files, |files|), TextsOf(files, |files|), NewTexts(files, |files|), minRun, lang)
  }

  lemma {:induction false} TextsPartition(files: seq<Argument>, n: nat)
    requires n <= |files|
    ensures Partition(TextsOf(files, n), |AllTokens(files, n)|)
  {
    if n > 0 {
      TextsPartition(files, n - 1);
    }
  }

  lemma {:induction false} NewTextsBound(files: seq<Argument>, n: nat)
    requires n <= |files|
    ensures NewTexts(files, n) <= |files|
  {
    if n > 0 {
      NewTextsBound(files, n - 1);
    }
  }

  /** The first pass establishes what the comparison relies on. */
  lemma CorpusIsValid(files: seq<Argument>, minRun: nat, lang: Language)
    requires minRun >= 1
    ensures CorpusOf(files, minRun, lang).Valid()
  {
    TextsPartition(files, |files|);
    NewTextsBound(files, |files|);
  }

  lemma {:induction false} AllTokensGrow(files: seq<Argument>, k: nat, n: nat)
    requires k <= n <= |files|
    ensures AllTokens(files, k) <= AllTokens(files, n)
    decreases n
  {
    if k < n {
      AllTokensGrow(files, k, n - 1);
    }
  }

  lemma {:induction false} TextsOfAt(files: seq<Argument>, k: nat, n: nat)
    requires k < n <= |files|
    ensures TextsOf(files, n)[k] == Text(|AllTokens(files, k)|, |AllTokens(files, k + 1)|)
    decreases n
  {
    hide AllTokens;
    if k < n - 1 {
      TextsOfAt(files, k, n - 1);
    }
  }

  /** Every text holds the tokens of its own file. */
  lemma TextHoldsFile(files: seq<Argument>, minRun: nat, lang: Language, k: nat)
    requires minRun >= 1 && k < |files|
    ensures var c := CorpusOf(files, minRun, lang);
      && c.Valid()
      && c.tokens[c.texts[k].start..c.texts[k].limit] == PlainTokens(files[k].Stream())
  {
    CorpusIsValid(files, minRun, lang);
    TextsOfAt(files, k, |files|);
    AllTokensGrow(files, k + 1, |files|);
    FileAdded(files, k);
    hide AllTokens, PlainTokens, TextsOf, NewTexts, Partition;
    PartOf(AllTokens(files, |files|), AllTokens(files, k), PlainTokens(files[k].Stream()));
  }

  lemma PartOf(all: seq<Token>, before: seq<Token>, part: seq<Token>)
    requires before + part <= all
    ensures all[|before|..|before + part|] == part
  {
    assert all[..|before + part|] == before + part;
  }

  // ---------- Reading the files ----------

  /** The token array and the newline cache, which share no memory. */
  ghost predicate Input(r: Reader, tokens: Growable<Token>)
    reads r, r.Repr(), tokens, tokens.data
  {
    && r.Valid() && tokens.Valid()
    && (tokens as object) !in r.Repr() && (tokens.data as object) !in r.Repr()
  }

  /** Stores a token that is not a line end. */
  method StoreToken(r: Reader, tokens: Growable<Token>, memory: bool) returns (ok: bool)
    requires Input(r, tokens)
    modifies tokens, tokens.data
    ensures Input(r, tokens) && (tokens.data == old(tokens.data) || fresh(tokens.data))
    ensures memory ==> ok
    ensures ok ==> tokens.Contents() == old(tokens.Contents()) + if r.lexToken == END_OF_LINE then [] else [r.lexToken]
  {
    ok := true;
    if r.lexToken != END_OF_LINE {
      ok := tokens.Store(r.lexToken, memory);
    }
  }

  lemma PlainTokensRead(s: seq<Token>, at: nat)
    requires at < |s|
    ensures PlainTokens(s[..at + 1]) == PlainTokens(s[..at]) + if s[at] == END_OF_LINE then [] else [s[at]]
  {
    assert s[..at + 1][..at] == s[..at];
  }

  /** File `s` has been read up to `r.at`, and its tokens stored behind those in `before`. */
  ghost predicate Reading(r: Reader, tokens: Growable<Token>, s: seq<Token>, start: nat, before: seq<Token>)
    reads r, r.Repr(), tokens, tokens.data
  {
    && Input(r, tokens) && r.Saving(start) && r.stream == s
    && tokens.Contents() == before + PlainTokens(s[..r.at])
  }

  /** Reads one token or line end. Being out of memory for the token array is fatal. */
  method ReadToken(r: Reader, tokens: Growable<Token>, memory: bool, ghost s: seq<Token>, ghost start: nat,
                   ghost before: seq<Token>)
    returns (more: bool, ok: bool)
    requires Reading(r, tokens, s, start, before)
    modifies r.Repr(), tokens, tokens.data
    ensures Input(r, tokens) && fresh(r.Repr() - old(r.Repr()))
    ensures (tokens.data == old(tokens.data) || fresh(tokens.data))
    ensures memory ==> ok
    ensures ok ==> Reading(r, tokens, s, start, before)
    ensures more == (old(r.at) < |s|) && r.at == old(r.at) + if more then 1 else 0
    ensures r.buffer != null ==> old(r.buffer) != null && old(r.Cache()) <= r.Cache()
    ensures Survives(memory, old(r.buffer) != null, r.buffer != null, LineFits(s, old(r.at)))
  {
    hide PlainTokens, Count, LineEnds, PrefixSums, LineFits, Survives;
    if r.at < |s| {
      PlainTokensRead(s, r.at);
    }
    more := r.NextToken(start, memory);
    ok := true;
    if more {
      ok := StoreToken(r, tokens, memory);
    }
  }

  /**
    Reads one file; fails only when there is no memory for its tokens. Memory is always available if
    `memory` says so, and may or may not be otherwise. If it is, the cache survives exactly the files
    with short lines.
   */
  method ReadText(r: Reader, tokens: Growable<Token>, s: seq<Token>, memory: bool)
    returns (ok: bool, start: nat, limit: nat)
    requires Input(r, tokens)
    modifies r.Repr(), tokens, tokens.data
    ensures Input(r, tokens) && fresh(r.Repr() - old(r.Repr()))
    ensures (tokens.data == old(tokens.data) || fresh(tokens.data))
    ensures memory ==> ok
    ensures ok ==> tokens.Contents() == old(tokens.Contents()) + PlainTokens(s) && r.Caches(s, start, limit)
    ensures ok && r.buffer != null ==> old(r.buffer) != null && old(r.Cache()) <= r.Cache()
    ensures ok ==> Survives(memory, old(r.buffer) != null, r.buffer != null, ShortLines(s))
  {
    hide PlainTokens, Count, LineEnds, PrefixSums, CachedIn, Fit, ShortLines, LineFits, TailFits, Survives;
    ghost var had := r.buffer != null;
    limit := 0;
    ghost var before := tokens.Contents();
    NothingRead(s);
    start := r.OpenFirst(s);
    ok := true;
    var more := true;
    while more
      invariant Reading(r, tokens, s, start, before) && (!more ==> r.at == |s|)
      invariant fresh(r.Repr() - old(r.Repr())) && (tokens.data == old(tokens.data) || fresh(tokens.data))
      invariant ok && (r.buffer != null ==> old(r.buffer) != null && old(r.Cache()) <= r.Cache())
      invariant Survives(memory, had, r.buffer != null, Fit(LineEnds(s[..r.at])))
      decreases |s| - r.at, more
    {
      ghost var has, at := r.buffer != null, r.at;
      var available: bool := *;
      more, ok := ReadToken(r, tokens, memory || available, s, start, before);
      if !ok {
        return;
      }
      StillSurvives(s, at, memory, memory || available, had, has, r.buffer != null);
    }
    assert s[..|s|] == s;
    FitAll(s);
    var available: bool := *;
    ghost var has := r.buffer != null;
    limit := r.CloseFirst(start, memory || available);
    SurvivesBoth(memory, memory || available, had, has, r.buffer != null, Fit(LineEnds(s)), TailFits(s), ShortLines(s));
  }

  lemma StillSurvives(s: seq<Token>, at: nat, memory: bool, more: bool, a: bool, b: bool, c: bool)
    requires at <= |s| && (memory ==> more)
    requires Survives(memory, a, b, Fit(LineEnds(s[..at]))) && Survives(more, b, c, LineFits(s, at))
    ensures Survives(memory, a, c, Fit(LineEnds(s[..if at < |s| then at + 1 else at])))
  {
    if at < |s| {
      FitNext(s, at);
    }
  }

  lemma NothingRead(s: seq<Token>)
    ensures PlainTokens(s[..0]) == []
    ensures forall memory, has :: Survives(memory, has, has, Fit(LineEnds(s[..0])))
  {
  }

  /** What is recorded of a text: its part of the token array, and its part of the cache. */
  datatype Segment = Segment(start: nat, limit: nat, cacheStart: nat, cacheLimit: nat)

  /** The segments of the first files have been recorded. */
  ghost predicate Recorded(r: Reader, files: seq<Argument>, segments: seq<Segment>)
    reads r`buffer, r.buffer, if r.buffer == null then {} else {r.buffer.data}
  {
    && r.Valid() && |segments| <= |files|
    && (forall k :: 0 <= k < |segments| ==>
          segments[k].start == |AllTokens(files, k)| && segments[k].limit == |AllTokens(files, k + 1)|)
    && (r.buffer != null ==> SegmentsCached(r.Cache(), files, segments))
  }

  /** Reads the next file. A separator has no tokens and no lines. */
  method ReadFile(r: Reader, tokens: Growable<Token>, ghost files: seq<Argument>, file: Argument,
                  segments: seq<Segment>, memory: bool)
    returns (ok: bool, more: seq<Segment>)
    requires Input(r, tokens) && Recorded(r, files, segments) && |segments| < |files| && file == files[|segments|]
    requires tokens.Contents() == AllTokens(files, |segments|)
    modifies r.Repr(), tokens, tokens.data
    ensures Input(r, tokens) && fresh(r.Repr() - old(r.Repr()))
    ensures (tokens.data == old(tokens.data) || fresh(tokens.data))
    ensures (memory ==> ok) && tokens.Valid()
    ensures ok ==> |more| == |segments| + 1 && Recorded(r, files, more) && tokens.Contents() == AllTokens(files, |more|)
    ensures ok ==> Survives(memory, old(r.buffer) != null, r.buffer != null, ShortLines(file.Stream()))
  {
    hide Count, LineEnds, PrefixSums, CachedIn, PlainTokens, AllTokens, ShortLines, Survives;
    var from := tokens.free;
    var start, limit := 0, 0;
    ghost var cache := r.Cache();
    FileAdded(files, |segments|);
    SeparatorIsEmpty(cache);
    ok := true;
    if file.File? {
      ok, start, limit := ReadText(r, tokens, file.stream, memory);
    }
    more := segments + [Segment(from, tokens.free, start, limit)];
    if ok && r.buffer != null {
      AllCachesGrow(cache, r.Cache(), files, segments);
    }
  }

  lemma FileAdded(files: seq<Argument>, n: nat)
    requires n < |files|
    ensures AllTokens(files, n + 1) == AllTokens(files, n) + PlainTokens(files[n].Stream())
  {
  }

  ghost predicate SegmentsCached(cache: seq<nat>, files: seq<Argument>, segments: seq<Segment>) {
    |segments| <= |files| && forall k :: 0 <= k < |segments| ==>
      CachedIn(cache, files[k].Stream(), segments[k].cacheStart, segments[k].cacheLimit)
  }

  lemma AllCachesGrow(cache: seq<nat>, more: seq<nat>, files: seq<Argument>, segments: seq<Segment>)
    requires SegmentsCached(cache, files, segments) && cache <= more
    ensures SegmentsCached(more, files, segments)
  {
    forall k | 0 <= k < |segments|
      ensures CachedIn(more, files[k].Stream(), segments[k].cacheStart, segments[k].cacheLimit)
    {
      CacheGrows(cache, more, files[k].Stream(), segments[k].cacheStart, segments[k].cacheLimit);
    }
  }

  lemma SeparatorIsEmpty(cache: seq<nat>)
    ensures CachedIn(cache, [], 0, 0) && PlainTokens([]) == []
    ensures forall memory, has :: Survives(memory, has, has, ShortLines([]))
  {
  }

  method Initialize(ghost files: seq<Argument>, cacheMemory: bool) returns (r: Reader, tokens: Growable<Token>)
    ensures Input(r, tokens) && fresh(r.Repr()) && fresh(tokens) && fresh(tokens.data) && tokens.Valid()
    ensures tokens.Contents() == AllTokens(files, 0) && Recorded(r, files, [])
    ensures (r.buffer != null) == cacheMemory
  {
    r := new Reader(cacheMemory);
    tokens := new Growable<Token>(16384);
    var _ := tokens.Store(NO_TOKEN, true);
  }

  /** The first `n` files have no line that is too long for the cache. */
  ghost predicate AllShort(files: seq<Argument>, n: nat)
    requires n <= |files|
  {
    forall k :: 0 <= k < n ==> ShortLines(files[k].Stream())
  }

  /**
    Reads all files. Being out of memory for the token array is fatal; for the cache it is not. If
    there is memory for both, the cache survives if and only if no line is too long for it.
   */
  method ReadInputFiles(files: seq<Argument>, memory: bool, cacheMemory: bool)
    returns (ok: bool, r: Reader, tokens: Growable<Token>, segments: seq<Segment>, newTexts: nat)
    ensures memory ==> ok
    ensures ok ==> Input(r, tokens) && fresh(r.Repr()) && fresh(tokens) && fresh(tokens.data)
    ensures ok ==> tokens.Contents() == AllTokens(files, |files|)
    ensures ok ==> |segments| == |files| && Recorded(r, files, segments)
    ensures ok ==> newTexts == NewTexts(files, |files|) && IsLastSeparator(files, newTexts)
    ensures ok ==> Survives(memory, cacheMemory, r.buffer != null, AllShort(files, |files|))
  {
    hide Input, Recorded, AllTokens, ShortLines, IsLastSeparator;
    r, tokens := Initialize(files, cacheMemory);
    segments, newTexts, ok := [], |files|, true;
    for n := 0 to |files|
      invariant Input(r, tokens) && fresh(r.Repr()) && fresh(tokens) && fresh(tokens.data)
      invariant tokens.Valid() && |segments| == n && Recorded(r, files, segments)
      invariant tokens.Contents() == AllTokens(files, n)
      invariant ok && newTexts == NewTexts(files, n)
      invariant Survives(memory, cacheMemory, r.buffer != null, AllShort(files, n))
    {
      if files[n].Separator? {
        newTexts := n;
      }
      ok, segments := ReadFile(r, tokens, files, files[n], segments, memory);
      if !ok {
        return;
      }
    }
    NewTextsIs(files, |files|);
  }

  /** The text descriptors, as the second pass finds them when no run has been added yet. */
  method DescribeTexts(r: Reader, files: seq<Argument>, segments: seq<Segment>) returns (texts: seq<TextEntry>)
    requires |segments| == |files| && Recorded(r, files, segments)
    ensures |texts| == |files| && ValidTexts(texts, {}) && AllCached(r, texts)
    ensures forall k :: 0 <= k < |texts| ==>
      fresh(texts[k]) && texts[k].stream == files[k].Stream() && texts[k].start == |AllTokens(files, k)|
  {
    hide CachedIn, AllTokens, Recorded, Count, SegmentsCached, Separate;
    RecordedValid(r, files, segments);
    NoTexts();
    texts := [];
    for n := 0 to |files|
      invariant |texts| == n && ValidTexts(texts, {}) && AllCached(r, texts) && r.Valid()
      invariant forall k :: 0 <= k < n ==>
        fresh(texts[k]) && texts[k].chain == [] &&
        texts[k].stream == files[k].Stream() && texts[k].start == |AllTokens(files, k)|
      invariant Recorded(r, files, segments)
    {
      RecordedAt(r, files, segments, n);
      var text := new TextEntry(files[n].Stream(), segments[n].start, segments[n].cacheStart, segments[n].cacheLimit);
      OneMore(texts, text);
      texts := texts + [text];
    }
  }

  lemma RecordedValid(r: Reader, files: seq<Argument>, segments: seq<Segment>)
    requires Recorded(r, files, segments)
    ensures r.Valid()
  {
  }

  lemma RecordedAt(r: Reader, files: seq<Argument>, segments: seq<Segment>, n: nat)
    requires Recorded(r, files, segments) && n < |segments|
    ensures segments[n].start == |AllTokens(files, n)|
    ensures r.Caches(files[n].Stream(), segments[n].cacheStart, segments[n].cacheLimit)
  {
  }

  lemma NoTexts()
    ensures Separate([])
  {
  }

  lemma OneMore(texts: seq<TextEntry>, text: TextEntry)
    requires Separate(texts) && text.chain == [] && text !in texts
    ensures Separate(texts + [text])
  {
  }
}
